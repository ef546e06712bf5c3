/** struct memory_pool and struct pool_manager as classes; each method is proved to do what the function of
    the same operation in PoolLedger says. */
module PoolManager {
  import opened MachineWords
  import opened Alignment
  import opened Lists
  import opened PoolLedger
  import opened Options

  /** The bytes asked of the page source for a plain or an aligned request. */
  function AskedFor(size: Word, align: Option<Word>): nat {
    if align.Some? then AlignedRequest(size, align.value) else size
  }

  /** A pool that the walk has passed, or not reached. */
  function AfterRefusals(p: PoolState, kind: nat, passed: bool): PoolState {
    if passed && p.kind == kind then p.(errors := p.errors + 1) else p
  }

  class MemoryPool {
    const id: nat
    const kind: nat
    const physStart: nat
    const physEnd: nat
    var size: nat
    var totalSize: nat
    var usedSize: nat
    var freeSize: nat
    var peakUsed: nat
    var totalAllocated: nat
    var totalFreed: nat
    var allocations: nat
    var frees: nat
    var active: int
    var errors: nat
    var usedList: seq<nat>  // nothing ever adds to it
    ghost var top: nat  // the page source: where the memory it may grant ends,
    ghost var held: int  // and the pages it has granted and not got back

    ghost function State(): PoolState
      reads this
    {
      PoolState(id, kind, physStart, physEnd, size, totalSize, usedSize, freeSize, peakUsed,
                totalAllocated, totalFreed, allocations, frees, active, errors, |usedList|, top, held)
    }

    constructor (id: nat, kind: nat, start: Word, size: nat)
      ensures State() == NewPool(id, kind, start, size)
      ensures this.id == id && this.kind == kind
      ensures physStart == start && physEnd == top == (start + size) % 0x1_0000_0000_0000_0000
      ensures this.size == totalSize == freeSize == size && usedSize == 0 && peakUsed == 0
      ensures totalAllocated == 0 && totalFreed == 0 && allocations == 0 && frees == 0 && active == 0
      ensures errors == 0 && usedList == [] && held == 0
    {
      this.id, this.kind, physStart, physEnd := id, kind, start, (start + size) % WORD;
      this.size, totalSize, freeSize := size, size, size;
      usedSize, peakUsed, totalAllocated, totalFreed := 0, 0, 0, 0;
      allocations, frees, active, errors := 0, 0, 0, 0;
      usedList, top, held := [], (start + size) % WORD, 0;
    }

    /** The statistics after an allocation. */
    method Record(size: Word, ghost asked: nat)
      modifies this`usedSize, this`freeSize, this`allocations, this`active, this`totalAllocated, this`peakUsed
      modifies this`held
      ensures State() == Charge(old(State()), size, asked)
    {
      usedSize := (usedSize + size) % WORD;
      freeSize := (freeSize - size) % WORD;
      allocations := allocations + 1;
      active := active + 1;
      totalAllocated := (totalAllocated + size) % WORD;
      if usedSize > peakUsed {
        peakUsed := usedSize;
      }
      held := held + Pages(asked);
    }

    /** pool_alloc; grant is what gen_pool_alloc answers for the size. */
    method Alloc(size: Word, grant: nat) returns (ptr: nat)
      modifies this
      ensures ptr == if size == 0 then 0 else grant
      ensures State() == if size == 0 then old(State())
                         else if grant != 0 then Charge(old(State()), size, size)
                         else old(State()).(errors := old(errors) + 1)
      ensures ptr != 0 ==> usedSize == (old(usedSize) + size) % 0x1_0000_0000_0000_0000
                           && held == old(held) + (size + 4095) / 4096
    {
      ptr := 0;
      if size != 0 {
        ptr := grant;
        if ptr != 0 {
          Record(size, size);
        } else {
          errors := errors + 1;
        }
      }
    }

    /** pool_alloc_aligned and its wrapper: the aligned size is asked of the source, which answers with grant, and
        the size of the request is charged. */
    method AllocAligned(size: Word, align: Word, grant: nat) returns (ptr: nat)
      modifies this
      ensures ptr == if size == 0 then 0 else grant
      ensures State() == if size == 0 then old(State())
                         else if grant != 0 then Charge(old(State()), size, AlignedRequest(size, align))
                         else old(State()).(errors := old(errors) + 1)
      ensures ptr != 0 ==> usedSize == (old(usedSize) + size) % 0x1_0000_0000_0000_0000
                           && held == old(held) + (AlignUp(size, if align < 4096 then 4096 else align) + 4095) / 4096
    {
      ptr := 0;
      if size != 0 {
        var asked := AlignUp(size, if align < POOL_ALIGNMENT then POOL_ALIGNMENT else align);
        ptr := grant;
        if ptr != 0 {
          Record(size, asked);
        } else {
          errors := errors + 1;
        }
      }
    }

    /** pool_free. */
    method Free(ptr: nat, size: Word) returns (status: Status)
      modifies this`usedSize, this`freeSize, this`frees, this`active, this`totalFreed, this`held
      ensures status == if ptr == 0 || size == 0 then Failure(Invalid) else Success
      ensures State() == if status.Success? then Credit(old(State()), size) else old(State())
      ensures status.Success? ==>
                && usedSize == (old(usedSize) - size) % 0x1_0000_0000_0000_0000
                && freeSize == (old(freeSize) + size) % 0x1_0000_0000_0000_0000
                && totalFreed == (old(totalFreed) + size) % 0x1_0000_0000_0000_0000
                && frees == old(frees) + 1 && active == old(active) - 1
                && held == old(held) - (size + 4095) / 4096
    {
      if ptr == 0 || size == 0 {
        return Failure(Invalid);
      }
      usedSize := (usedSize - size) % WORD;
      freeSize := (freeSize + size) % WORD;
      frees := frees + 1;
      active := active - 1;
      totalFreed := (totalFreed + size) % WORD;
      held := held - Pages(size);
      status := Success;
    }

    /** pool_shrink. */
    method Shrink(target: Word, ghost wraps: bool) returns (status: Status)
      modifies this
      ensures (State(), status) == Shrunk(old(State()), target, wraps)
      ensures status == if old(usedSize) > target then Failure(Busy) else Success
      ensures status.Success? ==>
                && size == target && usedSize == old(usedSize)
                && (old(size) != target ==> totalSize == target && freeSize == target - usedSize)
                && (old(size) == target ==> State() == old(State()))
      ensures status.Failure? ==> State() == old(State())
    {
      if usedSize > target {
        return Failure(Busy);
      }
      if size != target {
        top := TopAfter(State(), target, wraps);
        size := target;
        totalSize := target;
        freeSize := target - usedSize;
      }
      status := Success;
    }
  }

  class PoolManager {
    ghost var states: seq<PoolState>  // the states of the pools, in list order
    var pools: seq<MemoryPool>
    var nextId: nat
    var usedSize: nat
    var peakSize: nat
    var totalAllocations: nat
    var totalFrees: nat
    var active: int

    /** The pools on the list are different objects, and `states` is what they hold. */
    ghost predicate Valid()
      reads this, pools
    {
      && (forall i, j :: 0 <= i < j < |pools| ==> pools[i] != pools[j])
      && |states| == |pools|
      && forall i :: 0 <= i < |pools| ==> states[i] == pools[i].State()
    }

    ghost function State(): ManagerState
      reads this
    {
      ManagerState(states, nextId, usedSize, peakSize, totalAllocations, totalFrees, active)
    }

    constructor ()
      ensures Valid() && Fresh(State())
      ensures pools == [] && nextId == 1 && usedSize == 0 && peakSize == 0
      ensures totalAllocations == 0 && totalFrees == 0 && active == 0
    {
      pools, states, nextId := [], [], 1;
      usedSize, peakSize, totalAllocations, totalFrees, active := 0, 0, 0, 0, 0;
    }

    /** pool_manager_create_pool. */
    method CreatePool(hasName: bool, kind: nat, start: Word, size: nat, backed: bool) returns (status: Status)
      requires Valid()
      modifies this
      ensures Valid() && (State(), status) == Create(old(State()), hasName, kind, start, size, backed)
      ensures State() == Step(old(State()), Operation.CreatePool(hasName, kind, start, size, backed))
      ensures forall p <- pools :: p in old(pools) || fresh(p)
      ensures status == if !hasName || size == 0 then Failure(Invalid)
                        else if && backed && |old(pools)| < 64
                                && 4 * 1024 * 1024 <= size <= 512 * 1024 * 1024 then Success
                        else Failure(NoMemory)
      ensures status.Failure? ==> pools == old(pools) && states == old(states)
      ensures status.Success? ==>
                var n := |old(pools)|;
                && |pools| == n + 1 && pools[..n] == old(pools) && states[..n] == old(states) && fresh(pools[n])
                && nextId == old(nextId) + 1 && pools[n].id == old(nextId) && pools[n].kind == kind
                && pools[n].physStart == start && pools[n].physEnd == (start + size) % 0x1_0000_0000_0000_0000
                && pools[n].size == pools[n].totalSize == pools[n].freeSize == size && pools[n].usedSize == 0
    {
      if !hasName || size == 0 {
        return Failure(Invalid);
      }
      if |pools| >= POOL_MAX_COUNT || size < POOL_MIN_SIZE || size > POOL_MAX_SIZE {
        return Failure(NoMemory);
      }
      nextId := nextId + 1;
      if !backed {
        return Failure(NoMemory);
      }
      var pool := new MemoryPool(nextId - 1, kind, start, size);
      pools := pools + [pool];
      states := states + [NewPool(nextId - 1, kind, start, size)];
      status := Success;
    }

    /** pool_manager_get_pool. */
    method GetPool(id: nat) returns (k: nat)
      requires Valid()
      ensures k == FindId(states, id)
    {
      k := 0;
      while k < |pools|
        invariant k <= |pools|
        invariant forall j :: 0 <= j < k ==> states[j].id != id
      {
        if pools[k].id == id {
          return;
        }
        k := k + 1;
      }
    }

    /** pool_manager_destroy_pool. */
    method DestroyPool(id: nat) returns (status: Status)
      requires Valid()
      modifies this
      ensures Valid() && (State(), status) == Destroy(old(State()), id)
      ensures State() == Step(old(State()), Operation.DestroyPool(id))
    {
      var k := GetPool(id);
      if k == |pools| {
        return Failure(NotFound);
      }
      if pools[k].usedList != [] {
        return Failure(Busy);
      }
      pools, states := Without(pools, k), Without(states, k);
      status := Success;
    }

    /** pool_shrink on the pool with this id. */
    method ShrinkPool(id: nat, target: Word, ghost wraps: bool) returns (status: Status)
      requires Valid()
      modifies this, pools
      ensures Valid() && (State(), status) == Shrink(old(State()), id, target, wraps)
      ensures State() == Step(old(State()), Operation.ShrinkPool(id, target, wraps))
    {
      var k := GetPool(id);
      if k == |pools| {
        return Failure(NotFound);
      }
      status := pools[k].Shrink(target, wraps);
      states := states[k := Shrunk(states[k], target, wraps).0];
    }

    /** The call of pool_alloc, or of its aligned wrapper, on pool i. */
    method AllocFrom(i: nat, size: Word, align: Option<Word>, grant: nat) returns (ptr: nat)
      requires Valid() && i < |pools| && size != 0
      modifies this`states, pools[i]
      ensures Valid() && ptr == grant
      ensures states == old(states)[i := if grant != 0 then Charge(old(states[i]), size, AskedFor(size, align))
                                         else old(states[i]).(errors := old(states[i]).errors + 1)]
    {
      if align.Some? {
        ptr := pools[i].AllocAligned(size, align.value, grant);
      } else {
        ptr := pools[i].Alloc(size, grant);
      }
      states := states[i := pools[i].State()];
    }

    /** The walk of pool_manager_alloc and of pool_manager_alloc_aligned over the pools: the first k refuse. */
    method Walk(size: Word, align: Option<Word>, kind: nat, grants: seq<nat>) returns (ptr: nat, ghost k: nat)
      requires Valid() && size != 0
      modifies this`states, pools
      ensures Valid() && k <= |old(states)| == |states| && (ptr == 0 <==> k == |old(states)|)
      ensures forall j :: 0 <= j < k ==> !Serves(old(states)[j], kind, GrantAt(grants, j))
      ensures forall j :: 0 <= j < |states| && j != k ==> states[j] == AfterRefusals(old(states)[j], kind, j < k)
      ensures ptr != 0 ==> old(states)[k].kind == kind && ptr == GrantAt(grants, k)
                           && states[k] == Charge(old(states)[k], size, AskedFor(size, align))
    {
      k := 0;
      var i := 0;
      while i < |pools|
        invariant i == k <= |pools| == |old(states)| && Valid()
        invariant forall j :: 0 <= j < i ==> !Serves(old(states)[j], kind, GrantAt(grants, j))
        invariant forall j :: 0 <= j < |states| ==> states[j] == AfterRefusals(old(states)[j], kind, j < i)
      {
        if pools[i].kind == kind {
          ptr := AllocFrom(i, size, align, GrantAt(grants, i));
          if ptr != 0 {
            return;
          }
        }
        i, k := i + 1, k + 1;
      }
      ptr := 0;
    }

    /** What the walk does to the pools, and the address it returns. */
    method AllocFirst(size: Word, align: Option<Word>, kind: nat, grants: seq<nat>) returns (ptr: nat)
      requires Valid() && size != 0
      modifies this`states, pools
      ensures Valid()
      ensures states == AllocateIn(old(states), size, AskedFor(size, align), kind, grants).0
      ensures ptr == AllocateIn(old(states), size, AskedFor(size, align), kind, grants).1
    {
      ghost var k;
      ptr, k := Walk(size, align, kind, grants);
      WalkIs(old(states), states, size, AskedFor(size, align), kind, grants, k, ptr);
    }

    /** pool_manager_alloc, and pool_manager_alloc_aligned with an alignment. */
    method Alloc(size: Word, align: Option<Word>, kind: nat, grants: seq<nat>) returns (ptr: nat)
      requires Valid()
      modifies this, pools
      ensures Valid() && (State(), ptr) == Allocate(old(State()), size, AskedFor(size, align), kind, grants)
    {
      if size == 0 {
        return 0;
      }
      ptr := AllocFirst(size, align, kind, grants);
      if ptr != 0 {
        Count(size);
      }
    }

    /** The counter updates of a successful allocation. */
    method Count(size: Word)
      modifies this`usedSize, this`peakSize, this`totalAllocations, this`active
      ensures State() == Counted(old(State()), size)
      ensures usedSize == (old(usedSize) + size) % 0x1_0000_0000_0000_0000 && peakSize == Max(usedSize, old(peakSize))
      ensures totalAllocations == old(totalAllocations) + 1 && active == old(active) + 1
    {
      usedSize := (usedSize + size) % WORD;
      if usedSize > peakSize {
        peakSize := usedSize;
      }
      totalAllocations := totalAllocations + 1;
      active := active + 1;
    }

    /** pool_manager_free. */
    method Free(ptr: nat, size: Word) returns (status: Status)
      requires Valid()
      modifies this, pools
      ensures Valid() && (State(), status) == Release(old(State()), ptr, size)
      ensures State() == Step(old(State()), Operation.Free(ptr, size))
    {
      if ptr == 0 || size == 0 {
        return Failure(Invalid);
      }
      status := Failure(NotFound);
      var k := 0;
      while k < |pools|
        invariant k <= |pools|
        invariant forall j :: 0 <= j < k ==> !Covers(states[j], ptr)
      {
        if pools[k].physStart <= ptr < pools[k].physEnd {
          break;
        }
        k := k + 1;
      }
      if k < |pools| {
        status := pools[k].Free(ptr, size);
        states := states[k := pools[k].State()];
        usedSize := (usedSize - size) % WORD;
        totalFrees := totalFrees + 1;
        active := active - 1;
      }
    }
  }

  lemma FirstServingIs(pools: seq<PoolState>, kind: nat, grants: seq<nat>, k: nat)
    requires k <= |pools| && forall j :: 0 <= j < k ==> !Serves(pools[j], kind, GrantAt(grants, j))
    requires k < |pools| ==> Serves(pools[k], kind, GrantAt(grants, k))
    ensures FirstServing(pools, kind, grants, 0) == k
  {}

  /** What the walk leaves is what AllocateIn says. */
  lemma WalkIs(
      before: seq<PoolState>, after: seq<PoolState>, size: nat, asked: nat, kind: nat, grants: seq<nat>, k: nat,
      ptr: nat)
    requires k <= |before| == |after| && (ptr == 0 <==> k == |before|)
    requires forall j :: 0 <= j < k ==> !Serves(before[j], kind, GrantAt(grants, j))
    requires forall j :: 0 <= j < |after| && j != k ==> after[j] == AfterRefusals(before[j], kind, j < k)
    requires ptr != 0 ==> before[k].kind == kind && ptr == GrantAt(grants, k)
                          && after[k] == Charge(before[k], size, asked)
    ensures AllocateIn(before, size, asked, kind, grants) == (after, ptr)
  {
    FirstServingIs(before, kind, grants, k);
    var marked := MarkRefused(before, kind, k);
    assert after == if ptr == 0 then marked else marked[k := Charge(marked[k], size, asked)];
  }
}
