/** struct dma_pool and struct dma_allocator as classes. A kernel list is a sequence field; each method is
    proved to do what the function of the same operation in DmaLedger says. */
module DmaAllocator {
  import opened MachineWords
  import opened Alignment
  import opened DmaMerge
  import opened DmaLedger
  import opened Lists

  class DmaPool {
    const size: nat
    var flags: nat
    var usedList: seq<DmaBlock>
    var freeList: seq<DmaBlock>
    var totalBlocks: nat
    var usedBlocks: int
    var freeBlocks: int
    var currentAllocated: int
    var peakAllocated: int

    function State(): PoolState
      reads this
    {
      PoolState(size, flags, usedList, freeList, totalBlocks, usedBlocks, freeBlocks, currentAllocated,
                peakAllocated)
    }

    constructor (size: nat, flags: nat)
      ensures State() == NewPool(size, flags)
      ensures this.size == size && this.flags == flags && usedList == [] && freeList == []
      ensures totalBlocks == 0 && usedBlocks == 0 && freeBlocks == 0
      ensures currentAllocated == 0 && peakAllocated == 0
    {
      this.size, this.flags := size, flags;
      usedList, freeList := [], [];
      totalBlocks, usedBlocks, freeBlocks, currentAllocated, peakAllocated := 0, 0, 0, 0, 0;
    }

    /** dma_block_find_by_virt. */
    method FindBlock(virt: nat) returns (i: nat)
      ensures i == FindByVirt(usedList, virt) <= |usedList|
      ensures i < |usedList| ==> usedList[i].virt == virt
      ensures forall j :: 0 <= j < i ==> usedList[j].virt != virt
    {
      i := 0;
      while i < |usedList| && usedList[i].virt != virt
        invariant i <= |usedList|
        invariant forall j :: 0 <= j < i ==> usedList[j].virt != virt
      {
        i := i + 1;
      }
    }

    /** dma_block_merge, with the walk resuming after an absorbed block. */
    method Merge() returns (merged: nat)
      modifies this`freeList, this`freeBlocks
      ensures freeList == Pass(old(freeList))
      ensures merged == |old(freeList)| - |freeList| && freeBlocks == old(freeBlocks) - merged
    {
      var i := 0;
      merged := 0;
      while i + 1 < |freeList|
        invariant i <= |freeList|
        invariant freeList[..i] + Pass(freeList[i..]) == Pass(old(freeList))
        invariant merged == |old(freeList)| - |freeList| && freeBlocks == old(freeBlocks) - merged
        decreases |freeList| - i
      {
        PassStep(freeList, i);
        var block, next := freeList[i], freeList[i + 1];
        if Contiguous(block, next) {
          freeList := freeList[..i] + [Absorb(block, next)] + freeList[i + 2..];
          freeBlocks := freeBlocks - 1;
          merged := merged + 1;
        }
        i := i + 1;
      }
      assert freeList[..i] + freeList[i..] == freeList;
    }

    /** The loop of dma_pool_defrag; `freed` says whether any pass merged. */
    method MergeRepeatedly() returns (freed: bool)
      modifies this`freeList, this`freeBlocks
      ensures freeList == Defragged(old(freeList), DEFRAG_CAP)
      ensures freeBlocks == old(freeBlocks) - (|old(freeList)| - |freeList|)
      ensures freed <==> |freeList| < |old(freeList)|
    {
      var iterations := 0;
      var again := true;
      freed := false;
      while again
        invariant iterations <= DEFRAG_CAP && (again ==> iterations < DEFRAG_CAP)
        invariant Defragged(old(freeList), DEFRAG_CAP)
                  == if again then Defragged(freeList, DEFRAG_CAP - iterations) else freeList
        invariant freeBlocks == old(freeBlocks) - (|old(freeList)| - |freeList|)
        invariant freed <==> |freeList| < |old(freeList)|
        invariant |freeList| <= |old(freeList)|
        decreases again, DEFRAG_CAP - iterations
      {
        SettledFixpoint(freeList);
        PassShrinks(freeList);
        var merged := Merge();
        if merged > 0 {
          freed := true;
          iterations := iterations + 1;
        }
        again := merged > 0 && iterations < DEFRAG_CAP;
      }
    }

    /** dma_pool_defrag: a free list of at most 2^100 blocks is fully coalesced. */
    method Defrag() returns (status: Status)
      modifies this`freeList, this`freeBlocks
      ensures (State(), status) == PoolDefrag(old(State()))
      ensures Settled(freeList) <==> Longest(RunLengths(old(freeList))) <= Pow2(100)
      ensures |old(freeList)| <= Pow2(100) ==>
                && Settled(freeList) && freeList == Coalesced(old(freeList))
                && freeBlocks == old(freeBlocks) - (|old(freeList)| - |freeList|)
      ensures status == if Settled(old(freeList)) then Failure(NoSpace) else Success
    {
      ghost var before := freeList;
      var freed := MergeRepeatedly();
      status := if freed then Success else Failure(NoSpace);
      CapSettles(before);
    }

    /** The new block joins the used list. */
    method Take(block: DmaBlock)
      modifies this`usedList, this`usedBlocks, this`totalBlocks, this`currentAllocated, this`peakAllocated
      ensures State() == Taken(old(State()), block)
      ensures usedList == old(usedList) + [block] && usedBlocks == old(usedBlocks) + 1
      ensures totalBlocks == old(totalBlocks) + 1 && currentAllocated == old(currentAllocated) + block.size
      ensures peakAllocated == Max(old(peakAllocated), currentAllocated)
    {
      usedList := usedList + [block];
      usedBlocks := usedBlocks + 1;
      totalBlocks := totalBlocks + 1;
      currentAllocated := currentAllocated + block.size;
      if currentAllocated > peakAllocated {
        peakAllocated := currentAllocated;
      }
    }

    /** dma_pool_alloc. */
    method Alloc(size: nat, flags: nat, grant: Grant) returns (virt: nat)
      modifies this
      ensures (State(), virt) == PoolAlloc(old(State()), size, flags, grant)
      ensures virt == 0 ==> State() == old(State())
      ensures virt != 0 <==> 0 < size <= 0x200_0000 && grant.Granted?
      ensures virt != 0 ==>
                var n := DmaAlignSize(size);
                && virt == grant.virt && this.flags == old(this.flags) && freeList == old(freeList)
                && usedList == old(usedList) + [DmaBlock(grant.phys, virt, n, Or(flags, 0x8000))]
                && totalBlocks == old(totalBlocks) + 1 && usedBlocks == old(usedBlocks) + 1
                && freeBlocks == old(freeBlocks) && currentAllocated == old(currentAllocated) + n
                && peakAllocated == Max(old(peakAllocated), currentAllocated)
    {
      if size == 0 || size > DMA_MAX_ALLOC_SIZE {
        return 0;
      }
      var n := DmaAlignSize(size);
      if grant.Refused? {
        return 0;
      }
      Take(DmaBlock(grant.phys, grant.virt, n, Or(flags, DMA_FLAG_ALLOCATED)));
      virt := grant.virt;
    }

    /** dma_pool_free. */
    method Free(virt: nat, size: nat) returns (status: Status)
      modifies this
      ensures (State(), status) == PoolFree(old(State()), virt, size)
      ensures status == Failure(Invalid) <==> virt == 0 || size == 0
      ensures status == Failure(NoSpace) ==> false
      ensures status.Success? <==> virt != 0 && size != 0 && exists b <- old(usedList) :: b.virt == virt
      ensures status.Failure? ==> State() == old(State())
      ensures status.Success? ==>
                exists i :: 0 <= i < |old(usedList)| && old(usedList)[i].virt == virt
                  && (forall j :: 0 <= j < i ==> old(usedList)[j].virt != virt)
                  && usedList == Without(old(usedList), i) && freeList == old(freeList) + [old(usedList)[i]]
                  && currentAllocated == old(currentAllocated) - old(usedList)[i].size
      ensures status.Success? ==>
                && flags == old(flags) && totalBlocks == old(totalBlocks) && usedBlocks == old(usedBlocks) - 1
                && freeBlocks == old(freeBlocks) + 1 && peakAllocated == old(peakAllocated)
    {
      if virt == 0 || size == 0 {
        return Failure(Invalid);
      }
      var i := FindBlock(virt);
      if i == |usedList| {
        return Failure(NotFound);
      }
      var block := usedList[i];
      usedList := Without(usedList, i);
      usedBlocks := usedBlocks - 1;
      currentAllocated := currentAllocated - block.size;
      freeList := freeList + [block];
      freeBlocks := freeBlocks + 1;
      status := Success;
    }
  }

  class DmaAllocator {
    ghost var states: seq<PoolState>  // the states of the pools, in list order
    var pools: seq<DmaPool>
    var totalSize: nat
    var usedSize: nat
    var peakSize: nat
    var totalAllocations: nat
    var totalFrees: nat
    var currentAllocations: int
    var errors: nat

    /** The pools on the list are different objects, and `states` is what they hold. */
    ghost predicate Valid()
      reads this, pools
    {
      && (forall i, j :: 0 <= i < j < |pools| ==> pools[i] != pools[j])
      && |states| == |pools|
      && forall i :: 0 <= i < |pools| ==> states[i] == pools[i].State()
    }

    ghost function State(): AllocatorState
      reads this
    {
      AllocatorState(states, totalSize, usedSize, peakSize, totalAllocations, totalFrees, currentAllocations, errors)
    }

    constructor ()
      ensures Valid() && Fresh(State())
      ensures pools == [] && totalSize == 0 && usedSize == 0 && peakSize == 0
      ensures totalAllocations == 0 && totalFrees == 0 && currentAllocations == 0 && errors == 0
    {
      pools, states := [], [];
      totalSize, usedSize, peakSize := 0, 0, 0;
      totalAllocations, totalFrees, currentAllocations, errors := 0, 0, 0, 0;
    }

    /** dma_pool_create; `backed` says whether the descriptor and the page source could be set up. */
    method CreatePool(size: Word, flags: nat, backed: bool) returns (pool: DmaPool?)
      requires Valid()
      modifies this
      ensures Valid() && State() == Create(old(State()), size, flags, backed)
      ensures State() == Step(old(State()), Operation.CreatePool(size, flags, backed))
      ensures pool != null <==> backed
      ensures pools == if pool == null then old(pools) else old(pools) + [pool]
      ensures pool != null ==>
                && fresh(pool) && pool.State() == PoolState(size, flags, [], [], 0, 0, 0, 0, 0)
                && State() == old(State()).(
                     pools := old(states) + [pool.State()],
                     totalSize := (old(totalSize) + size) % 0x1_0000_0000_0000_0000)
      ensures pool == null ==> State() == old(State())
    {
      pool := null;
      if backed {
        var created := new DmaPool(size, flags);
        pool := created;
        pools := pools + [created];
        states := states + [NewPool(size, flags)];
        totalSize := (totalSize + size) % WORD;
      }
    }

    /** The counter updates of a successful allocation. */
    method Charge(n: nat)
      modifies this`usedSize, this`peakSize, this`totalAllocations, this`currentAllocations
      ensures State() == Charged(old(State()), n)
    {
      usedSize := (usedSize + n) % WORD;
      if usedSize > peakSize {
        peakSize := usedSize;
      }
      totalAllocations := totalAllocations + 1;
      currentAllocations := currentAllocations + 1;
    }

    /** The call of dma_pool_alloc on pool i. */
    method AllocFrom(i: nat, n: nat, flags: nat, grant: Grant) returns (virt: nat)
      requires Valid() && i < |pools| && 0 < n <= DMA_MAX_ALLOC_SIZE
      modifies this`states, pools[i]
      ensures Valid()
      ensures states == old(states)[i := PoolAlloc(old(states[i]), n, flags, grant).0]
      ensures virt == PoolAlloc(old(states[i]), n, flags, grant).1
      ensures virt == 0 ==> states == old(states)
      ensures virt != 0 <==> grant.Granted?
    {
      virt := pools[i].Alloc(n, flags, grant);
      states := states[i := pools[i].State()];
    }

    /** The walk of dma_allocator_alloc over the pools, to the pool k that serves. */
    method Walk(n: nat, flags: nat, grants: seq<Grant>) returns (virt: nat, ghost k: nat)
      requires Valid() && 0 < n <= DMA_MAX_ALLOC_SIZE
      modifies this`states, pools
      ensures Valid() && k <= |old(states)|
      ensures forall j :: 0 <= j < k ==> !Serves(old(states)[j], flags, GrantAt(grants, j))
      ensures virt == 0 ==> k == |old(states)| && states == old(states)
      ensures virt != 0 ==>
                && k < |old(states)| && Serves(old(states)[k], flags, GrantAt(grants, k))
                && states == old(states)[k := PoolAlloc(old(states)[k], n, flags, GrantAt(grants, k)).0]
                && virt == PoolAlloc(old(states)[k], n, flags, GrantAt(grants, k)).1
    {
      var i := 0;
      while i < |pools|
        invariant i <= |pools| && Valid() && states == old(states)
        invariant forall j :: 0 <= j < i ==> !Serves(states[j], flags, GrantAt(grants, j))
      {
        if And(pools[i].flags, flags) != 0 {
          virt := AllocFrom(i, n, flags, GrantAt(grants, i));
          if virt != 0 {
            return virt, i;
          }
        }
        i := i + 1;
      }
      virt, k := 0, i;
    }

    /** dma_allocator_alloc with the aligned size. */
    method AllocAligned(n: nat, flags: nat, grants: seq<Grant>) returns (virt: nat)
      requires Valid() && 0 < n <= DMA_MAX_ALLOC_SIZE
      modifies this, pools
      ensures Valid() && pools == old(pools)
      ensures (State(), virt) == AllocateAligned(old(State()), n, flags, grants)
    {
      ghost var k;
      virt, k := Walk(n, flags, grants);
      FirstServingIs(old(states), flags, grants, k);
      if virt != 0 {
        Charge(n);
      } else {
        errors := errors + 1;
      }
    }

    /** dma_allocator_alloc. */
    method Alloc(size: nat, flags: nat, grants: seq<Grant>) returns (virt: nat)
      requires Valid()
      modifies this, pools
      ensures Valid() && pools == old(pools)
      ensures (State(), virt) == Allocate(old(State()), size, flags, grants)
      ensures State() == Step(old(State()), Operation.Alloc(size, flags, grants))
    {
      if size == 0 || size > DMA_MAX_ALLOC_SIZE {
        return 0;
      }
      AcceptedSizeFits(size);
      virt := AllocAligned(DmaAlignSize(size), flags, grants);
    }

    /** The call of dma_pool_free on pool i. */
    method FreeFrom(i: nat, virt: nat, size: nat) returns (status: Status)
      requires Valid() && i < |pools| && virt != 0 && size != 0
      modifies this`states, pools[i]
      ensures Valid()
      ensures states == old(states)[i := PoolFree(old(states[i]), virt, size).0]
      ensures status.Success? <==> FindByVirt(old(states[i]).used, virt) < |old(states[i]).used|
      ensures status.Failure? ==> states == old(states)
    {
      status := pools[i].Free(virt, size);
      states := states[i := pools[i].State()];
    }

    /** dma_allocator_free. */
    method Free(virt: nat, size: nat) returns (status: Status)
      requires Valid()
      modifies this, pools
      ensures Valid() && pools == old(pools)
      ensures (State(), status) == Release(old(State()), virt, size)
    {
      if virt == 0 || size == 0 {
        return Failure(Invalid);
      }
      var i := 0;
      while i < |pools|
        invariant i <= |pools| && pools == old(pools) && Valid() && states == old(states)
        invariant State() == old(State())
        invariant forall j :: 0 <= j < i ==> FindByVirt(states[j].used, virt) == |states[j].used|
      {
        status := FreeFrom(i, virt, size);
        if status.Success? {
          usedSize := (usedSize - size) % WORD;
          totalFrees := totalFrees + 1;
          currentAllocations := currentAllocations - 1;
          return;
        }
        i := i + 1;
      }
      errors := errors + 1;
      status := Failure(NotFound);
    }

    /** The call of dma_pool_defrag on pool i. */
    method DefragAt(i: nat) returns (status: Status)
      requires Valid() && i < |pools|
      modifies this`states, pools[i]
      ensures Valid()
      ensures states == old(states)[i := PoolDefrag(old(states[i])).0]
      ensures status == PoolDefrag(old(states[i])).1
      ensures status == Success || status == Failure(NoSpace)
    {
      status := pools[i].Defrag();
      states := states[i := pools[i].State()];
    }

    /** The loop of dma_allocator_defrag. */
    method DefragEach() returns (status: Status)
      requires Valid()
      modifies this`states, pools
      ensures Valid() && pools == old(pools)
      ensures (states, status) == DefragPools(old(states))
    {
      status := Success;
      var i := 0;
      while i < |pools|
        invariant i <= |pools| && Valid()
        invariant forall j :: 0 <= j < i ==> states[j] == PoolDefrag(old(states)[j]).0
        invariant forall j :: i <= j < |pools| ==> states[j] == old(states)[j]
        invariant status == Success || status == Failure(NoSpace)
        invariant status.Success? <==> forall j :: 0 <= j < i ==> PoolDefrag(old(states)[j]).1.Success?
      {
        var r := DefragAt(i);
        if r.Failure? && status.Success? {
          status := r;
        }
        i := i + 1;
      }
      DefragStatus(old(states));
      assert states == DefragPools(old(states)).0;
    }

    /** dma_allocator_defrag: of every pool's free list what is contiguous is merged. */
    method Defrag() returns (status: Status)
      requires Valid()
      modifies this`states, pools
      ensures Valid() && pools == old(pools)
      ensures (State(), status) == Defragment(old(State()))
      ensures forall i :: 0 <= i < |pools| ==> SettledFrom(old(states)[i], states[i])
      ensures status.Success? <==> forall i :: 0 <= i < |pools| ==> !Settled(old(states)[i].free)
    {
      DefragmentSettles(State());
      status := DefragEach();
    }
  }

  lemma FirstServingIs(pools: seq<PoolState>, flags: nat, grants: seq<Grant>, k: nat)
    requires k <= |pools| && forall j :: 0 <= j < k ==> !Serves(pools[j], flags, GrantAt(grants, j))
    requires k < |pools| ==> Serves(pools[k], flags, GrantAt(grants, k))
    ensures FirstServing(pools, flags, grants, 0) == k
  {}

  /** One step of the merging walk, standing at block i. */
  lemma PassStep(s: seq<DmaBlock>, i: nat)
    requires i + 1 < |s|
    ensures var t := if Contiguous(s[i], s[i + 1]) then s[..i] + [Absorb(s[i], s[i + 1])] + s[i + 2..] else s;
            s[..i] + Pass(s[i..]) == t[..i + 1] + Pass(t[i + 1..])
  {
    var merge := Contiguous(s[i], s[i + 1]);
    var head := if merge then Absorb(s[i], s[i + 1]) else s[i];
    var rest := if merge then s[i + 2..] else s[i + 1..];
    assert Pass(s[i..]) == [head] + Pass(rest) by {
      assert s[i..][2..] == s[i + 2..] && s[i..][1..] == s[i + 1..];
    }
    Regroup(s[..i], head, Pass(rest));
    var t := if merge then s[..i] + [head] + s[i + 2..] else s;
    assert t[..i + 1] == s[..i] + [head] && t[i + 1..] == rest;
  }

  lemma Regroup(a: seq<DmaBlock>, b: DmaBlock, c: seq<DmaBlock>)
    ensures a + ([b] + c) == (a + [b]) + c
  {}

  /** The only failure of a defragmentation is "nothing merged". */
  lemma {:induction false} DefragStatus(pools: seq<PoolState>)
    ensures DefragPools(pools).1 == Success || DefragPools(pools).1 == Failure(NoSpace)
  {
    if pools != [] { DefragStatus(pools[1..]); }
  }
}
