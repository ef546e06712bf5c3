/** What the operations of the DMA allocator do to its pools and its counters, as functions on values, and
    the two-level ledger these functions keep over whole runs. The classes in DmaAllocator refine them. */
module DmaLedger {
  import opened MachineWords
  import opened Alignment
  import opened DmaMerge
  import opened Lists
  import opened Runs

  const DMA_FLAG_ALLOCATED: nat := 0x8000
  const DEFRAG_CAP: nat := 100

  type Pointer = p: nat | 0 < p witness 1

  /** The answer of the page source (gen_pool_alloc or dma_alloc_coherent) to one request. */
  datatype Grant = Refused | Granted(phys: nat, virt: Pointer)

  datatype Error = Invalid | NotFound | NoSpace

  /** The return code of a C function: 0 or a negative error. */
  datatype Status = Success | Failure(error: Error)

  datatype PoolState = PoolState(
    size: nat, flags: nat, used: seq<DmaBlock>, free: seq<DmaBlock>,
    totalBlocks: nat, usedBlocks: int, freeBlocks: int, current: int, peak: int)

  datatype AllocatorState = AllocatorState(
    pools: seq<PoolState>, totalSize: nat, usedSize: nat, peakSize: nat,
    totalAllocations: nat, totalFrees: nat, currentAllocations: int, errors: nat)

  // ---- One pool -------------------------------------------------------------------------------

  /** The empty pool that dma_pool_create sets up. */
  function NewPool(size: nat, flags: nat): PoolState {
    PoolState(size, flags, [], [], 0, 0, 0, 0, 0)
  }

  /** The pool with one more block in use. */
  function Taken(p: PoolState, block: DmaBlock): PoolState {
    p.(used := p.used + [block], usedBlocks := p.usedBlocks + 1, totalBlocks := p.totalBlocks + 1,
       current := p.current + block.size, peak := Max(p.current + block.size, p.peak))
  }

  /** dma_pool_alloc. The second component is the returned address, 0 for NULL. */
  function PoolAlloc(p: PoolState, size: nat, flags: nat, grant: Grant): (PoolState, nat) {
    if size == 0 || size > DMA_MAX_ALLOC_SIZE || grant.Refused? then (p, 0)
    else
      (Taken(p, DmaBlock(grant.phys, grant.virt, DmaAlignSize(size), Or(flags, DMA_FLAG_ALLOCATED))),
       grant.virt as nat)
  }

  /** dma_block_find_by_virt: the position of the first used block at this address, or |used|. */
  function FindByVirt(used: seq<DmaBlock>, virt: nat): (i: nat)
    ensures i <= |used|
    ensures i < |used| ==> used[i].virt == virt
    ensures forall j :: 0 <= j < i ==> used[j].virt != virt
  {
    IndexWhere(used, (b: DmaBlock) => b.virt == virt)
  }

  /** dma_pool_free: the block leaves the used list and joins the free list at the end. */
  function PoolFree(p: PoolState, virt: nat, size: nat): (PoolState, Status) {
    if virt == 0 || size == 0 then (p, Failure(Invalid))
    else
      var i := FindByVirt(p.used, virt);
      if i == |p.used| then (p, Failure(NotFound))
      else
        (p.(used := Without(p.used, i), free := p.free + [p.used[i]],
            usedBlocks := p.usedBlocks - 1, freeBlocks := p.freeBlocks + 1,
            current := p.current - p.used[i].size),
         Success)
  }

  /** dma_pool_defrag: the free list is merged, and each merge lowers the counter of free blocks. */
  function PoolDefrag(p: PoolState): (PoolState, Status) {
    var t := Defragged(p.free, DEFRAG_CAP);
    (p.(free := t, freeBlocks := p.freeBlocks - (|p.free| - |t|)),
     if |t| < |p.free| then Success else Failure(NoSpace))
  }

  // ---- The allocator --------------------------------------------------------------------------

  /** An allocator as probing leaves it before it creates the first pool. */
  predicate Fresh(s: AllocatorState) {
    && s.pools == [] && s.totalSize == 0 && s.usedSize == 0 && s.peakSize == 0
    && s.totalAllocations == 0 && s.totalFrees == 0 && s.currentAllocations == 0
  }

  /** dma_pool_create; `backed` says whether the descriptor and the page source could be set up. */
  function Create(s: AllocatorState, size: Word, flags: nat, backed: bool): AllocatorState {
    if backed then s.(pools := s.pools + [NewPool(size, flags)], totalSize := (s.totalSize + size) % WORD) else s
  }

  function GrantAt(grants: seq<Grant>, i: nat): Grant {
    if i < |grants| then grants[i] else Refused
  }

  /** Pool i takes part in an allocation with these flags, and its page source grants it. */
  predicate Serves(p: PoolState, flags: nat, grant: Grant) {
    And(p.flags, flags) != 0 && grant.Granted?
  }

  /** The first pool at or after i that serves, or |pools|. */
  function FirstServing(pools: seq<PoolState>, flags: nat, grants: seq<Grant>, i: nat): (k: nat)
    requires i <= |pools|
    ensures i <= k <= |pools|
    ensures k < |pools| ==> Serves(pools[k], flags, GrantAt(grants, k))
    ensures forall j :: i <= j < k ==> !Serves(pools[j], flags, GrantAt(grants, j))
    decreases |pools| - i
  {
    if i == |pools| || Serves(pools[i], flags, GrantAt(grants, i)) then i
    else FirstServing(pools, flags, grants, i + 1)
  }

  /** dma_allocator_alloc; grants[i] is what the page source of pool i would answer. */
  function Allocate(s: AllocatorState, size: nat, flags: nat, grants: seq<Grant>): (AllocatorState, nat) {
    if size == 0 || size > DMA_MAX_ALLOC_SIZE then (s, 0)
    else AllocateAligned(s, DmaAlignSize(size), flags, grants)
  }

  /** The walk over the pools, with the aligned size. */
  function AllocateAligned(s: AllocatorState, n: nat, flags: nat, grants: seq<Grant>): (AllocatorState, nat) {
    var k := FirstServing(s.pools, flags, grants, 0);
    if k == |s.pools| then (s.(errors := s.errors + 1), 0)
    else
      var (p, virt) := PoolAlloc(s.pools[k], n, flags, GrantAt(grants, k));
      (Charged(s, n).(pools := s.pools[k := p]), virt)
  }

  /** The allocator's counters after an allocation of n bytes. */
  function Charged(s: AllocatorState, n: nat): AllocatorState {
    var u := (s.usedSize + n) % WORD;
    s.(usedSize := u, peakSize := if u > s.peakSize then u else s.peakSize,
       totalAllocations := s.totalAllocations + 1, currentAllocations := s.currentAllocations + 1)
  }

  /** The first pool at or after i whose used list holds the address, or |pools|. */
  function FirstOwner(pools: seq<PoolState>, virt: nat, i: nat): (k: nat)
    requires i <= |pools|
    ensures i <= k <= |pools|
    ensures k < |pools| ==> FindByVirt(pools[k].used, virt) < |pools[k].used|
    ensures forall j :: i <= j < k ==> FindByVirt(pools[j].used, virt) == |pools[j].used|
    decreases |pools| - i
  {
    if i == |pools| || FindByVirt(pools[i].used, virt) < |pools[i].used| then i
    else FirstOwner(pools, virt, i + 1)
  }

  /** dma_allocator_free: the pool gives back the size of the block, but the allocator subtracts the size
      the caller passes, in 64-bit arithmetic. */
  function Release(s: AllocatorState, virt: nat, size: nat): (AllocatorState, Status) {
    if virt == 0 || size == 0 then (s, Failure(Invalid))
    else
      var k := FirstOwner(s.pools, virt, 0);
      if k == |s.pools| then (s.(errors := s.errors + 1), Failure(NotFound))
      else
        var (p, _) := PoolFree(s.pools[k], virt, size);
        (s.(pools := s.pools[k := p], usedSize := (s.usedSize - size) % WORD,
            totalFrees := s.totalFrees + 1, currentAllocations := s.currentAllocations - 1),
         Success)
  }

  /** dma_allocator_defrag: every pool is defragmented; the status is the first failure. */
  function DefragPools(pools: seq<PoolState>): (r: (seq<PoolState>, Status))
    ensures |r.0| == |pools| && forall i :: 0 <= i < |pools| ==> r.0[i] == PoolDefrag(pools[i]).0
    ensures r.1.Success? <==> forall i :: 0 <= i < |pools| ==> PoolDefrag(pools[i]).1.Success?
  {
    if pools == [] then ([], Success)
    else
      var (p, status) := PoolDefrag(pools[0]);
      var (rest, others) := DefragPools(pools[1..]);
      ([p] + rest, if status.Failure? then status else others)
  }

  function Defragment(s: AllocatorState): (AllocatorState, Status) {
    var (pools, status) := DefragPools(s.pools);
    (s.(pools := pools), status)
  }

  // ---- Runs -----------------------------------------------------------------------------------

  datatype Operation =
    | CreatePool(poolSize: Word, flags: nat, backed: bool)
    | Alloc(size: nat, flags: nat, grants: seq<Grant>)
    | Free(virt: nat, size: nat)
    | Defrag

  function Step(s: AllocatorState, op: Operation): AllocatorState {
    match op
    case CreatePool(poolSize, flags, backed) => Create(s, poolSize, flags, backed)
    case Alloc(size, flags, grants) => Allocate(s, size, flags, grants).0
    case Free(virt, size) => Release(s, virt, size).0
    case Defrag => Defragment(s).0
  }

  function Total(f: PoolState -> int, pools: seq<PoolState>): int {
    if pools == [] then 0 else f(pools[0]) + Total(f, pools[1..])
  }

  /** The block a free releases, if it releases one. */
  function ReleasedSize(s: AllocatorState, virt: nat): nat {
    var k := FirstOwner(s.pools, virt, 0);
    if k < |s.pools| then s.pools[k].used[FindByVirt(s.pools[k].used, virt)].size else 0
  }

  function Current(p: PoolState): int { p.current }
  function UsedBlocks(p: PoolState): int { p.usedBlocks }
  function TotalBlocks(p: PoolState): int { p.totalBlocks }
  function FreeListLength(p: PoolState): int { |p.free| }

  /** How far one operation passes a size to free that differs from the released block. */
  function DriftOf(s: AllocatorState, op: Operation): int {
    if op.Free? && Release(s, op.virt, op.size).1.Success? then ReleasedSize(s, op.virt) - op.size else 0
  }

  /** The number of blocks that one operation merges away. */
  function MergesOf(s: AllocatorState, op: Operation): int {
    if op.Defrag? then Total(FreeListLength, s.pools) - Total(FreeListLength, Step(s, op).pools) else 0
  }

  /** The allocator together with an account of its run: the drift of its frees and the merges of its
      defragmentations so far. */
  datatype Audited = Audited(s: AllocatorState, drift: int, merges: int)

  /** The account of a run that has not started. */
  predicate Unstarted(a: Audited) {
    Fresh(a.s) && a.drift == 0 && a.merges == 0
  }

  function AuditedStep(a: Audited, op: Operation): Audited {
    Audited(Step(a.s, op), a.drift + DriftOf(a.s, op), a.merges + MergesOf(a.s, op))
  }

  /** The counters of a pool describe its lists. */
  predicate PoolExact(p: PoolState) {
    && p.usedBlocks == |p.used|
    && p.freeBlocks == |p.free|
    && p.current == SumSizes(p.used) <= p.peak
    && |p.used| + |p.free| <= p.totalBlocks
  }

  // ---- Sums over pools and blocks -------------------------------------------------------------

  lemma {:induction false} TotalUpdate(f: PoolState -> int, pools: seq<PoolState>, k: nat, p: PoolState)
    requires k < |pools|
    ensures Total(f, pools[k := p]) == Total(f, pools) - f(pools[k]) + f(p)
  {
    if k == 0 {
      assert pools[k := p][1..] == pools[1..];
    } else {
      TotalUpdate(f, pools[1..], k - 1, p);
      assert pools[k := p][1..] == pools[1..][k - 1 := p];
    }
  }

  lemma {:induction false} TotalAppend(f: PoolState -> int, pools: seq<PoolState>, p: PoolState)
    ensures Total(f, pools + [p]) == Total(f, pools) + f(p)
  {
    if pools != [] {
      TotalAppend(f, pools[1..], p);
      assert (pools + [p])[1..] == pools[1..] + [p];
    } else {
      assert (pools + [p])[1..] == [];
    }
  }

  /** Pools that agree on f have equal totals. */
  lemma {:induction false} TotalSame(f: PoolState -> int, a: seq<PoolState>, b: seq<PoolState>)
    requires |a| == |b| && forall i :: 0 <= i < |a| ==> f(a[i]) == f(b[i])
    ensures Total(f, a) == Total(f, b)
  {
    if a != [] { TotalSame(f, a[1..], b[1..]); }
  }

  lemma {:induction false} SumSizesAppend(s: seq<DmaBlock>, b: DmaBlock)
    ensures SumSizes(s + [b]) == SumSizes(s) + b.size
  {
    if s != [] {
      SumSizesAppend(s[1..], b);
      assert (s + [b])[1..] == s[1..] + [b];
    }
  }

  lemma {:induction false} SumSizesWithout(s: seq<DmaBlock>, i: nat)
    requires i < |s|
    ensures SumSizes(Without(s, i)) == SumSizes(s) - s[i].size
  {
    if i > 0 {
      SumSizesWithout(s[1..], i - 1);
      WithoutTail(s, i);
    } else {
      assert Without(s, i) == s[1..];
    }
  }

  // ---- What one operation does to the ledger --------------------------------------------------

  /** The pool's own limit check never refuses a size the allocator has accepted, and aligning it again
      charges nothing more: the block in the pool has exactly the size on the allocator's ledger. */
  lemma PoolChargesOnce(p: PoolState, size: nat, flags: nat, virt: Pointer, phys: nat)
    requires 0 < size <= DMA_MAX_ALLOC_SIZE
    ensures var n := DmaAlignSize(size);
            var (q, r) := PoolAlloc(p, n, flags, Granted(phys, virt));
            && r == virt && |q.used| == |p.used| + 1 && q.used[|p.used|].size == n
            && (PoolExact(p) ==> PoolExact(q) && q.current == p.current + n)
  {
    AcceptedSizeFits(size);
    var n := DmaAlignSize(size);
    var (q, r) := PoolAlloc(p, n, flags, Granted(phys, virt));
    SumSizesAppend(p.used, q.used[|p.used|]);
  }

  lemma PoolFreeExact(p: PoolState, virt: nat, size: nat)
    requires PoolExact(p) && PoolFree(p, virt, size).1.Success?
    ensures PoolExact(PoolFree(p, virt, size).0)
  {
    var i := FindByVirt(p.used, virt);
    SumSizesWithout(p.used, i);
  }

  lemma PoolDefragExact(p: PoolState)
    requires PoolExact(p)
    ensures PoolExact(PoolDefrag(p).0)
  {
    DefragShrinks(p.free, DEFRAG_CAP);
  }

  lemma {:induction false} DefragShrinks(s: seq<DmaBlock>, budget: nat)
    ensures |Defragged(s, budget)| <= |s|
    ensures budget > 0 ==> (|Defragged(s, budget)| < |s| <==> !Settled(s))
    decreases budget
  {
    SettledFixpoint(s);
    if budget > 0 && Pass(s) != s { DefragShrinks(Pass(s), budget - 1); }
  }

  /** A pool's defragmentation reports success exactly when two consecutive free blocks were contiguous. */
  lemma DefragStatusExactly(p: PoolState)
    ensures PoolDefrag(p).1.Success? <==> !Settled(p.free)
  {
    DefragShrinks(p.free, DEFRAG_CAP);
  }

  /** The cap on the passes of a pool's defragmentation is 100: it leaves two consecutive contiguous free blocks
      if and only if a run of them had more than 2^100 blocks, and otherwise fully coalesces the list. */
  lemma CapSettles(s: seq<DmaBlock>)
    ensures var t := Defragged(s, DEFRAG_CAP);
            && (Settled(t) <==> Longest(RunLengths(s)) <= Pow2(100))
            && (|s| <= Pow2(100) ==> Settled(t) && t == Coalesced(s))
            && |t| <= |s| && (|t| < |s| <==> !Settled(s))
  {
    var cap := DEFRAG_CAP;
    DefragConverges(s, cap);
    RunsFitTheList(s);
    DefragShrinks(s, cap);
  }

  /** So it is for every pool when the allocator defragments, which succeeds if and only if every pool had two
      consecutive contiguous free blocks, and touches nothing else. */
  lemma DefragmentSettles(s: AllocatorState)
    ensures var (t, status) := Defragment(s);
            && t == s.(pools := t.pools) && |t.pools| == |s.pools|
            && (forall i :: 0 <= i < |s.pools| ==> SettledFrom(s.pools[i], t.pools[i]))
            && (status.Success? <==> forall i :: 0 <= i < |s.pools| ==> !Settled(s.pools[i].free))
  {
    var (t, status) := Defragment(s);
    forall i | 0 <= i < |s.pools|
      ensures SettledFrom(s.pools[i], t.pools[i]) && (PoolDefrag(s.pools[i]).1.Success? <==> !Settled(s.pools[i].free))
    {
      CapSettles(s.pools[i].free);
    }
  }

  /** Of the pool only the free list and its counter have changed, and no contiguous neighbours are left if the
      list had at most 2^100 blocks. */
  predicate SettledFrom(p: PoolState, q: PoolState) {
    && q == p.(free := q.free, freeBlocks := p.freeBlocks - (|p.free| - |q.free|))
    && (|p.free| <= Pow2(100) ==> Settled(q.free) && q.free == Coalesced(p.free))
  }

  // ---- The ledger over whole runs -------------------------------------------------------------

  /** The sums that the allocator's counters stand for. */
  ghost predicate Balanced(a: Audited) {
    var s := a.s;
    && (forall i :: 0 <= i < |s.pools| ==> PoolExact(s.pools[i]))
    && s.usedSize == (Total(Current, s.pools) + a.drift) % WORD
    && s.currentAllocations == s.totalAllocations - s.totalFrees
    && s.currentAllocations == Total(UsedBlocks, s.pools)
    && Total(TotalBlocks, s.pools)
       == Total(UsedBlocks, s.pools) + Total(FreeListLength, s.pools) + a.merges
  }

  lemma TotalsUpdate(pools: seq<PoolState>, k: nat, p: PoolState)
    requires k < |pools|
    ensures Total(Current, pools[k := p]) == Total(Current, pools) - pools[k].current + p.current
    ensures Total(UsedBlocks, pools[k := p]) == Total(UsedBlocks, pools) - pools[k].usedBlocks + p.usedBlocks
    ensures Total(TotalBlocks, pools[k := p]) == Total(TotalBlocks, pools) - pools[k].totalBlocks + p.totalBlocks
    ensures Total(FreeListLength, pools[k := p]) == Total(FreeListLength, pools) - |pools[k].free| + |p.free|
  {
    TotalUpdate(Current, pools, k, p);
    TotalUpdate(UsedBlocks, pools, k, p);
    TotalUpdate(TotalBlocks, pools, k, p);
    TotalUpdate(FreeListLength, pools, k, p);
  }

  /** Replacing pool k keeps the balance when the allocator's counters move with the pool's: `change` bytes
      and `blocks` used blocks, of which used_size accounts for `charged` bytes. */
  lemma ReplaceBalanced(a: Audited, b: Audited, k: nat, p: PoolState, charged: int)
    requires Balanced(a) && k < |a.s.pools| && PoolExact(p) && b.s.pools == a.s.pools[k := p]
    requires b.s.usedSize == (a.s.usedSize + charged) % WORD
    requires b.drift == a.drift + charged - (p.current - a.s.pools[k].current) && b.merges == a.merges
    requires b.s.currentAllocations == a.s.currentAllocations + p.usedBlocks - a.s.pools[k].usedBlocks
    requires b.s.currentAllocations == b.s.totalAllocations - b.s.totalFrees
    requires p.totalBlocks - p.usedBlocks - |p.free|
             == a.s.pools[k].totalBlocks - a.s.pools[k].usedBlocks - |a.s.pools[k].free|
    ensures Balanced(b)
  {
    TotalsUpdate(a.s.pools, k, p);
    WrapAdd(Total(Current, a.s.pools) + a.drift, charged);
  }

  /** A served allocation: pool k holds one more block of the aligned size, which the counters include. */
  lemma AllocEffect(s: AllocatorState, op: Operation, k: nat)
    requires op.Alloc? && 0 < op.size <= DMA_MAX_ALLOC_SIZE
    requires k == FirstServing(s.pools, op.flags, op.grants, 0) < |s.pools|
    ensures var n, g, t := DmaAlignSize(op.size), GrantAt(op.grants, k), Step(s, op);
            && g.Granted? && t.pools == s.pools[k := PoolAlloc(s.pools[k], n, op.flags, g).0]
            && t.usedSize == (s.usedSize + n) % WORD && t.totalFrees == s.totalFrees
            && t.totalAllocations == s.totalAllocations + 1 && t.currentAllocations == s.currentAllocations + 1
  {}

  lemma AllocAccount(a: Audited, op: Operation)
    requires op.Alloc?
    ensures AuditedStep(a, op) == Audited(Step(a.s, op), a.drift, a.merges)
  {}

  /** A pool that takes n bytes moves by n bytes and one block. */
  lemma TakenEffect(p: PoolState, size: nat, flags: nat, g: Grant)
    requires 0 < size <= DMA_MAX_ALLOC_SIZE && g.Granted? && PoolExact(p)
    ensures var q := PoolAlloc(p, DmaAlignSize(size), flags, g).0;
            && PoolExact(q) && q.current == p.current + DmaAlignSize(size) && q.usedBlocks == p.usedBlocks + 1
            && q.totalBlocks == p.totalBlocks + 1 && q.free == p.free
  {
    AcceptedSizeFits(size);
    PoolChargesOnce(p, size, flags, g.virt, g.phys);
  }

  lemma AllocServed(a: Audited, op: Operation, k: nat)
    requires op.Alloc? && Balanced(a) && 0 < op.size <= DMA_MAX_ALLOC_SIZE
    requires k == FirstServing(a.s.pools, op.flags, op.grants, 0) < |a.s.pools|
    ensures Balanced(AuditedStep(a, op))
  {
    var n, g, p := DmaAlignSize(op.size), GrantAt(op.grants, k), a.s.pools[k];
    AllocEffect(a.s, op, k);
    AllocAccount(a, op);
    TakenEffect(p, op.size, op.flags, g);
    ReplaceBalanced(a, AuditedStep(a, op), k, PoolAlloc(p, n, op.flags, g).0, n);
  }

  /** A refused allocation counts at most an error. */
  lemma RefusedEffect(a: Audited, op: Operation)
    requires op.Alloc?
    requires !(0 < op.size <= DMA_MAX_ALLOC_SIZE) || FirstServing(a.s.pools, op.flags, op.grants, 0) == |a.s.pools|
    ensures var b := AuditedStep(a, op); b == a.(s := a.s.(errors := b.s.errors))
  {}

  lemma ErrorsKeepBalance(a: Audited, b: Audited)
    requires Balanced(a) && b == a.(s := a.s.(errors := b.s.errors))
    ensures Balanced(b)
  {}

  lemma AllocBalanced(a: Audited, op: Operation)
    requires op.Alloc? && Balanced(a)
    ensures Balanced(AuditedStep(a, op))
  {
    var k := FirstServing(a.s.pools, op.flags, op.grants, 0);
    if 0 < op.size <= DMA_MAX_ALLOC_SIZE && k < |a.s.pools| {
      AllocServed(a, op, k);
    } else {
      RefusedEffect(a, op);
      ErrorsKeepBalance(a, AuditedStep(a, op));
    }
  }

  lemma FreeBalanced(a: Audited, op: Operation)
    requires op.Free? && Balanced(a)
    ensures Balanced(AuditedStep(a, op))
  {
    var b := AuditedStep(a, op);
    if Release(a.s, op.virt, op.size).1.Success? {
      var k := FirstOwner(a.s.pools, op.virt, 0);
      PoolFreeExact(a.s.pools[k], op.virt, op.size);
      ReplaceBalanced(a, b, k, b.s.pools[k], -(op.size as int));
    }
  }

  lemma DefragTotals(pools: seq<PoolState>, after: seq<PoolState>)
    requires |after| == |pools| && forall i :: 0 <= i < |pools| ==> after[i] == PoolDefrag(pools[i]).0
    ensures Total(Current, after) == Total(Current, pools)
    ensures Total(UsedBlocks, after) == Total(UsedBlocks, pools)
    ensures Total(TotalBlocks, after) == Total(TotalBlocks, pools)
  {
    TotalSame(Current, pools, after);
    TotalSame(UsedBlocks, pools, after);
    TotalSame(TotalBlocks, pools, after);
  }

  lemma DefragBalanced(a: Audited)
    requires Balanced(a)
    ensures Balanced(AuditedStep(a, Defrag))
  {
    var b := AuditedStep(a, Defrag);
    DefragTotals(a.s.pools, b.s.pools);
    forall i | 0 <= i < |b.s.pools| ensures PoolExact(b.s.pools[i]) { PoolDefragExact(a.s.pools[i]); }
  }

  lemma CreatePoolBalanced(a: Audited, size: Word, flags: nat, backed: bool)
    requires Balanced(a)
    ensures Balanced(AuditedStep(a, CreatePool(size, flags, backed)))
  {
    TotalAppend(Current, a.s.pools, NewPool(size, flags));
    TotalAppend(UsedBlocks, a.s.pools, NewPool(size, flags));
    TotalAppend(TotalBlocks, a.s.pools, NewPool(size, flags));
    TotalAppend(FreeListLength, a.s.pools, NewPool(size, flags));
  }

  lemma StepBalanced(a: Audited, op: Operation)
    requires Balanced(a)
    ensures Balanced(AuditedStep(a, op))
  {
    match op
    case CreatePool(size, flags, backed) => CreatePoolBalanced(a, size, flags, backed);
    case Alloc(_, _, _) => AllocBalanced(a, op);
    case Free(_, _) => FreeBalanced(a, op);
    case Defrag => DefragBalanced(a);
  }

  /** The two-level ledger on every run of a freshly probed allocator: each pool's counters describe its
      lists, the allocator's counters are the sums over the pools, blocks are used, free or merged away,
      and used_size is off the true sum by exactly the drift of the frees, modulo 2^64. */
  lemma LedgerOnEveryRun(start: Audited, ops: seq<Operation>)
    requires Unstarted(start)
    ensures Balanced(Run(AuditedStep, start, ops))
  {
    forall a, op | Balanced(a) ensures Balanced(AuditedStep(a, op)) { StepBalanced(a, op); }
    AlwaysInvariant(AuditedStep, Balanced, start, ops);
  }

  /** The account does not influence the allocator. */
  lemma {:induction false} AuditOnlyWatches(a: Audited, ops: seq<Operation>)
    ensures Run(AuditedStep, a, ops).s == Run(Step, a.s, ops)
    decreases ops
  {
    if ops != [] { AuditOnlyWatches(AuditedStep(a, ops[0]), ops[1..]); }
  }

  lemma ExactWithoutDrift(a: Audited)
    requires Balanced(a)
    ensures a.s.usedSize == Total(UsedBytes, a.s.pools) % WORD <==> a.drift % WORD == 0
  {
    CurrentIsUsedBytes(a.s.pools);
    ModMoves(Total(Current, a.s.pools), a.drift, WORD);
  }

  /** used_size is exact at the end of a run if and only if the drift of its frees is a multiple of 2^64. */
  lemma UsedSizeExactly(start: Audited, ops: seq<Operation>)
    requires Unstarted(start)
    ensures var a := Run(AuditedStep, start, ops);
            a.s.usedSize == Total(UsedBytes, a.s.pools) % WORD <==> a.drift % WORD == 0
  {
    LedgerOnEveryRun(start, ops);
    ExactWithoutDrift(Run(AuditedStep, start, ops));
  }

  /** The operation, if it frees a block, passes the size of that block. */
  predicate FreesBlockSize(a: Audited, op: Operation) {
    DriftOf(a.s, op) == 0
  }

  /** A run that frees with the aligned sizes keeps used_size equal to the bytes on all used lists. */
  lemma AlignedFreesKeepTheLedger(start: Audited, ops: seq<Operation>)
    requires Unstarted(start) && Admitted(AuditedStep, FreesBlockSize, start, ops)
    ensures var s := Run(AuditedStep, start, ops).s;
            s.usedSize == Total(UsedBytes, s.pools) % WORD
  {
    Invariant(AuditedStep, FreesBlockSize, NoDrift, start, ops);
    UsedSizeExactly(start, ops);
  }

  predicate NoDrift(a: Audited) {
    a.drift == 0
  }

  function UsedBytes(p: PoolState): int { SumSizes(p.used) }

  lemma {:induction false} CurrentIsUsedBytes(pools: seq<PoolState>)
    requires forall i :: 0 <= i < |pools| ==> PoolExact(pools[i])
    ensures Total(Current, pools) == Total(UsedBytes, pools)
  {
    if pools != [] { CurrentIsUsedBytes(pools[1..]); }
  }
}
