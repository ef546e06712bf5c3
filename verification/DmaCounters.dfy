/** The other counters of the DMA allocator over whole runs: the total size, the peak, and what default pools
    ever serve. */
module DmaCounters {
  import opened MachineWords
  import opened Alignment
  import opened DmaMerge
  import opened DmaLedger
  import opened Lists
  import opened Runs

  // ---- The sizes of the pools -----------------------------------------------------------------

  function PoolSize(p: PoolState): int { p.size }

  ghost predicate SizesCounted(s: AllocatorState) {
    s.totalSize == Total(PoolSize, s.pools) % WORD
  }

  lemma StepCountsSizes(s: AllocatorState, op: Operation)
    requires SizesCounted(s)
    ensures SizesCounted(Step(s, op))
  {
    var t := Step(s, op);
    match op
    case CreatePool(size, flags, backed) =>
      TotalAppend(PoolSize, s.pools, NewPool(size, flags));
      WrapAdd(Total(PoolSize, s.pools), size);
    case Alloc(_, _, _) => TotalSame(PoolSize, s.pools, t.pools);
    case Free(_, _) => TotalSame(PoolSize, s.pools, t.pools);
    case Defrag => TotalSame(PoolSize, s.pools, t.pools);
  }

  /** On every run total_size is the sum of the pools' sizes, modulo 2^64. */
  lemma TotalSizeOnEveryRun(start: AllocatorState, ops: seq<Operation>)
    requires Fresh(start)
    ensures SizesCounted(Run(Step, start, ops))
  {
    forall s, op | SizesCounted(s) ensures SizesCounted(Step(s, op)) { StepCountsSizes(s, op); }
    AlwaysInvariant(Step, SizesCounted, start, ops);
  }

  // ---- The peak over whole runs ---------------------------------------------------------------

  /** The step with an account of the largest used_size. */
  function ObservedStep(o: Observed<AllocatorState>, op: Operation): Observed<AllocatorState> {
    Observe(o, Step(o.s, op), Step(o.s, op).usedSize)
  }

  /** A free that succeeds does not take off more than is on the ledger. */
  predicate Covered(o: Observed<AllocatorState>, op: Operation) {
    op.Free? && Release(o.s, op.virt, op.size).1.Success? ==> op.size <= o.s.usedSize
  }

  predicate PeakSeen(o: Observed<AllocatorState>) {
    o.s.usedSize <= o.s.peakSize == o.largest && o.s.usedSize < WORD
  }

  /** A free keeps the recorded peak the largest used_size if and only if the size passed was on the ledger or
      the wrapped difference stays at or below the peak. */
  lemma FreeKeepsPeakExactly(o: Observed<AllocatorState>, virt: nat, size: Word)
    requires PeakSeen(o) && Release(o.s, virt, size).1.Success?
    ensures PeakSeen(ObservedStep(o, Free(virt, size)))
            <==> size <= o.s.usedSize || WORD + o.s.usedSize - size <= o.s.peakSize
  {
    WrapDown(o.s.usedSize, size);
  }

  /** An allocation of one pool, freed with one byte more than was charged: used_size wraps past the peak. */
  lemma PeakMissesWrap(start: AllocatorState, n: Word, virt: Pointer)
    requires Fresh(start) && 0 < n <= DMA_MAX_ALLOC_SIZE && DmaAlignSize(n) == n
    ensures var ops := [CreatePool(n, 1, true), Alloc(n, 1, [Granted(0, virt)]), Free(virt, n + 1)];
            var s := Run(Step, start, ops);
            s.usedSize == WORD - 1 && s.peakSize == n
  {
    var grants := [Granted(0, virt)];
    var s := Create(start, n, 1, true);
    assert And(1, 1) == 1;
    assert FirstServing(s.pools, 1, grants, 0) == 0;
    var t := Allocate(s, n, 1, grants).0;
    assert t.pools[0].used == [DmaBlock(0, virt, n, Or(1, DMA_FLAG_ALLOCATED))];
    assert FindByVirt(t.pools[0].used, virt) == 0;
    assert FirstOwner(t.pools, virt, 0) == 0;
    WrapDown(n, n + 1);
    var u := Release(t, virt, n + 1).0;
    assert u.usedSize == WORD - 1 && u.peakSize == n;
    RunOfThree(Step, start, CreatePool(n, 1, true), Alloc(n, 1, grants), Free(virt, n + 1));
  }

  /** peak_size is the largest used_size of the run, on every run whose frees are covered. */
  lemma PeakIsLargest(start: Observed<AllocatorState>, ops: seq<Operation>)
    requires Fresh(start.s) && start.largest == 0 && Admitted(ObservedStep, Covered, start, ops)
    ensures var o := Run(ObservedStep, start, ops);
            o.s.usedSize <= o.s.peakSize == o.largest
  {
    forall o, op | PeakSeen(o) && Covered(o, op) ensures PeakSeen(ObservedStep(o, op)) {
      if op.Free? && Release(o.s, op.virt, op.size).1.Success? { FreeKeepsPeakExactly(o, op.virt, op.size); }
    }
    Invariant(ObservedStep, Covered, PeakSeen, start, ops);
  }

  // ---- The peaks of the pools -----------------------------------------------------------------

  /** The allocator with an account of the most bytes that each pool has had in use. */
  datatype Peaked = Peaked(s: AllocatorState, highest: seq<int>)

  function Raised(highest: seq<int>, pools: seq<PoolState>): (r: seq<int>)
    ensures |r| == |pools|
    ensures forall i :: 0 <= i < |r| ==> r[i] == Max(if i < |highest| then highest[i] else 0, SumSizes(pools[i].used))
  {
    seq(|pools|, i requires 0 <= i < |pools| => Max(if i < |highest| then highest[i] else 0, SumSizes(pools[i].used)))
  }

  function PeakedStep(t: Peaked, op: Operation): Peaked {
    Peaked(Step(t.s, op), Raised(t.highest, Step(t.s, op).pools))
  }

  ghost predicate PeaksSeen(t: Peaked) {
    && |t.highest| == |t.s.pools|
    && forall i :: 0 <= i < |t.highest| ==>
         PoolExact(t.s.pools[i]) && t.s.pools[i].peak == t.highest[i] >= t.s.pools[i].current
  }

  /** What an operation does to the pool at position i. */
  predicate Moves(p: PoolState, q: PoolState) {
    q.current == SumSizes(q.used) && q.peak == Max(p.peak, q.current)
  }

  lemma AllocMoves(s: AllocatorState, op: Operation, i: nat)
    requires op.Alloc? && i < |s.pools| && PoolExact(s.pools[i])
    ensures |Step(s, op).pools| == |s.pools| && Moves(s.pools[i], Step(s, op).pools[i])
    ensures PoolExact(Step(s, op).pools[i])
  {
    var k := FirstServing(s.pools, op.flags, op.grants, 0);
    if 0 < op.size <= DMA_MAX_ALLOC_SIZE && k < |s.pools| {
      AllocEffect(s, op, k);
      if i == k { TakenEffect(s.pools[k], op.size, op.flags, GrantAt(op.grants, k)); }
    }
  }

  lemma FreeMoves(s: AllocatorState, op: Operation, i: nat)
    requires op.Free? && i < |s.pools| && PoolExact(s.pools[i])
    ensures |Step(s, op).pools| == |s.pools| && Moves(s.pools[i], Step(s, op).pools[i])
    ensures PoolExact(Step(s, op).pools[i])
  {
    var k := FirstOwner(s.pools, op.virt, 0);
    if op.virt != 0 && op.size != 0 && k == i { PoolFreeExact(s.pools[k], op.virt, op.size); }
  }

  lemma StepPeaks(t: Peaked, op: Operation)
    requires PeaksSeen(t)
    ensures PeaksSeen(PeakedStep(t, op))
  {
    var pools, after := t.s.pools, Step(t.s, op).pools;
    forall i | 0 <= i < |pools|
      ensures |after| >= |pools| && PoolExact(after[i]) && Moves(pools[i], after[i])
    {
      match op
      case CreatePool(_, _, _) =>
      case Alloc(_, _, _) => AllocMoves(t.s, op, i);
      case Free(_, _) => FreeMoves(t.s, op, i);
      case Defrag => PoolDefragExact(pools[i]);
    }
  }

  /** On every run the peak of each pool is the largest number of bytes it has ever had on its used list. */
  lemma PoolPeaksOnEveryRun(start: Peaked, ops: seq<Operation>)
    requires Fresh(start.s) && start.highest == []
    ensures var t := Run(PeakedStep, start, ops);
            |t.highest| == |t.s.pools| && forall i :: 0 <= i < |t.highest| ==> t.s.pools[i].peak == t.highest[i]
  {
    forall t, op | PeaksSeen(t) ensures PeaksSeen(PeakedStep(t, op)) { StepPeaks(t, op); }
    AlwaysInvariant(PeakedStep, PeaksSeen, start, ops);
  }

  // ---- Who can be served ----------------------------------------------------------------------

  lemma ServedOnlyByFlags(s: AllocatorState, size: nat, flags: nat, grants: seq<Grant>)
    requires forall i :: 0 <= i < |s.pools| ==> s.pools[i].flags == 0
    ensures Allocate(s, size, flags, grants).1 == 0
    ensures Allocate(s, size, flags, grants).0.pools == s.pools
    ensures Allocate(s, size, flags, grants).0.totalAllocations == s.totalAllocations
  {}

  /** The operation creates pools only as probing does without a device-tree region: with no flags. */
  predicate DefaultPoolsOnly(s: AllocatorState, op: Operation) {
    op.CreatePool? ==> op.flags == 0
  }

  ghost predicate NeverServed(s: AllocatorState) {
    s.totalAllocations == 0 && forall i :: 0 <= i < |s.pools| ==> s.pools[i].flags == 0
  }

  lemma NeverServedStep(s: AllocatorState, op: Operation)
    requires NeverServed(s) && DefaultPoolsOnly(s, op)
    ensures NeverServed(Step(s, op))
  {
    match op
    case Alloc(size, flags, grants) => ServedOnlyByFlags(s, size, flags, grants);
    case Free(_, _) =>
    case CreatePool(_, _, _) =>
    case Defrag =>
  }

  /** A pool is tried only when it shares a flag with the request, so an allocator that has nothing but
      default pools never serves any allocation, whatever is asked for and whatever memory is free. */
  lemma DefaultPoolServesNothing(start: AllocatorState, ops: seq<Operation>)
    requires Fresh(start) && Admitted(Step, DefaultPoolsOnly, start, ops)
    ensures Run(Step, start, ops).totalAllocations == 0
  {
    forall s, op | NeverServed(s) && DefaultPoolsOnly(s, op) ensures NeverServed(Step(s, op)) {
      NeverServedStep(s, op);
    }
    Invariant(Step, DefaultPoolsOnly, NeverServed, start, ops);
  }
}
