/** Shrinking a pool: exactly when the pool's capacity survives it, and runs in which it does not. */
module PoolShrink {
  import opened MachineWords
  import opened Intervals
  import opened Lists
  import opened Runs
  import opened PoolLedger
  import opened PoolAudit
  import opened PoolCapacity

  function Shrinking(a: Audited, k: nat, target: Word, wraps: bool): Audited
    requires k < |a.s.pools|
  {
    AuditedStep(a, ShrinkPool(a.s.pools[k].id, target, wraps))
  }

  lemma ShrinkingEffect(a: Audited, k: nat, target: Word, wraps: bool)
    requires Exact(a) && k < |a.s.pools| && a.s.pools[k].used <= target
    ensures var b := Shrinking(a, k, target, wraps);
            && Exact(b) && b.live == a.live && b.s.pools == a.s.pools[k := Shrunk(a.s.pools[k], target, wraps).0]
            && b.s.pools[k].id == a.s.pools[k].id && b.s.pools[k].total == target
  {
    assert FindId(a.s.pools, a.s.pools[k].id) == k;
    assert PoolExact(a.s.pools[k], a.live);
    StepExact(a, ShrinkPool(a.s.pools[k].id, target, wraps));
  }

  /** A shrink keeps the capacity of the pool for every use to come if and only if what the pool can still grant,
      together with its outstanding blocks, fits the target. */
  lemma ShrinkExactly(a: Audited, k: nat, target: Word, wraps: bool)
    requires Exact(a) && k < |a.s.pools| && a.s.pools[k].used <= target
    ensures AlwaysFits(Shrinking(a, k, target, wraps), a.s.pools[k].id)
            <==> |Reach(Shrunk(a.s.pools[k], target, wraps).0, a.live)| <= target
  {
    ShrinkingEffect(a, k, target, wraps);
    CapacityExactly(Shrinking(a, k, target, wraps), k);
  }

  /** No outstanding block of the pool reaches past the target. */
  predicate BlocksBelow(p: PoolState, live: seq<Block>, target: nat) {
    forall i :: 0 <= i < |live| && live[i].owner == p.id ==> live[i].ptr + live[i].size <= p.start + target
  }

  /** Blocks below the cut add nothing to what lies below it. */
  lemma ReachBelow(live: seq<Block>, w: Whose, lo: nat, hi: nat)
    requires lo <= hi && forall i :: 0 <= i < |live| && Belongs(live[i], w) ==>
               lo <= live[i].ptr && live[i].ptr + live[i].size <= hi
    ensures |Interval(lo, hi) + AddressesOf(live, w)| == hi - lo
  {
    forall x | x in AddressesOf(live, w) ensures x in Interval(lo, hi) { BlocksHold(live, w, x); }
    assert Interval(lo, hi) + AddressesOf(live, w) == Interval(lo, hi);
    IntervalSize(lo, hi);
  }

  /** A block that reaches past the cut adds an address. */
  lemma ReachPast(live: seq<Block>, w: Whose, i: nat, lo: nat, hi: nat)
    requires lo <= hi && i < |live| && Belongs(live[i], w) && live[i].size > 0 && live[i].ptr + live[i].size > hi
    ensures |Interval(lo, hi) + AddressesOf(live, w)| > hi - lo
  {
    var below, last := Interval(lo, hi), live[i].ptr + live[i].size - 1;
    assert InBlock(live[i], last);
    BlocksHold(live, w, last);
    IntervalSize(lo, hi);
    DisjointSize(below, {last});
    SubsetSize(below + {last}, below + AddressesOf(live, w));
  }

  /** The blocks between lo and hi fit there if and only if none reaches past hi. */
  lemma FitExactly(live: seq<Block>, w: Whose, lo: nat, hi: nat)
    requires lo <= hi
    requires forall i :: 0 <= i < |live| && Belongs(live[i], w) ==> lo <= live[i].ptr && live[i].size > 0
    ensures |Interval(lo, hi) + AddressesOf(live, w)| <= hi - lo
            <==> forall i :: 0 <= i < |live| && Belongs(live[i], w) ==> live[i].ptr + live[i].size <= hi
  {
    if i :| 0 <= i < |live| && Belongs(live[i], w) && live[i].ptr + live[i].size > hi {
      ReachPast(live, w, i, lo, hi);
    } else {
      ReachBelow(live, w, lo, hi);
    }
  }

  /** The reach of a pool after its first shrink. */
  lemma FirstReach(p: PoolState, live: seq<Block>, target: Word, wraps: bool)
    requires 0 < p.start && p.top == p.end && p.size == p.end - p.start && p.used <= target < p.size
    requires forall i :: 0 <= i < |live| && live[i].owner == p.id ==> p.start <= live[i].ptr && live[i].size > 0
    ensures |Reach(Shrunk(p, target, wraps).0, live)| <= target <==> BlocksBelow(p, live, target)
  {
    var q := Shrunk(p, target, wraps).0;
    FitExactly(live, Pool(q.id), Max(1, q.start), q.top);
  }

  lemma BlocksStart(a: Audited, k: nat)
    requires Exact(a) && k < |a.s.pools|
    ensures forall i :: 0 <= i < |a.live| && a.live[i].owner == a.s.pools[k].id ==>
              a.s.pools[k].start <= a.live[i].ptr && a.live[i].size > 0
  {
    forall i | 0 <= i < |a.live| && a.live[i].owner == a.s.pools[k].id
      ensures a.s.pools[k].start <= a.live[i].ptr && a.live[i].size > 0
    {
      assert Owned(a.s.pools, a.live[i]);
    }
  }

  /** The condition in a caller's terms, for a pool that has not been shrunk before: the shrink is safe if and
      only if no outstanding block of the pool reaches past start + target. That as many bytes are in use as
      remain, which is all that the code checks, does not make it safe. */
  lemma FirstShrinkExactly(a: Audited, k: nat, target: Word, wraps: bool)
    requires Exact(a) && k < |a.s.pools| && a.s.pools[k].used <= target < a.s.pools[k].size
    requires var p := a.s.pools[k]; 0 < p.start && p.top == p.end && p.size == p.end - p.start
    ensures AlwaysFits(Shrinking(a, k, target, wraps), a.s.pools[k].id)
            <==> BlocksBelow(a.s.pools[k], a.live, target)
  {
    ShrinkExactly(a, k, target, wraps);
    BlocksStart(a, k);
    FirstReach(a.s.pools[k], a.live, target, wraps);
  }

  /** A pool that has been shrunk once never survives a second shrink: the range that is taken from the page
      source is counted from the old end of the pool, where the first shrink has already taken it. */
  lemma SecondShrinkNeverFits(a: Audited, k: nat, target: Word, wraps: bool)
    requires Exact(a) && k < |a.s.pools| && a.s.pools[k].used <= target < a.s.pools[k].size
    requires var p := a.s.pools[k]; 0 < p.start && p.top == p.start + p.size < p.end
    ensures !AlwaysFits(Shrinking(a, k, target, wraps), a.s.pools[k].id)
  {
    var p, q := a.s.pools[k], Shrunk(a.s.pools[k], target, wraps).0;
    ShrinkExactly(a, k, target, wraps);
    assert q.top > p.start + target && q.start == p.start;
    IntervalSize(p.start, q.top);
    SubsetSize(Interval(p.start, q.top), Reach(q, a.live));
  }

  /** A page source with less memory left reaches no further. */
  lemma LessReach(p: PoolState, q: PoolState, live: seq<Block>)
    requires q.id == p.id && q.start == p.start && q.top <= p.top
    ensures |Reach(q, live)| <= |Reach(p, live)|
  {
    SubsetSize(Reach(q, live), Reach(p, live));
  }

  /** A target at or above the size keeps the capacity, whether or not the range that is removed wraps. */
  lemma GrowingKeeps(a: Audited, k: nat, target: Word, wraps: bool)
    requires Exact(a) && k < |a.s.pools| && Roomy(a.s.pools[k], a.live) && a.s.pools[k].size <= target
    ensures AlwaysFits(Shrinking(a, k, target, wraps), a.s.pools[k].id)
  {
    assert PoolExact(a.s.pools[k], a.live);
    RoomyFits(a.s.pools[k], a.live);
    ShrinkExactly(a, k, target, wraps);
    LessReach(a.s.pools[k], Shrunk(a.s.pools[k], target, wraps).0, a.live);
  }

  /** What a shrink leaves to the page source: the addresses it could grant before, without the range of
      size - target bytes that ends where the pool ends. A range that wraps takes everything or nothing. */
  lemma ShrinkRemovesRange(p: PoolState, target: Word, wraps: bool, x: int)
    requires p.start <= p.top <= p.end && p.used <= target
    ensures var top := Shrunk(p, target, wraps).0.top;
            p.start <= x < top <==>
              && p.start <= x < p.top
              && if target <= p.size then !(p.end - (p.size - target) <= x < p.end) else !wraps
  {}

  // ---- A run that overflows -------------------------------------------------------------------

  /** A pool of two halves: its upper half is allocated, the pool is shrunk to one half, which is accepted, and
      then the lower half is allocated. */
  function Overflowing(base: Word, half: Word): seq<Operation> {
    [CreatePool(true, 0, base, 2 * half, true), Alloc(half, 0, [base + half]), ShrinkPool(1, half, false),
     Alloc(half, 0, [base])]
  }

  /** What becomes of the pool in that run. */
  lemma OverflowingPool(base: Word, half: Word)
    requires 0 < half && base + 2 * half < WORD
    ensures var p := NewPool(1, 0, base, 2 * half);
            var q, status := Shrunk(Charge(p, half, half), half, false).0, Shrunk(Charge(p, half, half), half, false).1;
            var r := Charge(q, half, half);
            && p.top == base + 2 * half && status.Success? && q.top == base + half
            && q.start == base && q.total == half && q.kind == 0 && q.id == 1
            && r.used == 2 * half && r.total == half && r.free == WORD - half
  {
    WrapSmall(base + 2 * half);
    WrapSmall(half);
    WrapSmall(2 * half);
    WrapDown(0, half);
  }

  lemma OneCreated(a: Audited, base: Word, size: nat)
    requires Fresh(a.s) && a.live == [] && base + size < WORD && POOL_MIN_SIZE <= size <= POOL_MAX_SIZE
    ensures var op := CreatePool(true, 0, base, size, true);
            var b := AuditedStep(a, op);
            Honest(a, op) && b.s.pools == [NewPool(1, 0, base, size)] && b.live == []
  {}

  /** An allocation from the only pool. */
  lemma OneServes(a: Audited, size: Word, x: nat)
    requires |a.s.pools| == 1 && a.s.pools[0].kind == 0 && size > 0 && x > 0
    ensures var b := AuditedStep(a, Alloc(size, 0, [x]));
            && b.s.pools == [Charge(a.s.pools[0], size, size)]
            && b.live == a.live + [Block(x, a.s.pools[0].id, size)]
    ensures Grantable(a.s.pools[0], a.live, x, size) ==> Honest(a, Alloc(size, 0, [x]))
  {
    var op := Alloc(size, 0, [x]);
    assert FirstServing(a.s.pools, op.kind, op.grants, 0) == 0;
    AllocEffect(a, op, 0);
  }

  lemma OneShrinks(a: Audited, target: Word, wraps: bool)
    requires |a.s.pools| == 1 && a.s.pools[0].id == 1
    ensures var b := AuditedStep(a, ShrinkPool(1, target, wraps));
            b.s.pools == [Shrunk(a.s.pools[0], target, wraps).0] && b.live == a.live
  {
    assert FindId(a.s.pools, 1) == 0;
  }

  /** The first two operations of the run. */
  lemma OverflowStart(start: Audited, base: Word, half: Word)
    requires Fresh(start.s) && start.live == []
    requires 0 < base && base + 2 * half < WORD && POOL_MIN_SIZE <= half && 2 * half <= POOL_MAX_SIZE
    ensures var ops := Overflowing(base, half);
            var b := AuditedStep(start, ops[0]);
            var c := AuditedStep(b, ops[1]);
            && Honest(start, ops[0]) && Honest(b, ops[1])
            && c.s.pools == [Charge(NewPool(1, 0, base, 2 * half), half, half)]
            && c.live == [Block(base + half, 1, half)]
  {
    OverflowingPool(base, half);
    OneCreated(start, base, 2 * half);
    OneServes(AuditedStep(start, Overflowing(base, half)[0]), half, base + half);
  }

  /** The last two. */
  lemma OverflowEnd(c: Audited, base: Word, half: Word)
    requires 0 < base && 0 < half && base + 2 * half < WORD
    requires c.s.pools == [Charge(NewPool(1, 0, base, 2 * half), half, half)]
    requires c.live == [Block(base + half, 1, half)]
    ensures var ops := Overflowing(base, half);
            var d := AuditedStep(c, ops[2]);
            var e := AuditedStep(d, ops[3]);
            && Honest(c, ops[2]) && Honest(d, ops[3]) && |e.s.pools| == 1
            && e.s.pools[0].used == 2 * half && e.s.pools[0].total == half && e.s.pools[0].free == WORD - half
  {
    OverflowingPool(base, half);
    OneShrinks(c, half, false);
    OneServes(AuditedStep(c, Overflowing(base, half)[2]), half, base);
  }

  /** Every operation of that run is honest, and it ends with twice the pool's total in use and a free size that
      has wrapped; with half = 4 MB the pool of 4 MB counts 8 MB used and 2^64 - 4 MB free. */
  lemma ShrinkOverflows(start: Audited, base: Word, half: Word)
    requires Fresh(start.s) && start.live == []
    requires 0 < base && base + 2 * half < WORD && POOL_MIN_SIZE <= half && 2 * half <= POOL_MAX_SIZE
    ensures Admitted(AuditedStep, Honest, start, Overflowing(base, half))
    ensures var a := Run(AuditedStep, start, Overflowing(base, half));
            && |a.s.pools| == 1
            && a.s.pools[0].used == 2 * half && a.s.pools[0].total == half && a.s.pools[0].free == WORD - half
  {
    var ops := Overflowing(base, half);
    OverflowStart(start, base, half);
    OverflowEnd(AuditedStep(AuditedStep(start, ops[0]), ops[1]), base, half);
    RunOfFour(AuditedStep, Honest, start, ops[0], ops[1], ops[2], ops[3]);
  }
}
