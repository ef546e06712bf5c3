/** What the operations of the pool manager do to its pools and counters, and what they conserve over whole
    runs. The classes in PoolManager refine these functions. */
module PoolLedger {
  import opened MachineWords
  import opened Alignment
  import opened Lists
  import opened Runs

  const POOL_MAX_COUNT: nat := 64
  const POOL_MIN_SIZE: nat := 4 * 1024 * 1024
  const POOL_MAX_SIZE: nat := 512 * 1024 * 1024
  const POOL_ALIGNMENT: Word := 4096
  const PAGE_SIZE: nat := 4096  // the unit that pool_create sets up its page source with

  datatype Error = Invalid | NoMemory | NotFound | Busy

  datatype Status = Success | Failure(error: Error)

  /** struct memory_pool with its statistics; byte counters are 64-bit words. `listed` is the length of its list
      of used blocks. The last two fields are what its page source (gen_pool) knows: the memory it may still
      grant lies between start and top, and held counts the pages it has granted and not got back. */
  datatype PoolState = PoolState(
    id: nat, kind: nat, start: nat, end: nat, size: nat,
    total: nat, used: nat, free: nat, peak: nat, totalAllocated: nat, totalFreed: nat,
    allocations: nat, frees: nat, active: int, errors: nat, listed: nat, top: nat, held: int)

  datatype ManagerState = ManagerState(
    pools: seq<PoolState>, nextId: nat, usedSize: nat, peakSize: nat,
    totalAllocations: nat, totalFrees: nat, active: int)

  // ---- One pool -------------------------------------------------------------------------------

  function NewPool(id: nat, kind: nat, start: nat, size: nat): PoolState {
    var end := (start + size) % WORD;
    PoolState(id, kind, start, end, size, size, 0, size, 0, 0, 0, 0, 0, 0, 0, 0, end, 0)
  }

  /** The pages that a page source grants for a size, or takes back for it. */
  function Pages(size: nat): nat {
    (size + PAGE_SIZE - 1) / PAGE_SIZE
  }

  /** The alignment in effect. */
  function Effective(align: Word): Word {
    if align < POOL_ALIGNMENT then POOL_ALIGNMENT else align
  }

  /** The size that pool_alloc_aligned asks the page source for. */
  function AlignedRequest(size: Word, align: Word): nat {
    AlignUp(size, Effective(align))
  }

  /** The statistics of pool_alloc and of the aligned wrapper: both charge the size of the request, whatever was
      asked of the page source. */
  function Charge(p: PoolState, size: nat, asked: nat): PoolState {
    var u := (p.used + size) % WORD;
    p.(used := u, free := (p.free - size) % WORD, totalAllocated := (p.totalAllocated + size) % WORD,
       allocations := p.allocations + 1, active := p.active + 1, peak := if u > p.peak then u else p.peak,
       held := p.held + Pages(asked))
  }

  /** pool_free: the statistics, and the size that is given back to the page source. */
  function Credit(p: PoolState, size: nat): PoolState {
    p.(used := (p.used - size) % WORD, free := (p.free + size) % WORD, totalFreed := (p.totalFreed + size) % WORD,
       frees := p.frees + 1, active := p.active - 1, held := p.held - Pages(size))
  }

  /** What is left of the page source's memory when pool_shrink has removed from it the range of size - target
      bytes below the end of the pool. The end does not move when a pool is shrunk, so it is the same end for
      every shrink. For a target above the size the length wraps: the range starts behind the pool and runs past
      the end of the address space to the end of the pool. `wraps` says whether the source takes such a range
      for what it comes to modulo 2^64, which is the whole pool, or for nothing that it has. */
  function TopAfter(p: PoolState, target: Word, wraps: bool): (top: nat)
    ensures top <= Max(p.top, p.start)
  {
    if target > p.size then (if wraps then p.start else p.top)
    else
      var cut := p.end - (p.size - target);
      if cut >= p.top then p.top else Max(p.start, cut)
  }

  /** pool_shrink: refused below the used size, and only then. */
  function Shrunk(p: PoolState, target: Word, wraps: bool): (PoolState, Status) {
    if p.used > target then (p, Failure(Busy))
    else if p.size == target then (p, Success)
    else (p.(size := target, total := target, free := target - p.used, top := TopAfter(p, target, wraps)),
          Success)
  }

  predicate Covers(p: PoolState, addr: nat) {
    p.start <= addr < p.end
  }

  // ---- The manager ----------------------------------------------------------------------------

  /** The address the page source of pool i answers with; 0 refuses. */
  function GrantAt(grants: seq<nat>, i: nat): nat {
    if i < |grants| then grants[i] else 0
  }

  predicate Serves(p: PoolState, kind: nat, grant: nat) {
    p.kind == kind && grant != 0
  }

  /** The first pool that serves the request, or |pools|. */
  function FirstServing(pools: seq<PoolState>, kind: nat, grants: seq<nat>, i: nat): (k: nat)
    requires i <= |pools|
    ensures i <= k <= |pools|
    ensures k < |pools| ==> Serves(pools[k], kind, GrantAt(grants, k))
    ensures forall j :: i <= j < k ==> !Serves(pools[j], kind, GrantAt(grants, j))
    decreases |pools| - i
  {
    if i == |pools| || Serves(pools[i], kind, GrantAt(grants, i)) then i
    else FirstServing(pools, kind, grants, i + 1)
  }

  /** The pools of this kind among the first k have refused the request and count an error. */
  function MarkRefused(pools: seq<PoolState>, kind: nat, k: nat): (r: seq<PoolState>)
    requires k <= |pools|
    ensures |r| == |pools|
    ensures forall j :: 0 <= j < |r| ==>
              r[j] == if j < k && pools[j].kind == kind then pools[j].(errors := pools[j].errors + 1) else pools[j]
  {
    if k == 0 then pools
    else
      var p := pools[k - 1];
      MarkRefused(pools, kind, k - 1)[k - 1 := if p.kind == kind then p.(errors := p.errors + 1) else p]
  }

  /** The walk over the pools: refusals of the first k pools, then the pool that serves, if one does. */
  function AllocateIn(pools: seq<PoolState>, size: nat, asked: nat, kind: nat, grants: seq<nat>)
    : (seq<PoolState>, nat)
  {
    var k := FirstServing(pools, kind, grants, 0);
    var marked := MarkRefused(pools, kind, k);
    if k == |pools| then (marked, 0) else (marked[k := Charge(marked[k], size, asked)], GrantAt(grants, k))
  }

  /** The manager's counters after an allocation. */
  function Counted(s: ManagerState, size: nat): ManagerState {
    var u := (s.usedSize + size) % WORD;
    s.(usedSize := u, peakSize := if u > s.peakSize then u else s.peakSize,
       totalAllocations := s.totalAllocations + 1, active := s.active + 1)
  }

  /** pool_manager_alloc, and pool_manager_alloc_aligned with the aligned size asked of the page source. */
  function Allocate(s: ManagerState, size: nat, asked: nat, kind: nat, grants: seq<nat>): (ManagerState, nat) {
    if size == 0 then (s, 0)
    else
      var (pools, ptr) := AllocateIn(s.pools, size, asked, kind, grants);
      (if ptr == 0 then s.(pools := pools) else Counted(s, size).(pools := pools), ptr)
  }

  /** The first pool whose address range holds the address, or |pools|. */
  function FirstCovering(pools: seq<PoolState>, addr: nat): (k: nat)
    ensures k <= |pools|
    ensures k < |pools| ==> Covers(pools[k], addr)
    ensures forall j :: 0 <= j < k ==> !Covers(pools[j], addr)
  {
    IndexWhere(pools, (p: PoolState) => Covers(p, addr))
  }

  /** pool_manager_free: the pool is chosen by the address range alone. */
  function Release(s: ManagerState, ptr: nat, size: nat): (ManagerState, Status) {
    if ptr == 0 || size == 0 then (s, Failure(Invalid))
    else
      var k := FirstCovering(s.pools, ptr);
      if k == |s.pools| then (s, Failure(NotFound))
      else
        (s.(pools := s.pools[k := Credit(s.pools[k], size)], usedSize := (s.usedSize - size) % WORD,
            totalFrees := s.totalFrees + 1, active := s.active - 1),
         Success)
  }

  /** pool_manager_get_pool: the first pool with this id, or |pools|. */
  function FindId(pools: seq<PoolState>, id: nat): (k: nat)
    ensures k <= |pools|
    ensures k < |pools| ==> pools[k].id == id
    ensures forall j :: 0 <= j < k ==> pools[j].id != id
  {
    IndexWhere(pools, (p: PoolState) => p.id == id)
  }

  /** pool_manager_create_pool; `backed` says whether the descriptor and the page source could be set up.
      An id is used up as soon as the descriptor exists. */
  function Create(s: ManagerState, hasName: bool, kind: nat, start: Word, size: nat, backed: bool)
    : (ManagerState, Status)
  {
    if !hasName || size == 0 then (s, Failure(Invalid))
    else if |s.pools| >= POOL_MAX_COUNT || size < POOL_MIN_SIZE || size > POOL_MAX_SIZE then (s, Failure(NoMemory))
    else if !backed then (s.(nextId := s.nextId + 1), Failure(NoMemory))
    else (s.(pools := s.pools + [NewPool(s.nextId, kind, start, size)], nextId := s.nextId + 1), Success)
  }

  /** pool_manager_destroy_pool: refused when the pool's list of used blocks is not empty. */
  function Destroy(s: ManagerState, id: nat): (ManagerState, Status) {
    var k := FindId(s.pools, id);
    if k == |s.pools| then (s, Failure(NotFound))
    else if s.pools[k].listed != 0 then (s, Failure(Busy))
    else (s.(pools := Without(s.pools, k)), Success)
  }

  function Shrink(s: ManagerState, id: nat, target: Word, wraps: bool): (ManagerState, Status) {
    var k := FindId(s.pools, id);
    if k == |s.pools| then (s, Failure(NotFound))
    else
      var (p, status) := Shrunk(s.pools[k], target, wraps);
      (s.(pools := s.pools[k := p]), status)
  }

  datatype Operation =
    | CreatePool(hasName: bool, kind: nat, start: Word, poolSize: nat, backed: bool)
    | DestroyPool(id: nat)
    | ShrinkPool(id: nat, target: Word, wraps: bool)
    | Alloc(size: Word, kind: nat, grants: seq<nat>)
    | AllocAligned(size: Word, align: Word, kind: nat, grants: seq<nat>)
    | Free(ptr: nat, size: Word)

  predicate Allocates(op: Operation) {
    op.Alloc? || op.AllocAligned?
  }

  /** The bytes an allocation asks of the page source. */
  function Asked(op: Operation): nat
    requires Allocates(op)
  {
    if op.AllocAligned? then AlignedRequest(op.size, op.align) else op.size
  }

  function Step(s: ManagerState, op: Operation): ManagerState {
    match op
    case CreatePool(hasName, kind, start, poolSize, backed) => Create(s, hasName, kind, start, poolSize, backed).0
    case DestroyPool(id) => Destroy(s, id).0
    case ShrinkPool(id, target, wraps) => Shrink(s, id, target, wraps).0
    case Alloc(size, kind, grants) => Allocate(s, size, Asked(op), kind, grants).0
    case AllocAligned(size, _, kind, grants) => Allocate(s, size, Asked(op), kind, grants).0
    case Free(ptr, size) => Release(s, ptr, size).0
  }

  /** The manager as module initialization allocates it. */
  predicate Fresh(s: ManagerState) {
    s.pools == [] && s.nextId == 1 && s.usedSize == 0 && s.totalAllocations == 0 && s.totalFrees == 0 && s.active == 0
  }

  // ---- Conservation without any assumption ----------------------------------------------------

  /** used + free = total and used = total_allocated - total_freed, in 64-bit arithmetic. */
  predicate PoolConserves(p: PoolState) {
    && p.used < WORD
    && (p.used + p.free) % WORD == p.total % WORD
    && p.used == (p.totalAllocated - p.totalFreed) % WORD
    && p.active == p.allocations - p.frees
    && p.listed == 0
  }

  ghost predicate Conserves(s: ManagerState) {
    && s.active == s.totalAllocations - s.totalFrees
    && forall i :: 0 <= i < |s.pools| ==> PoolConserves(s.pools[i])
  }

  lemma WrapBoth(x: int, y: int, d: int)
    ensures ((x + d) % WORD + (y - d) % WORD) % WORD == (x + y) % WORD
  {
    WrapAdd(x + d, (y - d) % WORD);
    WrapAdd(y - d, x + d);
  }

  lemma ChargeConserves(p: PoolState, size: nat, asked: nat)
    requires PoolConserves(p)
    ensures PoolConserves(Charge(p, size, asked))
  {
    WrapBoth(p.used, p.free, size);
    WrapAdd(p.totalAllocated - p.totalFreed, size);
    WrapAdd(p.totalAllocated + size, -(p.totalFreed as int));
  }

  lemma CreditConserves(p: PoolState, size: nat)
    requires PoolConserves(p)
    ensures PoolConserves(Credit(p, size))
  {
    var minus := -(size as int);
    WrapBoth(p.used, p.free, minus);
    WrapAdd(p.totalAllocated - p.totalFreed, minus);
    WrapSubtract(p.totalAllocated, p.totalFreed + size);
  }

  lemma WrapSubtract(x: int, y: int)
    ensures (x - y % WORD) % WORD == (x - y) % WORD
  {
    var q, z := y / WORD, x - y % WORD;
    DivModUnique(x - y, WORD, z / WORD - q, z % WORD);
  }

  lemma StepConserves(s: ManagerState, op: Operation)
    requires Conserves(s)
    ensures Conserves(Step(s, op))
  {
    match op
    case Alloc(size, kind, grants) => AllocConserves(s, size, Asked(op), kind, grants);
    case AllocAligned(size, _, kind, grants) => AllocConserves(s, size, Asked(op), kind, grants);
    case Free(ptr, size) =>
      var k := FirstCovering(s.pools, ptr);
      if k < |s.pools| { CreditConserves(s.pools[k], size); }
    case _ =>
  }

  lemma AllocConserves(s: ManagerState, size: nat, asked: nat, kind: nat, grants: seq<nat>)
    requires Conserves(s)
    ensures Conserves(Allocate(s, size, asked, kind, grants).0)
  {
    var k := FirstServing(s.pools, kind, grants, 0);
    if k < |s.pools| { ChargeConserves(MarkRefused(s.pools, kind, k)[k], size, asked); }
  }

  /** Whatever is allocated, freed with whatever sizes, shrunk or destroyed, every pool keeps
      used + free = total and used = total_allocated - total_freed modulo 2^64, and its list of used blocks,
      which nothing fills, stays empty. */
  lemma ConservedOnEveryRun(start: ManagerState, ops: seq<Operation>)
    requires Fresh(start)
    ensures Conserves(Run(Step, start, ops))
  {
    forall s, op | Conserves(s) ensures Conserves(Step(s, op)) { StepConserves(s, op); }
    AlwaysInvariant(Step, Conserves, start, ops);
  }

  /** So the busy check refuses in no reachable state, however many allocations are outstanding. */
  lemma NeverBusy(start: ManagerState, ops: seq<Operation>, id: nat)
    requires Fresh(start)
    ensures Destroy(Run(Step, start, ops), id).1 != Failure(Busy)
  {
    ConservedOnEveryRun(start, ops);
  }

  function SumUsed(pools: seq<PoolState>): nat {
    if pools == [] then 0 else pools[0].used + SumUsed(pools[1..])
  }

  function SumActive(pools: seq<PoolState>): int {
    if pools == [] then 0 else pools[0].active + SumActive(pools[1..])
  }

  lemma {:induction false} SumsUpdate(pools: seq<PoolState>, k: nat, p: PoolState)
    requires k < |pools|
    ensures SumUsed(pools[k := p]) == SumUsed(pools) - pools[k].used + p.used
    ensures SumActive(pools[k := p]) == SumActive(pools) - pools[k].active + p.active
  {
    if k == 0 {
      assert pools[k := p][1..] == pools[1..];
    } else {
      SumsUpdate(pools[1..], k - 1, p);
      assert pools[k := p][1..] == pools[1..][k - 1 := p];
    }
  }

  lemma {:induction false} SumsWithout(pools: seq<PoolState>, k: nat)
    requires k < |pools|
    ensures SumUsed(Without(pools, k)) == SumUsed(pools) - pools[k].used
    ensures SumActive(Without(pools, k)) == SumActive(pools) - pools[k].active
  {
    if k == 0 {
      assert Without(pools, k) == pools[1..];
    } else {
      SumsWithout(pools[1..], k - 1);
      WithoutTail(pools, k);
    }
  }

  lemma {:induction false} SumsAppend(pools: seq<PoolState>, p: PoolState)
    ensures SumUsed(pools + [p]) == SumUsed(pools) + p.used
    ensures SumActive(pools + [p]) == SumActive(pools) + p.active
  {
    if pools == [] {
      assert (pools + [p])[1..] == [];
    } else {
      SumsAppend(pools[1..], p);
      assert (pools + [p])[1..] == pools[1..] + [p];
    }
  }

  /** Pools that differ only in their error counts have equal sums. */
  lemma {:induction false} SumsSame(a: seq<PoolState>, b: seq<PoolState>)
    requires |a| == |b| && forall i :: 0 <= i < |a| ==> a[i].used == b[i].used && a[i].active == b[i].active
    ensures SumUsed(a) == SumUsed(b) && SumActive(a) == SumActive(b)
  {
    if a != [] { SumsSame(a[1..], b[1..]); }
  }

  /** Destroying a pool keeps the manager's counters equal to the sums if and only if the pool is idle. It
      succeeds either way: the list of used blocks that is consulted is empty in every reachable state. */
  lemma DestroyKeepsSumsExactly(s: ManagerState, id: nat)
    requires Conserves(s) && s.usedSize == SumUsed(s.pools) && s.active == SumActive(s.pools)
    requires FindId(s.pools, id) < |s.pools|
    ensures var p, (t, status) := s.pools[FindId(s.pools, id)], Destroy(s, id);
            && status.Success?
            && (t.usedSize == SumUsed(t.pools) <==> p.used == 0)
            && (t.active == SumActive(t.pools) <==> p.active == 0)
  {
    SumsWithout(s.pools, FindId(s.pools, id));
  }

  // ---- Routing of frees -----------------------------------------------------------------------

  /** The ranges have no address in common: one ends before the other starts, or one is empty. */
  predicate RangesApart(p: PoolState, q: PoolState) {
    p.end <= q.start || q.end <= p.start || p.end <= p.start || q.end <= q.start
  }

  /** Every free of an address of some pool is credited to that pool if and only if the ranges of the pools are
      pairwise apart. */
  lemma RoutingExactly(pools: seq<PoolState>)
    ensures (forall k: nat, addr: nat :: k < |pools| && Covers(pools[k], addr) ==> FirstCovering(pools, addr) == k)
            <==> forall i, j :: 0 <= i < j < |pools| ==> RangesApart(pools[i], pools[j])
  {
    if forall k: nat, addr: nat :: k < |pools| && Covers(pools[k], addr) ==> FirstCovering(pools, addr) == k {
      forall i, j | 0 <= i < j < |pools| ensures RangesApart(pools[i], pools[j]) {
        var addr: nat := Max(pools[i].start, pools[j].start);
        var found := FirstCovering(pools, addr);
        if Covers(pools[i], addr) { assert found == i; }
        if Covers(pools[j], addr) { assert found == j; }
      }
    }
  }

  /** Creation does not look at the ranges of the existing pools, so it accepts a second pool on the range of
      the first; a block of the second pool is then credited to the first when it is freed. */
  lemma OverlappingPoolsMisroute(s: ManagerState, kind: nat, size: nat)
    requires |s.pools| == 1 && POOL_MIN_SIZE <= size <= POOL_MAX_SIZE
    requires s.pools[0].start == 0x50000000 && s.pools[0].end == 0x50000000 + 64 * 1024 * 1024
    ensures var (t, status) := Create(s, true, kind, 0x50000000, size, true);
            && status.Success? && |t.pools| == 2 && Covers(t.pools[1], 0x50001000)
            && FirstCovering(t.pools, 0x50001000) == 0
  {}

  // ---- The peak over whole runs ---------------------------------------------------------------

  /** The step with an account of the largest used size. */
  function ObservedStep(o: Observed<ManagerState>, op: Operation): Observed<ManagerState> {
    Observe(o, Step(o.s, op), Step(o.s, op).usedSize)
  }

  /** A free that succeeds does not take off more than is on the ledger. */
  predicate Covered(o: Observed<ManagerState>, op: Operation) {
    op.Free? && Release(o.s, op.ptr, op.size).1.Success? ==> op.size <= o.s.usedSize
  }

  predicate PeakSeen(o: Observed<ManagerState>) {
    o.s.usedSize <= o.s.peakSize == o.largest && o.s.usedSize < WORD
  }

  /** A free keeps the recorded peak the largest used size if and only if the size passed was on the ledger or
      the wrapped difference stays at or below the peak. */
  lemma FreeKeepsPeakExactly(o: Observed<ManagerState>, ptr: nat, size: Word)
    requires PeakSeen(o) && Release(o.s, ptr, size).1.Success?
    ensures PeakSeen(ObservedStep(o, Free(ptr, size)))
            <==> size <= o.s.usedSize || WORD + o.s.usedSize - size <= o.s.peakSize
  {
    WrapDown(o.s.usedSize, size);
  }

  /** One byte of a new pool, freed as two: the manager's used size wraps past its peak. */
  lemma PeakMissesWrap(start: ManagerState, base: Word, size: nat)
    requires Fresh(start) && start.peakSize == 0
    requires 0 < base && base + size < WORD && POOL_MIN_SIZE <= size <= POOL_MAX_SIZE
    ensures var s := Step(Step(Step(start, CreatePool(true, 0, base, size, true)), Alloc(1, 0, [base])), Free(base, 2));
            s.usedSize == WORD - 1 && s.peakSize == 1
  {
    var s := Step(start, CreatePool(true, 0, base, size, true));
    DivModUnique(base + size, WORD, 0, base + size);
    assert s.pools == [NewPool(start.nextId, 0, base, size)];
    var t := Step(s, Alloc(1, 0, [base]));
    assert FirstServing(s.pools, 0, [base], 0) == 0;
    assert t.usedSize == 1 && Covers(t.pools[0], base);
    WrapDown(1, 2);
  }

  /** The manager's peak is the largest used size of the run, on every run whose frees are covered. */
  lemma PeakIsLargest(start: Observed<ManagerState>, ops: seq<Operation>)
    requires Fresh(start.s) && start.s.peakSize == 0 && start.largest == 0
    requires Admitted(ObservedStep, Covered, start, ops)
    ensures var o := Run(ObservedStep, start, ops);
            o.s.usedSize <= o.s.peakSize == o.largest
  {
    forall o, op | PeakSeen(o) && Covered(o, op) ensures PeakSeen(ObservedStep(o, op)) {
      if op.Free? && Release(o.s, op.ptr, op.size).1.Success? { FreeKeepsPeakExactly(o, op.ptr, op.size); }
    }
    Invariant(ObservedStep, Covered, PeakSeen, start, ops);
  }
}
