/** What one call of the pool manager returns and leaves behind, field by field, and what pools owe to the calls
    that created and shrank them: over whole runs every pool keeps the kind and the range it was created with, and
    requests are served by pools of their kind only. */
module PoolEffects {
  import opened MachineWords
  import opened Alignment
  import opened Lists
  import opened Runs
  import opened PoolLedger

  // ---- Single calls ---------------------------------------------------------------------------

  /** Pool j is asked for memory of this kind and gets it. */
  predicate Granting(s: ManagerState, kind: nat, grants: seq<nat>, j: nat) {
    j < |s.pools| && j < |grants| && s.pools[j].kind == kind && grants[j] != 0
  }

  lemma FirstServingAt(s: ManagerState, kind: nat, grants: seq<nat>, k: nat)
    requires k <= |s.pools| && forall j :: 0 <= j < k ==> !Granting(s, kind, grants, j)
    requires k < |s.pools| ==> Granting(s, kind, grants, k)
    ensures FirstServing(s.pools, kind, grants, 0) == k
  {
    forall j | 0 <= j < |s.pools|
      ensures Serves(s.pools[j], kind, GrantAt(grants, j)) <==> Granting(s, kind, grants, j)
    {}
    assert forall j :: 0 <= j < k ==> !Granting(s, kind, grants, j);
  }

  /** Pool j after a request that pool k served, or none if k is past the end. */
  predicate Passed(p: PoolState, q: PoolState, kind: nat, before: bool) {
    q == if before && p.kind == kind then p.(errors := p.errors + 1) else p
  }

  /** The pool after it has served a request: its size is charged, its pages are taken from the source. */
  predicate ServedIn(p: PoolState, q: PoolState, size: nat, asked: nat) {
    && q.used == (p.used + size) % 0x1_0000_0000_0000_0000
    && q.free == (p.free - size) % 0x1_0000_0000_0000_0000
    && q.totalAllocated == (p.totalAllocated + size) % 0x1_0000_0000_0000_0000
    && q.peak == Max(q.used, p.peak) && q.allocations == p.allocations + 1 && q.active == p.active + 1
    && q.held == p.held + (asked + 4095) / 4096
    && q == p.(used := q.used, free := q.free, totalAllocated := q.totalAllocated, peak := q.peak,
               allocations := q.allocations, active := q.active, held := q.held)
  }

  /** The first pool of the kind whose source grants the request serves it, the pools of the kind before it count
      an error, and the manager counts the size and the call. */
  lemma AllocationServed(s: ManagerState, size: nat, asked: nat, kind: nat, grants: seq<nat>, k: nat)
    requires size != 0 && Granting(s, kind, grants, k) && forall j :: 0 <= j < k ==> !Granting(s, kind, grants, j)
    ensures var (t, ptr) := Allocate(s, size, asked, kind, grants);
            && ptr == grants[k] && |t.pools| == |s.pools| && ServedIn(s.pools[k], t.pools[k], size, asked)
            && (forall j :: 0 <= j < |s.pools| && j != k ==> Passed(s.pools[j], t.pools[j], kind, j < k))
            && t.usedSize == (s.usedSize + size) % 0x1_0000_0000_0000_0000
            && t.peakSize == Max(t.usedSize, s.peakSize)
            && t.totalAllocations == s.totalAllocations + 1 && t.active == s.active + 1
            && t.totalFrees == s.totalFrees && t.nextId == s.nextId
  {
    FirstServingAt(s, kind, grants, k);
  }

  /** A plain request in a run asks the source for its size, an aligned one for the size rounded up to the
      alignment, which is at least a page. */
  lemma RequestSteps(s: ManagerState, size: Word, align: Word, kind: nat, grants: seq<nat>)
    ensures Step(s, Alloc(size, kind, grants)) == Allocate(s, size, size, kind, grants).0
    ensures var asked := AlignUp(size, if align < 4096 then 4096 else align);
            Step(s, AllocAligned(size, align, kind, grants)) == Allocate(s, size, asked, kind, grants).0
  {}

  /** Without such a pool the answer is NULL and the pools of the kind count an error; a size of 0 leaves no
      trace. */
  lemma AllocationRefused(s: ManagerState, size: nat, asked: nat, kind: nat, grants: seq<nat>)
    requires size != 0 ==> forall j :: 0 <= j < |s.pools| ==> !Granting(s, kind, grants, j)
    ensures var (t, ptr) := Allocate(s, size, asked, kind, grants);
            && ptr == 0 && |t.pools| == |s.pools| && t == s.(pools := t.pools)
            && forall j :: 0 <= j < |s.pools| ==> Passed(s.pools[j], t.pools[j], kind, size != 0)
  {
    if size != 0 { FirstServingAt(s, kind, grants, |s.pools|); }
  }

  /** The first pool whose range holds the address is credited with the size passed, and no other pool changes. */
  lemma FreeServed(s: ManagerState, ptr: nat, size: nat, k: nat)
    requires ptr != 0 && size != 0 && k < |s.pools| && s.pools[k].start <= ptr < s.pools[k].end
    requires forall j :: 0 <= j < k ==> !(s.pools[j].start <= ptr < s.pools[j].end)
    ensures var p, (t, status) := s.pools[k], Release(s, ptr, size);
            && status.Success?
            && t.pools == s.pools[k := p.(used := (p.used - size) % 0x1_0000_0000_0000_0000,
                                          free := (p.free + size) % 0x1_0000_0000_0000_0000,
                                          totalFreed := (p.totalFreed + size) % 0x1_0000_0000_0000_0000,
                                          frees := p.frees + 1, active := p.active - 1,
                                          held := p.held - (size + 4095) / 4096)]
            && t == s.(pools := t.pools, usedSize := (s.usedSize - size) % 0x1_0000_0000_0000_0000,
                       totalFrees := s.totalFrees + 1, active := s.active - 1)
  {
    assert FirstCovering(s.pools, ptr) == k by {
      assert Covers(s.pools[k], ptr) && forall j :: 0 <= j < k ==> !Covers(s.pools[j], ptr);
    }
  }

  /** A null address, a size of 0 and an address of no pool are refused without a trace. */
  lemma FreeRefused(s: ManagerState, ptr: nat, size: nat)
    requires ptr != 0 && size != 0 ==> forall p <- s.pools :: !(p.start <= ptr < p.end)
    ensures Release(s, ptr, size) == (s, Failure(if ptr == 0 || size == 0 then Invalid else NotFound))
  {
    var k := FirstCovering(s.pools, ptr);
    if k < |s.pools| { assert s.pools[k] in s.pools; }
  }

  /** A creation is accepted for 4 MB to 512 MB while there are fewer than 64 pools. */
  lemma CreationExactly(s: ManagerState, hasName: bool, kind: nat, start: Word, size: nat, backed: bool)
    ensures var (t, status) := Create(s, hasName, kind, start, size, backed);
            var room := |s.pools| < 64 && 4 * 1024 * 1024 <= size <= 512 * 1024 * 1024;
            && status == (if !hasName || size == 0 then Failure(Invalid)
                          else if room && backed then Success else Failure(NoMemory))
            && t == s.(pools := t.pools, nextId := s.nextId + if hasName && room then 1 else 0)
            && t.pools == s.pools + if status.Success? then [Created(s.nextId, kind, start, size)] else []
  {}

  /** A pool that nothing has been asked of. */
  function Created(id: nat, kind: nat, start: Word, size: nat): PoolState {
    var end := (start + size) % 0x1_0000_0000_0000_0000;
    PoolState(id := id, kind := kind, start := start, end := end, size := size, total := size, used := 0,
              free := size, peak := 0, totalAllocated := 0, totalFreed := 0, allocations := 0, frees := 0,
              active := 0, errors := 0, listed := 0, top := end, held := 0)
  }

  /** Pool k is the first one with the id. */
  predicate FirstWithId(s: ManagerState, id: nat, k: nat) {
    k < |s.pools| && s.pools[k].id == id && forall j :: 0 <= j < k ==> s.pools[j].id != id
  }

  /** A destruction takes exactly that pool out, if its list of used blocks is empty. */
  lemma DestructionExactly(s: ManagerState, id: nat, k: nat)
    requires FirstWithId(s, id, k)
    ensures Destroy(s, id) == if s.pools[k].listed == 0 then (s.(pools := s.pools[..k] + s.pools[k + 1..]), Success)
                              else (s, Failure(Busy))
  {
    assert FindId(s.pools, id) == k;
  }

  /** A shrink sets the size and the total to the target, if no more than that is in use. */
  lemma ShrinkingExactly(s: ManagerState, id: nat, k: nat, target: Word, wraps: bool)
    requires FirstWithId(s, id, k)
    ensures var p, (t, status) := s.pools[k], Shrink(s, id, target, wraps);
            && status == (if p.used > target then Failure(Busy) else Success)
            && |t.pools| == |s.pools| && t == s.(pools := s.pools[k := t.pools[k]])
            && t.pools[k] == if p.used > target || p.size == target then p
                             else p.(size := target, total := target, free := target - p.used, top := t.pools[k].top)
  {
    assert FindId(s.pools, id) == k;
  }

  lemma UnknownIdRefused(s: ManagerState, id: nat, target: Word, wraps: bool)
    requires forall i :: 0 <= i < |s.pools| ==> s.pools[i].id != id
    ensures Destroy(s, id) == Shrink(s, id, target, wraps) == (s, Failure(NotFound))
  {
    assert FindId(s.pools, id) == |s.pools|;
  }

  /** A pool that was just created serves a request of its kind that only its own source grants, and does not
      serve requests of another kind. */
  lemma CreatedServes(
      s: ManagerState, kind: nat, start: Word, poolSize: nat, size: nat, asked: nat, wanted: nat, grants: seq<nat>)
    requires Create(s, true, kind, start, poolSize, true).1.Success? && size != 0
    requires |grants| == |s.pools| + 1 && grants[|s.pools|] != 0
    requires forall j :: 0 <= j < |s.pools| ==> grants[j] == 0
    ensures var t := Create(s, true, kind, start, poolSize, true).0;
            var (u, ptr) := Allocate(t, size, asked, wanted, grants);
            var p := u.pools[|s.pools|];
            && ptr == (if wanted == kind then grants[|s.pools|] else 0)
            && p.id == s.nextId && p.start == start && p.active == (if wanted == kind then 1 else 0)
            && p.used == (if wanted == kind then size % 0x1_0000_0000_0000_0000 else 0)
  {
    CreationExactly(s, true, kind, start, poolSize, true);
    var t := Create(s, true, kind, start, poolSize, true).0;
    if wanted == kind {
      AllocationServed(t, size, asked, wanted, grants, |s.pools|);
    } else {
      AllocationRefused(t, size, asked, wanted, grants);
    }
  }

  // ---- What pools were created as -------------------------------------------------------------

  /** What was passed when a pool was created, its size being the last target of a shrink that succeeded. */
  datatype Order = Order(kind: nat, start: nat, end: nat, size: nat)

  /** A request that was served: its kind, the address returned, and the pool that served it. */
  datatype Service = Service(kind: nat, ptr: nat, owner: nat)

  /** The manager with an account of the calls: what each pool was created as, by the id it got, all requests that
      were served, and the numbers of these and of the frees that succeeded. */
  datatype Booked = Booked(s: ManagerState, orders: map<nat, Order>, services: seq<Service>, freed: nat)

  function Serve(b: Booked, op: Operation): seq<Service>
    requires Allocates(op)
  {
    var ptr := Allocate(b.s, op.size, Asked(op), op.kind, op.grants).1;
    var k := FirstServing(b.s.pools, op.kind, op.grants, 0);
    if ptr == 0 || k == |b.s.pools| then b.services
    else b.services + [Service(op.kind, ptr, b.s.pools[k].id)]
  }

  function BookedStep(b: Booked, op: Operation): Booked {
    var t := Step(b.s, op);
    match op
    case CreatePool(hasName, kind, start, size, backed) =>
      if Create(b.s, hasName, kind, start, size, backed).1.Success? then
        b.(s := t, orders := b.orders[b.s.nextId := Order(kind, start, (start + size) % 0x1_0000_0000_0000_0000, size)])
      else b.(s := t)
    case ShrinkPool(id, target, wraps) =>
      if Shrink(b.s, id, target, wraps).1.Success? && id in b.orders then
        b.(s := t, orders := b.orders[id := b.orders[id].(size := target)])
      else b.(s := t)
    case Free(ptr, size) => b.(s := t, freed := b.freed + if Release(b.s, ptr, size).1.Success? then 1 else 0)
    case DestroyPool(_) => b.(s := t)
    case _ => b.(s := t, services := Serve(b, op))
  }

  /** The pool is what its order says. */
  predicate AsOrdered(p: PoolState, orders: map<nat, Order>) {
    p.id in orders && orders[p.id] == Order(p.kind, p.start, p.end, p.size) && p.total == p.size
  }

  ghost predicate Numbered(pools: seq<PoolState>, nextId: nat, orders: map<nat, Order>) {
    && (forall id <- orders :: id < nextId)
    && (forall i :: 0 <= i < |pools| ==> pools[i].id < nextId && AsOrdered(pools[i], orders))
    && forall i, j :: 0 <= i < j < |pools| ==> pools[i].id != pools[j].id
  }

  predicate OfItsKind(v: Service, orders: map<nat, Order>) {
    v.ptr != 0 && v.owner in orders && orders[v.owner].kind == v.kind
  }

  ghost predicate KindsKept(b: Booked) {
    && Numbered(b.s.pools, b.s.nextId, b.orders)
    && (forall i :: 0 <= i < |b.services| ==> OfItsKind(b.services[i], b.orders))
    && b.s.totalAllocations == |b.services| && b.s.totalFrees == b.freed
  }

  lemma CreateKeepsKinds(b: Booked, op: Operation)
    requires op.CreatePool? && KindsKept(b)
    ensures KindsKept(BookedStep(b, op))
  {
    CreationExactly(b.s, op.hasName, op.kind, op.start, op.poolSize, op.backed);
  }

  lemma DestroyKeepsKinds(b: Booked, op: Operation)
    requires op.DestroyPool? && KindsKept(b)
    ensures KindsKept(BookedStep(b, op))
  {}

  lemma ShrinkKeepsKinds(b: Booked, op: Operation)
    requires op.ShrinkPool? && KindsKept(b)
    ensures KindsKept(BookedStep(b, op))
  {
    var k := FindId(b.s.pools, op.id);
    if k < |b.s.pools| { assert AsOrdered(b.s.pools[k], b.orders); }
  }

  lemma FreeKeepsKinds(b: Booked, op: Operation)
    requires op.Free? && KindsKept(b)
    ensures KindsKept(BookedStep(b, op))
  {}

  /** The pools are still what they were created as. */
  predicate SameOrders(pools: seq<PoolState>, after: seq<PoolState>) {
    |after| == |pools| && forall i :: 0 <= i < |pools| ==>
      && after[i].id == pools[i].id && after[i].kind == pools[i].kind && after[i].start == pools[i].start
      && after[i].end == pools[i].end && after[i].size == pools[i].size && after[i].total == pools[i].total
  }

  lemma SameOrdersNumbered(pools: seq<PoolState>, after: seq<PoolState>, nextId: nat, orders: map<nat, Order>)
    requires Numbered(pools, nextId, orders) && SameOrders(pools, after)
    ensures Numbered(after, nextId, orders)
  {
    forall i | 0 <= i < |after| ensures after[i].id < nextId && AsOrdered(after[i], orders) {
      assert AsOrdered(pools[i], orders);
    }
  }

  lemma AllocEffect(s: ManagerState, size: nat, asked: nat, kind: nat, grants: seq<nat>)
    ensures var k, (t, ptr) := FirstServing(s.pools, kind, grants, 0), Allocate(s, size, asked, kind, grants);
            && SameOrders(s.pools, t.pools) && t.nextId == s.nextId && t.totalFrees == s.totalFrees
            && (ptr != 0 ==> k < |s.pools| && s.pools[k].kind == kind)
            && t.totalAllocations == s.totalAllocations + if ptr != 0 then 1 else 0
  {}

  lemma AllocKeepsKinds(b: Booked, op: Operation)
    requires Allocates(op) && KindsKept(b)
    ensures KindsKept(BookedStep(b, op))
  {
    AllocEffect(b.s, op.size, Asked(op), op.kind, op.grants);
    SameOrdersNumbered(b.s.pools, BookedStep(b, op).s.pools, b.s.nextId, b.orders);
    var k := FirstServing(b.s.pools, op.kind, op.grants, 0);
    if k < |b.s.pools| { assert AsOrdered(b.s.pools[k], b.orders); }
  }

  lemma StepKeepsKinds(b: Booked, op: Operation)
    requires KindsKept(b)
    ensures KindsKept(BookedStep(b, op))
  {
    if Allocates(op) { AllocKeepsKinds(b, op); }
    else if op.Free? { FreeKeepsKinds(b, op); }
    else if op.CreatePool? { CreateKeepsKinds(b, op); }
    else if op.DestroyPool? { DestroyKeepsKinds(b, op); }
    else { ShrinkKeepsKinds(b, op); }
  }

  /** On every run: every pool has the kind and the range that were passed when it was created, and the size that
      was passed then or last set by a shrink; ids are given once; every request served was served by a pool that
      was created with the kind of the request; and the manager's counters are the numbers of requests served and
      of frees that succeeded. */
  lemma KindsOnEveryRun(start: Booked, ops: seq<Operation>)
    requires Fresh(start.s) && start == Booked(start.s, map[], [], 0)
    ensures KindsKept(Run(BookedStep, start, ops))
  {
    forall b, op | KindsKept(b) ensures KindsKept(BookedStep(b, op)) { StepKeepsKinds(b, op); }
    AlwaysInvariant(BookedStep, KindsKept, start, ops);
  }

  // ---- The peaks of the pools -----------------------------------------------------------------

  /** The manager with an account of the largest used size that each of its pools has had. */
  datatype Peaked = Peaked(s: ManagerState, highest: seq<nat>)

  /** The account of the pools that are left, with room for a new one. */
  function Kept(t: Peaked, op: Operation): seq<nat> {
    var k := if op.DestroyPool? then FindId(t.s.pools, op.id) else |t.s.pools|;
    if op.DestroyPool? && Destroy(t.s, op.id).1.Success? && k < |t.highest| then Without(t.highest, k) else t.highest
  }

  function Raised(highest: seq<nat>, pools: seq<PoolState>): (r: seq<nat>)
    ensures |r| == |pools|
    ensures forall i :: 0 <= i < |r| ==> r[i] == Max(if i < |highest| then highest[i] else 0, pools[i].used)
  {
    seq(|pools|, i requires 0 <= i < |pools| => Max(if i < |highest| then highest[i] else 0, pools[i].used) as nat)
  }

  function PeakedStep(t: Peaked, op: Operation): Peaked {
    Peaked(Step(t.s, op), Raised(Kept(t, op), Step(t.s, op).pools))
  }

  /** A free does not take off more than is in use in the pool that it is credited to. */
  predicate CoveredByPool(t: Peaked, op: Operation) {
    op.Free? ==>
      var k := FirstCovering(t.s.pools, op.ptr);
      k < |t.s.pools| ==> op.size <= t.s.pools[k].used
  }

  predicate PeaksAre(pools: seq<PoolState>, highest: seq<nat>) {
    |highest| == |pools| && forall i :: 0 <= i < |pools| ==>
      pools[i].used <= pools[i].peak == highest[i] && pools[i].used < WORD
  }

  predicate PeaksSeen(t: Peaked) {
    PeaksAre(t.s.pools, t.highest)
  }

  /** A free keeps the peak of its pool if and only if it is covered, or the wrapped difference stays at or below
      the peak. */
  lemma CreditKeepsPeakExactly(p: PoolState, size: Word)
    requires p.used <= p.peak && p.used < WORD
    ensures var q := Credit(p, size);
            && q.peak == p.peak
            && (q.used <= q.peak <==> size <= p.used || WORD + p.used - size <= p.peak)
  {
    WrapDown(p.used, size);
  }

  /** The pools keep their places, and the used size of each moves up with its peak or down below it. */
  predicate MoveInPlace(pools: seq<PoolState>, after: seq<PoolState>) {
    |after| == |pools| && forall i :: 0 <= i < |pools| ==>
      after[i].peak == Max(pools[i].peak, after[i].used) && after[i].used < WORD
  }

  lemma InPlacePeaks(pools: seq<PoolState>, after: seq<PoolState>, highest: seq<nat>)
    requires PeaksAre(pools, highest) && MoveInPlace(pools, after)
    ensures PeaksAre(after, Raised(highest, after))
  {}

  lemma AllocMoves(s: ManagerState, size: nat, asked: nat, kind: nat, grants: seq<nat>, highest: seq<nat>)
    requires PeaksAre(s.pools, highest)
    ensures MoveInPlace(s.pools, Allocate(s, size, asked, kind, grants).0.pools)
  {}

  lemma FreeMoves(t: Peaked, op: Operation)
    requires op.Free? && PeaksSeen(t) && CoveredByPool(t, op)
    ensures MoveInPlace(t.s.pools, Step(t.s, op).pools)
  {
    var k := FirstCovering(t.s.pools, op.ptr);
    if k < |t.s.pools| {
      WrapDown(t.s.pools[k].used, op.size);
      CreditKeepsPeakExactly(t.s.pools[k], op.size);
    }
  }

  lemma CreatePeaks(t: Peaked, op: Operation)
    requires op.CreatePool? && PeaksSeen(t)
    ensures PeaksSeen(PeakedStep(t, op))
  {
    CreationExactly(t.s, op.hasName, op.kind, op.start, op.poolSize, op.backed);
  }

  lemma DestroyPeaks(t: Peaked, op: Operation)
    requires op.DestroyPool? && PeaksSeen(t)
    ensures PeaksSeen(PeakedStep(t, op))
  {}

  /** An operation that creates and destroys nothing, and moves the pools in place. */
  lemma OtherPeaks(t: Peaked, op: Operation)
    requires !op.CreatePool? && !op.DestroyPool? && PeaksSeen(t) && MoveInPlace(t.s.pools, Step(t.s, op).pools)
    ensures PeaksSeen(PeakedStep(t, op))
  {
    InPlacePeaks(t.s.pools, Step(t.s, op).pools, t.highest);
  }

  lemma ShrinkMoves(t: Peaked, op: Operation)
    requires op.ShrinkPool? && PeaksSeen(t)
    ensures MoveInPlace(t.s.pools, Step(t.s, op).pools)
  {}

  lemma StepPeaks(t: Peaked, op: Operation)
    requires PeaksSeen(t) && CoveredByPool(t, op)
    ensures PeaksSeen(PeakedStep(t, op))
  {
    match op
    case Alloc(size, kind, grants) =>
      AllocMoves(t.s, size, Asked(op), kind, grants, t.highest);
      OtherPeaks(t, op);
    case AllocAligned(size, _, kind, grants) =>
      AllocMoves(t.s, size, Asked(op), kind, grants, t.highest);
      OtherPeaks(t, op);
    case Free(_, _) =>
      FreeMoves(t, op);
      OtherPeaks(t, op);
    case ShrinkPool(_, _, _) =>
      ShrinkMoves(t, op);
      OtherPeaks(t, op);
    case CreatePool(_, _, _, _, _) => CreatePeaks(t, op);
    case DestroyPool(_) => DestroyPeaks(t, op);
  }

  /** On every run whose frees are covered by the pools they are credited to, the peak of each pool is the largest
      used size it has had since it was created. */
  lemma PoolPeaksOnCoveredRuns(start: Peaked, ops: seq<Operation>)
    requires Fresh(start.s) && start.highest == [] && Admitted(PeakedStep, CoveredByPool, start, ops)
    ensures var t := Run(PeakedStep, start, ops);
            && |t.highest| == |t.s.pools|
            && forall i :: 0 <= i < |t.highest| ==> t.s.pools[i].used <= t.s.pools[i].peak == t.highest[i]
  {
    forall t, op | PeaksSeen(t) && CoveredByPool(t, op) ensures PeaksSeen(PeakedStep(t, op)) { StepPeaks(t, op); }
    Invariant(PeakedStep, CoveredByPool, PeaksSeen, start, ops);
  }
}
