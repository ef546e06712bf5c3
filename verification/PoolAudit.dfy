/** What the pool manager's ledgers say on honest runs: the accounts of outstanding blocks, where these lie, and
    the pools they are credited to. */
module PoolAudit {
  import opened MachineWords
  import opened Alignment
  import opened Intervals
  import opened Lists
  import opened Runs
  import opened PoolLedger

  /** An allocation that has been handed out and not yet freed: its address, the pool that served it, and
      the size that was charged. */
  datatype Block = Block(ptr: nat, owner: nat, size: nat)

  /** The pages that the source of a pool granted for a request beyond those that a free of its size returns. */
  datatype Excess = Excess(owner: nat, pages: int)

  /** The manager with an account of the outstanding allocations, and of all excesses so far. */
  datatype Audited = Audited(s: ManagerState, live: seq<Block>, excess: seq<Excess>)

  function FindPtr(live: seq<Block>, ptr: nat): (i: nat)
    ensures i <= |live|
    ensures i < |live| ==> live[i].ptr == ptr
    ensures forall j :: 0 <= j < i ==> live[j].ptr != ptr
  {
    IndexWhere(live, (b: Block) => b.ptr == ptr)
  }

  function ExcessFor(op: Operation): int
    requires Allocates(op)
  {
    Pages(Asked(op)) - Pages(op.size)
  }

  function AuditedStep(a: Audited, op: Operation): Audited {
    var t := Step(a.s, op);
    if Allocates(op) then
      var k := FirstServing(a.s.pools, op.kind, op.grants, 0);
      if op.size == 0 || k == |a.s.pools| then a.(s := t)
      else
        var id := a.s.pools[k].id;
        Audited(t, a.live + [Block(GrantAt(op.grants, k), id, op.size)], a.excess + [Excess(id, ExcessFor(op))])
    else if op.Free? then
      var i := FindPtr(a.live, op.ptr);
      a.(s := t, live := if i == |a.live| then a.live else Without(a.live, i))
    else a.(s := t)
  }

  // ---- Bytes and addresses of blocks ----------------------------------------------------------

  datatype Whose = Everyone | Pool(id: nat)

  predicate Belongs(b: Block, w: Whose) {
    w.Everyone? || b.owner == w.id
  }

  /** The range of a block, empty if it is not meant. */
  function RangeIn(w: Whose): Block -> Range {
    (b: Block) => Range(b.ptr, if Belongs(b, w) then b.size else 0)
  }

  function BytesOf(live: seq<Block>, w: Whose): nat {
    Bytes(live, RangeIn(w))
  }

  ghost function AddressesOf(live: seq<Block>, w: Whose): set<int> {
    Addresses(live, RangeIn(w))
  }

  function CountOf(live: seq<Block>, w: Whose): nat {
    if live == [] then 0 else (if Belongs(live[0], w) then 1 else 0) + CountOf(live[1..], w)
  }

  /** No two blocks overlap. */
  ghost predicate BlocksApart(live: seq<Block>) {
    forall i, j :: 0 <= i < j < |live| ==>
      live[i].ptr + live[i].size <= live[j].ptr || live[j].ptr + live[j].size <= live[i].ptr
  }

  lemma {:induction false} CountAppend(live: seq<Block>, b: Block, w: Whose)
    ensures CountOf(live + [b], w) == CountOf(live, w) + (if Belongs(b, w) then 1 else 0)
  {
    if live == [] {
      assert (live + [b])[1..] == [];
    } else {
      CountAppend(live[1..], b, w);
      assert (live + [b])[1..] == live[1..] + [b];
    }
  }

  lemma {:induction false} CountWithout(live: seq<Block>, i: nat, w: Whose)
    requires i < |live|
    ensures CountOf(Without(live, i), w) == CountOf(live, w) - (if Belongs(live[i], w) then 1 else 0)
  {
    if i == 0 {
      assert Without(live, i) == live[1..];
    } else {
      CountWithout(live[1..], i - 1, w);
      WithoutTail(live, i);
    }
  }

  lemma LiveAppend(live: seq<Block>, b: Block, w: Whose)
    ensures BytesOf(live + [b], w) == BytesOf(live, w) + (if Belongs(b, w) then b.size else 0)
    ensures CountOf(live + [b], w) == CountOf(live, w) + (if Belongs(b, w) then 1 else 0)
  {
    BytesAppend(live, b, RangeIn(w));
    CountAppend(live, b, w);
  }

  lemma LiveWithout(live: seq<Block>, i: nat, w: Whose)
    requires i < |live|
    ensures BytesOf(Without(live, i), w) == BytesOf(live, w) - (if Belongs(live[i], w) then live[i].size else 0)
    ensures CountOf(Without(live, i), w) == CountOf(live, w) - (if Belongs(live[i], w) then 1 else 0)
  {
    BytesWithout(live, i, RangeIn(w));
    CountWithout(live, i, w);
  }

  predicate InBlock(b: Block, x: int) {
    b.ptr <= x < b.ptr + b.size
  }

  lemma BlocksHold(live: seq<Block>, w: Whose, x: int)
    ensures x in AddressesOf(live, w) <==>
            exists i :: 0 <= i < |live| && Belongs(live[i], w) && InBlock(live[i], x)
  {
    AddressesHold(live, RangeIn(w), x);
    if i :| 0 <= i < |live| && Occupies(RangeIn(w)(live[i]), x) {
      assert Belongs(live[i], w) && InBlock(live[i], x);
    }
    if i :| 0 <= i < |live| && Belongs(live[i], w) && InBlock(live[i], x) {
      assert Occupies(RangeIn(w)(live[i]), x);
    }
  }

  /** Blocks that do not overlap take as many addresses as were charged for them. */
  lemma BlocksSize(live: seq<Block>, w: Whose)
    requires BlocksApart(live)
    ensures |AddressesOf(live, w)| == BytesOf(live, w)
  {
    AddressesSize(live, RangeIn(w));
  }

  lemma {:induction false} NoneOwned(live: seq<Block>, w: Whose)
    requires forall b :: 0 <= b < |live| ==> !Belongs(live[b], w)
    ensures BytesOf(live, w) == 0 && CountOf(live, w) == 0 && AddressesOf(live, w) == {}
  {
    if live != [] { NoneOwned(live[1..], w); }
  }

  /** A pool without a block owns none of the blocks. */
  lemma {:induction false} CountZero(live: seq<Block>, w: Whose)
    requires CountOf(live, w) == 0
    ensures forall b :: 0 <= b < |live| ==> !Belongs(live[b], w)
  {
    if live != [] {
      CountZero(live[1..], w);
      forall b | 0 <= b < |live| ensures !Belongs(live[b], w) {
        if b > 0 { assert live[b] == live[1..][b - 1]; }
      }
    }
  }

  // ---- Honest runs ----------------------------------------------------------------------------

  /** The page source of the pool may grant this range: it lies in the memory that is left to it, and overlaps
      no outstanding block. The ledger of the pool plays no part in it. */
  predicate Grantable(p: PoolState, live: seq<Block>, ptr: nat, size: nat) {
    && p.start <= ptr && ptr + size <= p.top
    && forall i :: 0 <= i < |live| ==> live[i].ptr + live[i].size <= ptr || ptr + size <= live[i].ptr
  }

  /** What callers and page sources owe the manager: pools on disjoint ranges, grants as above, frees of
      outstanding blocks with the charged size, and destruction of idle pools only. */
  predicate Honest(a: Audited, op: Operation) {
    match op
    case CreatePool(_, _, start, size, _) =>
      start + size < WORD && forall p <- a.s.pools :: start + size <= p.start || p.end <= start
    case DestroyPool(id) => CountOf(a.live, Pool(id)) == 0
    case ShrinkPool(_, _, _) => true
    case Free(ptr, size) =>
      var i := FindPtr(a.live, ptr);
      i < |a.live| && a.live[i].size == size
    case _ =>
      forall i :: 0 <= i < |a.s.pools| && GrantAt(op.grants, i) != 0 ==>
        Grantable(a.s.pools[i], a.live, GrantAt(op.grants, i), op.size)
  }

  /** A pool's ledger is that of its outstanding allocations. */
  predicate PoolExact(p: PoolState, live: seq<Block>) {
    && p.used == BytesOf(live, Pool(p.id)) && p.active == CountOf(live, Pool(p.id))
    && p.free == (p.total - p.used) % WORD && p.used <= p.peak && p.total == p.size < WORD
  }

  ghost predicate Routable(pools: seq<PoolState>, nextId: nat) {
    && (forall i :: 0 <= i < |pools| ==> pools[i].id < nextId && pools[i].start <= pools[i].top <= pools[i].end < WORD)
    && (forall i, j :: 0 <= i < j < |pools| ==>
          pools[i].id != pools[j].id && (pools[i].end <= pools[j].start || pools[j].end <= pools[i].start))
  }

  /** The block lies in the range of the pool that served it. */
  predicate Owned(pools: seq<PoolState>, b: Block) {
    var k := FindId(pools, b.owner);
    k < |pools| && pools[k].start <= b.ptr && b.ptr + b.size <= pools[k].end && b.ptr != 0 && b.size > 0
  }

  ghost predicate Placed(pools: seq<PoolState>, nextId: nat, live: seq<Block>) {
    && Routable(pools, nextId) && BlocksApart(live)
    && (forall x :: 0 <= x < |live| ==> Owned(pools, live[x]))
  }

  ghost predicate Ledger(pools: seq<PoolState>, usedSize: nat, active: int, live: seq<Block>) {
    && (forall i :: 0 <= i < |pools| ==> PoolExact(pools[i], live))
    && usedSize == SumUsed(pools) == BytesOf(live, Everyone)
    && active == SumActive(pools) == |live|
  }

  ghost predicate Exact(a: Audited) {
    Placed(a.s.pools, a.s.nextId, a.live) && Ledger(a.s.pools, a.s.usedSize, a.s.active, a.live)
  }

  /** Placed blocks fit the address space together. */
  lemma PlacedFit(pools: seq<PoolState>, nextId: nat, live: seq<Block>, w: Whose)
    requires Placed(pools, nextId, live)
    ensures BytesOf(live, w) < WORD
  {
    forall i | 0 <= i < |live| ensures live[i].ptr + live[i].size <= WORD - 1 { assert Owned(pools, live[i]); }
    BytesFit(live, RangeIn(w), 0, WORD - 1);
  }

  // ---- Where blocks lie -----------------------------------------------------------------------

  /** The same pools up to ledger entries and the memory left to their page sources. */
  ghost predicate SameRanges(a: seq<PoolState>, b: seq<PoolState>) {
    |a| == |b| && forall i :: 0 <= i < |a| ==>
      a[i].id == b[i].id && a[i].start == b[i].start && a[i].end == b[i].end && b[i].start <= b[i].top <= b[i].end
  }

  lemma SameRangesOwn(a: seq<PoolState>, b: seq<PoolState>, x: Block)
    requires SameRanges(a, b) && Owned(a, x)
    ensures Owned(b, x)
  {
    assert FindId(b, x.owner) == FindId(a, x.owner);
  }

  lemma SameRangesPlaced(a: seq<PoolState>, b: seq<PoolState>, nextId: nat, live: seq<Block>)
    requires SameRanges(a, b) && Placed(a, nextId, live)
    ensures Placed(b, nextId, live)
  {
    forall x | 0 <= x < |live| ensures Owned(b, live[x]) { SameRangesOwn(a, b, live[x]); }
  }

  lemma ServedPlaced(pools: seq<PoolState>, nextId: nat, live: seq<Block>, k: nat, b: Block)
    requires Placed(pools, nextId, live) && k < |pools|
    requires b.owner == pools[k].id && b.size > 0 && b.ptr != 0 && Grantable(pools[k], live, b.ptr, b.size)
    ensures Placed(pools, nextId, live + [b])
  {
    assert FindId(pools, b.owner) == k;
    forall x | 0 <= x < |live + [b]| ensures Owned(pools, (live + [b])[x]) {
      if x < |live| { assert Owned(pools, live[x]); }
    }
  }

  lemma FreedPlaced(pools: seq<PoolState>, nextId: nat, live: seq<Block>, i: nat)
    requires Placed(pools, nextId, live) && i < |live|
    ensures Placed(pools, nextId, Without(live, i))
  {
    forall x | 0 <= x < |Without(live, i)| ensures Owned(pools, Without(live, i)[x]) {
      assert Owned(pools, live[if x < i then x else x + 1]);
    }
  }

  lemma CreatedPlaced(pools: seq<PoolState>, nextId: nat, live: seq<Block>, p: PoolState)
    requires Placed(pools, nextId, live) && p.id == nextId && p.start <= p.top <= p.end < WORD
    requires forall i :: 0 <= i < |pools| ==> p.end <= pools[i].start || pools[i].end <= p.start
    ensures Placed(pools + [p], nextId + 1, live)
    ensures forall x :: 0 <= x < |live| ==> live[x].owner != p.id
  {
    forall x | 0 <= x < |live| ensures Owned(pools + [p], live[x]) && live[x].owner != p.id {
      assert Owned(pools, live[x]);
      var k := FindId(pools, live[x].owner);
      assert (pools + [p])[k] == pools[k];
      assert FindId(pools + [p], live[x].owner) == k;
    }
  }

  lemma DestroyedPlaced(pools: seq<PoolState>, nextId: nat, live: seq<Block>, k: nat)
    requires Placed(pools, nextId, live) && k < |pools|
    requires forall x :: 0 <= x < |live| ==> live[x].owner != pools[k].id
    ensures Placed(Without(pools, k), nextId, live)
  {
    var fewer := Without(pools, k);
    forall x | 0 <= x < |live| ensures Owned(fewer, live[x]) {
      assert Owned(pools, live[x]);
      var j := FindId(pools, live[x].owner);
      var i := if j < k then j else j - 1;
      assert fewer[i] == pools[j];
      assert FindId(fewer, live[x].owner) == i;
    }
  }

  /** The pool that a free credits is the pool that served the block. */
  lemma FreeFindsOwner(a: Audited, i: nat)
    requires Exact(a) && i < |a.live|
    ensures FirstCovering(a.s.pools, a.live[i].ptr) == FindId(a.s.pools, a.live[i].owner) < |a.s.pools|
  {
    assert Owned(a.s.pools, a.live[i]);
  }

  // ---- What the ledgers say -------------------------------------------------------------------

  lemma WrapSmall(x: int)
    requires 0 <= x < WORD
    ensures x % WORD == x
  {}

  lemma ChargeOne(p: PoolState, live: seq<Block>, b: Block, asked: nat)
    requires PoolExact(p, live) && b.owner == p.id && BytesOf(live + [b], Pool(p.id)) < WORD
    ensures PoolExact(Charge(p, b.size, asked), live + [b])
    ensures Charge(p, b.size, asked).used == p.used + b.size
  {
    LiveAppend(live, b, Pool(p.id));
    WrapSmall(p.used + b.size);
    WrapAdd(p.total - p.used, -(b.size as int));
  }

  lemma CreditOne(p: PoolState, live: seq<Block>, i: nat)
    requires PoolExact(p, live) && i < |live| && live[i].owner == p.id && p.used < WORD
    ensures PoolExact(Credit(p, live[i].size), Without(live, i))
    ensures Credit(p, live[i].size).used == p.used - live[i].size
  {
    LiveWithout(live, i, Pool(p.id));
    WrapSmall(p.used - live[i].size);
    WrapAdd(p.total - p.used, live[i].size);
  }

  /** Refusals change no ledger. */
  lemma MarkedLedger(pools: seq<PoolState>, marked: seq<PoolState>, usedSize: nat, active: int, live: seq<Block>)
    requires Ledger(pools, usedSize, active, live) && |pools| == |marked|
    requires forall j :: 0 <= j < |marked| ==> marked[j] == pools[j].(errors := marked[j].errors)
    ensures Ledger(marked, usedSize, active, live)
  {
    SumsSame(pools, marked);
  }

  /** Pool k serves block b. */
  lemma ServedLedger(pools: seq<PoolState>, usedSize: nat, active: int, live: seq<Block>, k: nat, b: Block, asked: nat)
    requires Ledger(pools, usedSize, active, live) && k < |pools| && b.owner == pools[k].id
    requires forall i, j :: 0 <= i < j < |pools| ==> pools[i].id != pools[j].id
    requires BytesOf(live + [b], Pool(b.owner)) < WORD
    ensures Ledger(pools[k := Charge(pools[k], b.size, asked)], usedSize + b.size, active + 1, live + [b])
  {
    var after, more := pools[k := Charge(pools[k], b.size, asked)], live + [b];
    ChargeOne(pools[k], live, b, asked);
    SumsUpdate(pools, k, after[k]);
    LiveAppend(live, b, Everyone);
    forall i | 0 <= i < |after| ensures PoolExact(after[i], more) { LiveAppend(live, b, Pool(after[i].id)); }
  }

  /** Block i goes back to its owner, pool k. */
  lemma CreditedLedger(pools: seq<PoolState>, usedSize: nat, active: int, live: seq<Block>, k: nat, i: nat)
    requires Ledger(pools, usedSize, active, live) && k < |pools| && i < |live| && live[i].owner == pools[k].id
    requires forall i, j :: 0 <= i < j < |pools| ==> pools[i].id != pools[j].id
    requires pools[k].used < WORD
    ensures live[i].size <= usedSize
    ensures Ledger(pools[k := Credit(pools[k], live[i].size)], usedSize - live[i].size, active - 1, Without(live, i))
  {
    var after, fewer := pools[k := Credit(pools[k], live[i].size)], Without(live, i);
    CreditOne(pools[k], live, i);
    SumsUpdate(pools, k, after[k]);
    LiveWithout(live, i, Everyone);
    forall j | 0 <= j < |after| ensures PoolExact(after[j], fewer) { LiveWithout(live, i, Pool(after[j].id)); }
  }

  // ---- The steps of an honest run -------------------------------------------------------------

  /** What an allocation served by pool k leaves. */
  lemma AllocEffect(a: Audited, op: Operation, k: nat)
    requires Allocates(op) && op.size > 0 && k == FirstServing(a.s.pools, op.kind, op.grants, 0) < |a.s.pools|
    ensures var marked, b := MarkRefused(a.s.pools, op.kind, k), AuditedStep(a, op);
            && GrantAt(op.grants, k) != 0
            && b.s.pools == marked[k := Charge(marked[k], op.size, Asked(op))] && b.s.nextId == a.s.nextId
            && b.s.usedSize == (a.s.usedSize + op.size) % WORD && b.s.active == a.s.active + 1
            && b.live == a.live + [Block(op.grants[k], marked[k].id, op.size)]
            && b.excess == a.excess + [Excess(marked[k].id, ExcessFor(op))]
  {}

  /** The pools after pool k has served a block, with the block. */
  lemma ServedFits(pools: seq<PoolState>, nextId: nat, live: seq<Block>, k: nat, b: Block, asked: nat)
    requires Placed(pools, nextId, live) && k < |pools|
    requires b.owner == pools[k].id && b.size > 0 && b.ptr != 0 && Grantable(pools[k], live, b.ptr, b.size)
    ensures Placed(pools[k := Charge(pools[k], b.size, asked)], nextId, live + [b])
    ensures BytesOf(live + [b], Everyone) < WORD && BytesOf(live + [b], Pool(b.owner)) < WORD
    ensures forall i, j :: 0 <= i < j < |pools| ==> pools[i].id != pools[j].id
  {
    ServedPlaced(pools, nextId, live, k, b);
    PlacedFit(pools, nextId, live + [b], Everyone);
    PlacedFit(pools, nextId, live + [b], Pool(b.owner));
    SameRangesPlaced(pools, pools[k := Charge(pools[k], b.size, asked)], nextId, live + [b]);
  }

  /** What the ledgers say after that. */
  lemma ServedWrapped(
      pools: seq<PoolState>, usedSize: nat, active: int, live: seq<Block>, k: nat, b: Block, asked: nat)
    requires Ledger(pools, usedSize, active, live) && k < |pools| && b.owner == pools[k].id
    requires forall i, j :: 0 <= i < j < |pools| ==> pools[i].id != pools[j].id
    requires BytesOf(live + [b], Everyone) < WORD && BytesOf(live + [b], Pool(b.owner)) < WORD
    ensures Ledger(pools[k := Charge(pools[k], b.size, asked)], (usedSize + b.size) % WORD, active + 1, live + [b])
  {
    ServedLedger(pools, usedSize, active, live, k, b, asked);
    WrapSmall(usedSize + b.size);
  }

  /** What Exact needs to know of an allocation served by pool k. */
  lemma ServedExact(
      a: Audited, b: Audited, marked: seq<PoolState>, k: nat, block: Block, asked: nat)
    requires Placed(marked, a.s.nextId, a.live) && Ledger(marked, a.s.usedSize, a.s.active, a.live) && k < |marked|
    requires block.owner == marked[k].id && block.size > 0 && block.ptr != 0
    requires Grantable(marked[k], a.live, block.ptr, block.size)
    requires b.s.pools == marked[k := Charge(marked[k], block.size, asked)] && b.s.nextId == a.s.nextId
    requires b.s.usedSize == (a.s.usedSize + block.size) % WORD && b.s.active == a.s.active + 1
    requires b.live == a.live + [block]
    ensures Exact(b)
  {
    ServedFits(marked, a.s.nextId, a.live, k, block, asked);
    ServedWrapped(marked, a.s.usedSize, a.s.active, a.live, k, block, asked);
  }

  lemma AllocServed(a: Audited, op: Operation, k: nat)
    requires Allocates(op) && Honest(a, op) && op.size > 0
    requires k == FirstServing(a.s.pools, op.kind, op.grants, 0) < |a.s.pools|
    requires var marked := MarkRefused(a.s.pools, op.kind, k);
             Placed(marked, a.s.nextId, a.live) && Ledger(marked, a.s.usedSize, a.s.active, a.live)
    ensures Exact(AuditedStep(a, op))
  {
    var marked := MarkRefused(a.s.pools, op.kind, k);
    AllocEffect(a, op, k);
    assert Grantable(a.s.pools[k], a.live, op.grants[k], op.size);
    ServedExact(a, AuditedStep(a, op), marked, k, Block(op.grants[k], marked[k].id, op.size), Asked(op));
  }

  /** Refusals keep everything. */
  lemma MarkedExact(a: Audited, marked: seq<PoolState>)
    requires Exact(a) && |a.s.pools| == |marked|
    requires forall j :: 0 <= j < |marked| ==> marked[j] == a.s.pools[j].(errors := marked[j].errors)
    ensures Placed(marked, a.s.nextId, a.live) && Ledger(marked, a.s.usedSize, a.s.active, a.live)
  {
    SameRangesPlaced(a.s.pools, marked, a.s.nextId, a.live);
    MarkedLedger(a.s.pools, marked, a.s.usedSize, a.s.active, a.live);
  }

  lemma AllocRefused(a: Audited, op: Operation)
    requires Allocates(op) && Exact(a)
    requires op.size == 0 || FirstServing(a.s.pools, op.kind, op.grants, 0) == |a.s.pools|
    ensures Exact(AuditedStep(a, op))
  {
    if op.size > 0 { MarkedExact(a, MarkRefused(a.s.pools, op.kind, |a.s.pools|)); }
  }

  lemma AllocExact(a: Audited, op: Operation)
    requires Allocates(op) && Exact(a) && Honest(a, op)
    ensures Exact(AuditedStep(a, op))
  {
    var k := FirstServing(a.s.pools, op.kind, op.grants, 0);
    if op.size == 0 || k == |a.s.pools| {
      AllocRefused(a, op);
    } else {
      MarkedExact(a, MarkRefused(a.s.pools, op.kind, k));
      AllocServed(a, op, k);
    }
  }

  /** What a free of block i leaves. */
  lemma FreeEffect(a: Audited, op: Operation, i: nat)
    requires op.Free? && Exact(a) && Honest(a, op) && i == FindPtr(a.live, op.ptr)
    ensures i < |a.live| && a.live[i].size == op.size
    ensures var k, b := FirstCovering(a.s.pools, op.ptr), AuditedStep(a, op);
            && k == FindId(a.s.pools, a.live[i].owner) < |a.s.pools|
            && b.s.pools == a.s.pools[k := Credit(a.s.pools[k], op.size)] && b.s.nextId == a.s.nextId
            && b.s.usedSize == (a.s.usedSize - op.size) % WORD && b.s.active == a.s.active - 1
            && b.live == Without(a.live, i) && b.excess == a.excess
  {
    FreeFindsOwner(a, i);
    assert Owned(a.s.pools, a.live[i]);
  }

  /** The pools after block i went back to pool k, without the block. */
  lemma FreedFits(pools: seq<PoolState>, nextId: nat, live: seq<Block>, k: nat, i: nat, size: nat)
    requires Placed(pools, nextId, live) && k < |pools| && i < |live|
    ensures Placed(pools[k := Credit(pools[k], size)], nextId, Without(live, i))
    ensures BytesOf(live, Everyone) < WORD && BytesOf(live, Pool(pools[k].id)) < WORD
    ensures forall i, j :: 0 <= i < j < |pools| ==> pools[i].id != pools[j].id
  {
    PlacedFit(pools, nextId, live, Everyone);
    PlacedFit(pools, nextId, live, Pool(pools[k].id));
    FreedPlaced(pools, nextId, live, i);
    SameRangesPlaced(pools, pools[k := Credit(pools[k], size)], nextId, Without(live, i));
  }

  lemma CreditedWrapped(pools: seq<PoolState>, usedSize: nat, active: int, live: seq<Block>, k: nat, i: nat)
    requires Ledger(pools, usedSize, active, live) && k < |pools| && i < |live| && live[i].owner == pools[k].id
    requires forall i, j :: 0 <= i < j < |pools| ==> pools[i].id != pools[j].id
    requires BytesOf(live, Everyone) < WORD && BytesOf(live, Pool(pools[k].id)) < WORD
    ensures Ledger(pools[k := Credit(pools[k], live[i].size)], (usedSize - live[i].size) % WORD, active - 1,
                   Without(live, i))
  {
    assert PoolExact(pools[k], live);
    CreditedLedger(pools, usedSize, active, live, k, i);
    WrapSmall(usedSize - live[i].size);
  }

  /** What Exact needs to know of a free of block i, which pool k owns. */
  lemma CreditedExact(a: Audited, b: Audited, k: nat, i: nat, size: nat)
    requires Exact(a) && i < |a.live| && k < |a.s.pools|
    requires a.live[i].owner == a.s.pools[k].id && a.live[i].size == size
    requires b.s.pools == a.s.pools[k := Credit(a.s.pools[k], size)] && b.s.nextId == a.s.nextId
    requires b.s.usedSize == (a.s.usedSize - size) % WORD && b.s.active == a.s.active - 1
    requires b.live == Without(a.live, i)
    ensures Exact(b)
  {
    FreedFits(a.s.pools, a.s.nextId, a.live, k, i, size);
    CreditedWrapped(a.s.pools, a.s.usedSize, a.s.active, a.live, k, i);
  }

  lemma FreeExact(a: Audited, op: Operation)
    requires op.Free? && Exact(a) && Honest(a, op)
    ensures Exact(AuditedStep(a, op))
  {
    var i, k := FindPtr(a.live, op.ptr), FirstCovering(a.s.pools, op.ptr);
    FreeEffect(a, op, i);
    CreditedExact(a, AuditedStep(a, op), k, i, op.size);
  }

  lemma CreatedLedger(pools: seq<PoolState>, usedSize: nat, active: int, live: seq<Block>, p: PoolState)
    requires Ledger(pools, usedSize, active, live) && forall x :: 0 <= x < |live| ==> live[x].owner != p.id
    requires p.used == 0 && p.active == 0 && p.free == p.total == p.size < WORD
    ensures Ledger(pools + [p], usedSize, active, live)
  {
    NoneOwned(live, Pool(p.id));
    SumsAppend(pools, p);
  }

  /** What Exact needs to know of a creation on a range of its own. */
  lemma CreatedExact(a: Audited, b: Audited, kind: nat, start: Word, size: nat)
    requires Exact(a) && start + size < WORD
    requires forall p <- a.s.pools :: start + size <= p.start || p.end <= start
    requires b == a.(s := a.s.(pools := a.s.pools + [NewPool(a.s.nextId, kind, start, size)], nextId := a.s.nextId + 1))
    ensures Exact(b)
  {
    var p := NewPool(a.s.nextId, kind, start, size);
    WrapSmall(start + size);
    assert forall i :: 0 <= i < |a.s.pools| ==> a.s.pools[i] in a.s.pools;
    CreatedPlaced(a.s.pools, a.s.nextId, a.live, p);
    CreatedLedger(a.s.pools, a.s.usedSize, a.s.active, a.live, p);
  }

  /** An id is used up without a pool. */
  lemma IdSkipped(a: Audited, b: Audited)
    requires Exact(a) && b == a.(s := a.s.(nextId := a.s.nextId + 1))
    ensures Exact(b)
  {}

  lemma CreateExact(a: Audited, op: Operation)
    requires op.CreatePool? && Exact(a) && Honest(a, op)
    ensures Exact(AuditedStep(a, op))
  {
    var b := AuditedStep(a, op);
    if b.s.pools != a.s.pools {
      CreatedExact(a, b, op.kind, op.start, op.poolSize);
    } else if b.s.nextId != a.s.nextId {
      IdSkipped(a, b);
    }
  }

  lemma DestroyedLedger(pools: seq<PoolState>, usedSize: nat, active: int, live: seq<Block>, k: nat)
    requires Ledger(pools, usedSize, active, live) && k < |pools|
    requires forall x :: 0 <= x < |live| ==> live[x].owner != pools[k].id
    ensures Ledger(Without(pools, k), usedSize, active, live)
  {
    NoneOwned(live, Pool(pools[k].id));
    assert PoolExact(pools[k], live);
    SumsWithout(pools, k);
  }

  lemma DestroyExact(a: Audited, op: Operation)
    requires op.DestroyPool? && Exact(a) && Honest(a, op)
    ensures Exact(AuditedStep(a, op))
  {
    var k := FindId(a.s.pools, op.id);
    if k < |a.s.pools| && a.s.pools[k].listed == 0 {
      CountZero(a.live, Pool(op.id));
      DestroyedPlaced(a.s.pools, a.s.nextId, a.live, k);
      DestroyedLedger(a.s.pools, a.s.usedSize, a.s.active, a.live, k);
    }
  }

  lemma ShrunkLedger(
      pools: seq<PoolState>, usedSize: nat, active: int, live: seq<Block>, k: nat, target: Word, wraps: bool)
    requires Ledger(pools, usedSize, active, live) && k < |pools|
    ensures Ledger(pools[k := Shrunk(pools[k], target, wraps).0], usedSize, active, live)
  {
    var p := pools[k];
    assert PoolExact(p, live);
    if p.used <= target { WrapSmall(target - p.used); }
    SumsUpdate(pools, k, Shrunk(p, target, wraps).0);
  }

  lemma ShrunkPlaced(pools: seq<PoolState>, nextId: nat, live: seq<Block>, k: nat, target: Word, wraps: bool)
    requires Placed(pools, nextId, live) && k < |pools|
    ensures Placed(pools[k := Shrunk(pools[k], target, wraps).0], nextId, live)
  {
    SameRangesPlaced(pools, pools[k := Shrunk(pools[k], target, wraps).0], nextId, live);
  }

  lemma ShrinkExact(a: Audited, op: Operation)
    requires op.ShrinkPool? && Exact(a)
    ensures Exact(AuditedStep(a, op))
  {
    var k := FindId(a.s.pools, op.id);
    if k < |a.s.pools| {
      ShrunkLedger(a.s.pools, a.s.usedSize, a.s.active, a.live, k, op.target, op.wraps);
      ShrunkPlaced(a.s.pools, a.s.nextId, a.live, k, op.target, op.wraps);
    }
  }

  lemma StepExact(a: Audited, op: Operation)
    requires Exact(a) && Honest(a, op)
    ensures Exact(AuditedStep(a, op))
  {
    if Allocates(op) { AllocExact(a, op); }
    else if op.Free? { FreeExact(a, op); }
    else if op.CreatePool? { CreateExact(a, op); }
    else if op.DestroyPool? { DestroyExact(a, op); }
    else { ShrinkExact(a, op); }
  }

  /** On every honest run, over any interleaving of creations, destructions, shrinks, plain and aligned
      allocations and frees: each pool's used size and active count are those of its outstanding blocks, the
      manager's counters are the sums over the pools without wrapping, outstanding blocks do not overlap, and
      each lies in the range of the pool that served it, which FreeFindsOwner then credits. */
  lemma ExactOnHonestRuns(start: Audited, ops: seq<Operation>)
    requires Fresh(start.s) && start.live == [] && Admitted(AuditedStep, Honest, start, ops)
    ensures Exact(Run(AuditedStep, start, ops))
    ensures Run(AuditedStep, start, ops).s.usedSize < WORD
  {
    forall a, op | Exact(a) && Honest(a, op) ensures Exact(AuditedStep(a, op)) { StepExact(a, op); }
    Invariant(AuditedStep, Honest, Exact, start, ops);
    var a := Run(AuditedStep, start, ops);
    PlacedFit(a.s.pools, a.s.nextId, a.live, Everyone);
  }
}
