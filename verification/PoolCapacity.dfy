/** The capacity of a pool: what it has in use never exceeds its total, derived from where its blocks lie, and
    the exact condition under which shrinking the pool keeps this. */
module PoolCapacity {
  import opened MachineWords
  import opened Intervals
  import opened Lists
  import opened Runs
  import opened PoolLedger
  import opened PoolAudit

  /** The addresses that the pool's page source may still grant, or that the pool's blocks occupy. Address 0 is
      the null pointer and never granted. */
  ghost function Reach(p: PoolState, live: seq<Block>): set<int> {
    Interval(Max(1, p.start), p.top) + AddressesOf(live, Pool(p.id))
  }

  /** All of that fits the pool's total. */
  ghost predicate Roomy(p: PoolState, live: seq<Block>) {
    |Reach(p, live)| <= p.total
  }

  ghost predicate RoomyIn(pools: seq<PoolState>, live: seq<Block>, id: nat) {
    forall i :: 0 <= i < |pools| && pools[i].id == id ==> Roomy(pools[i], live)
  }

  ghost predicate RoomyAt(a: Audited, id: nat) {
    RoomyIn(a.s.pools, a.live, id)
  }

  /** The same pool but for its ledger. */
  predicate SamePool(p: PoolState, q: PoolState) {
    && p.id == q.id && p.kind == q.kind && p.start == q.start && p.end == q.end
    && p.top == q.top && p.total == q.total
  }

  ghost predicate SamePools(a: seq<PoolState>, b: seq<PoolState>) {
    |a| == |b| && forall i :: 0 <= i < |a| ==> SamePool(a[i], b[i])
  }

  /** The pool with this id uses no more than its total. */
  ghost predicate FitsAt(a: Audited, id: nat) {
    forall i :: 0 <= i < |a.s.pools| && a.s.pools[i].id == id ==> a.s.pools[i].used <= a.s.pools[i].total
  }

  lemma RoomyFits(p: PoolState, live: seq<Block>)
    requires BlocksApart(live) && PoolExact(p, live) && Roomy(p, live)
    ensures p.used <= p.total && p.used + p.free == p.total
  {
    BlocksSize(live, Pool(p.id));
    SubsetSize(AddressesOf(live, Pool(p.id)), Reach(p, live));
    WrapSmall(p.total - p.used);
  }

  // ---- The steps ------------------------------------------------------------------------------

  lemma {:induction false} AddressesAppend(live: seq<Block>, b: Block, w: Whose)
    ensures AddressesOf(live + [b], w)
            == AddressesOf(live, w) + if Belongs(b, w) then Interval(b.ptr, b.ptr + b.size) else {}
  {
    assert !Belongs(b, w) ==> Interval(b.ptr, b.ptr) == {};
    if live == [] {
      assert (live + [b])[1..] == [];
    } else {
      AddressesAppend(live[1..], b, w);
      assert (live + [b])[1..] == live[1..] + [b];
    }
  }

  lemma AddressesWithout(live: seq<Block>, i: nat, w: Whose)
    requires i < |live|
    ensures AddressesOf(Without(live, i), w) <= AddressesOf(live, w)
  {
    var fewer := Without(live, i);
    forall x | x in AddressesOf(fewer, w) ensures x in AddressesOf(live, w) {
      BlocksHold(fewer, w, x);
      BlocksHold(live, w, x);
      var j :| 0 <= j < |fewer| && Belongs(fewer[j], w) && InBlock(fewer[j], x);
      assert fewer[j] == live[if j < i then j else j + 1];
    }
  }

  /** A block granted to a pool lies in its reach already; a block of another pool is not of its reach. */
  lemma ServedReach(p: PoolState, q: PoolState, live: seq<Block>, b: Block)
    requires q.id == p.id && q.start == p.start && q.top == p.top
    requires b.owner == p.id ==> b.ptr != 0 && Grantable(p, live, b.ptr, b.size)
    ensures Reach(q, live + [b]) == Reach(p, live)
  {
    AddressesAppend(live, b, Pool(p.id));
  }

  /** One more block, in the pools with its owner's id. */
  lemma ServedRoomy(pools: seq<PoolState>, after: seq<PoolState>, live: seq<Block>, b: Block, id: nat)
    requires SamePools(pools, after) && RoomyIn(pools, live, id) && b.ptr != 0
    requires forall i :: 0 <= i < |pools| && pools[i].id == b.owner ==> Grantable(pools[i], live, b.ptr, b.size)
    ensures RoomyIn(after, live + [b], id)
  {
    forall i | 0 <= i < |after| && after[i].id == id ensures Roomy(after[i], live + [b]) {
      assert SamePool(pools[i], after[i]) && Roomy(pools[i], live);
      ServedReach(pools[i], after[i], live, b);
    }
  }

  /** Blocks that are gone. */
  lemma FewerRoomy(pools: seq<PoolState>, after: seq<PoolState>, live: seq<Block>, i: nat, id: nat)
    requires SamePools(pools, after) && RoomyIn(pools, live, id) && i < |live|
    ensures RoomyIn(after, Without(live, i), id)
  {
    forall j | 0 <= j < |after| && after[j].id == id ensures Roomy(after[j], Without(live, i)) {
      assert SamePool(pools[j], after[j]) && Roomy(pools[j], live);
      AddressesWithout(live, i, Pool(id));
      SubsetSize(Reach(after[j], Without(live, i)), Reach(pools[j], live));
    }
  }

  lemma SameRoomy(pools: seq<PoolState>, after: seq<PoolState>, live: seq<Block>, id: nat)
    requires SamePools(pools, after) && RoomyIn(pools, live, id)
    ensures RoomyIn(after, live, id)
  {
    forall j | 0 <= j < |after| && after[j].id == id ensures Roomy(after[j], live) {
      assert SamePool(pools[j], after[j]) && Roomy(pools[j], live);
      assert Reach(after[j], live) == Reach(pools[j], live);
    }
  }

  lemma AllocServedRoomy(a: Audited, op: Operation, k: nat, id: nat)
    requires Allocates(op) && Honest(a, op) && RoomyAt(a, id) && op.size > 0
    requires k == FirstServing(a.s.pools, op.kind, op.grants, 0) < |a.s.pools|
    requires forall i :: 0 <= i < |a.s.pools| && i != k ==> a.s.pools[i].id != a.s.pools[k].id
    ensures RoomyAt(AuditedStep(a, op), id)
  {
    var b := AuditedStep(a, op);
    AllocEffect(a, op, k);
    assert Grantable(a.s.pools[k], a.live, op.grants[k], op.size);
    ServedRoomy(a.s.pools, b.s.pools, a.live, Block(op.grants[k], a.s.pools[k].id, op.size), id);
  }

  lemma AllocRoomy(a: Audited, op: Operation, id: nat)
    requires Allocates(op) && Honest(a, op) && RoomyAt(a, id)
    requires forall i, j :: 0 <= i < j < |a.s.pools| ==> a.s.pools[i].id != a.s.pools[j].id
    ensures RoomyAt(AuditedStep(a, op), id)
  {
    var k := FirstServing(a.s.pools, op.kind, op.grants, 0);
    if op.size > 0 && k < |a.s.pools| {
      AllocServedRoomy(a, op, k, id);
    } else {
      SameRoomy(a.s.pools, AuditedStep(a, op).s.pools, a.live, id);
    }
  }

  lemma FreeRoomy(a: Audited, op: Operation, id: nat)
    requires op.Free? && Exact(a) && Honest(a, op) && RoomyAt(a, id)
    ensures RoomyAt(AuditedStep(a, op), id)
  {
    var i, b := FindPtr(a.live, op.ptr), AuditedStep(a, op);
    FreeEffect(a, op, i);
    FewerRoomy(a.s.pools, b.s.pools, a.live, i, id);
  }

  /** A new pool can reach its range and no more. */
  lemma NewPoolRoomy(id: nat, kind: nat, start: Word, size: nat, live: seq<Block>)
    requires start + size < WORD && forall x :: 0 <= x < |live| ==> live[x].owner != id
    ensures Roomy(NewPool(id, kind, start, size), live)
  {
    var p := NewPool(id, kind, start, size);
    WrapSmall(start + size);
    NoneOwned(live, Pool(id));
    IntervalSize(Max(1, start), start + size);
    assert Reach(p, live) == Interval(Max(1, start), start + size);
  }

  lemma CreateRoomy(a: Audited, op: Operation, id: nat)
    requires op.CreatePool? && Honest(a, op) && RoomyAt(a, id)
    requires forall x :: 0 <= x < |a.live| ==> a.live[x].owner != a.s.nextId
    ensures RoomyAt(AuditedStep(a, op), id)
  {
    NewPoolRoomy(a.s.nextId, op.kind, op.start, op.poolSize, a.live);
  }

  lemma OwnersExist(a: Audited)
    requires Exact(a)
    ensures forall x :: 0 <= x < |a.live| ==> a.live[x].owner != a.s.nextId
  {
    forall x | 0 <= x < |a.live| ensures a.live[x].owner != a.s.nextId { assert Owned(a.s.pools, a.live[x]); }
  }

  /** If the operation shrinks a pool, the pool's reach fits the target. */
  ghost predicate ShrinksRoomily(a: Audited, op: Operation) {
    op.ShrinkPool? && Shrink(a.s, op.id, op.target, op.wraps).1.Success? ==>
      |Reach(Shrunk(a.s.pools[FindId(a.s.pools, op.id)], op.target, op.wraps).0, a.live)| <= op.target
  }

  lemma ReplacedRoomy(pools: seq<PoolState>, live: seq<Block>, k: nat, q: PoolState, id: nat)
    requires k < |pools| && RoomyIn(pools, live, id) && q.id == pools[k].id && (q.id == id ==> Roomy(q, live))
    ensures RoomyIn(pools[k := q], live, id)
  {}

  lemma ShrinkRoomy(a: Audited, op: Operation, id: nat)
    requires op.ShrinkPool? && RoomyAt(a, id) && (op.id == id ==> ShrinksRoomily(a, op))
    requires forall i :: 0 <= i < |a.s.pools| ==> a.s.pools[i].total == a.s.pools[i].size
    ensures RoomyAt(AuditedStep(a, op), id)
  {
    var k := FindId(a.s.pools, op.id);
    if k < |a.s.pools| {
      ReplacedRoomy(a.s.pools, a.live, k, Shrunk(a.s.pools[k], op.target, op.wraps).0, id);
    }
  }

  lemma TotalsAreSizes(a: Audited)
    requires Exact(a)
    ensures forall i :: 0 <= i < |a.s.pools| ==> a.s.pools[i].total == a.s.pools[i].size
  {
    forall i | 0 <= i < |a.s.pools| ensures a.s.pools[i].total == a.s.pools[i].size {
      assert PoolExact(a.s.pools[i], a.live);
    }
  }

  lemma StepRoomy(a: Audited, op: Operation, id: nat)
    requires Exact(a) && Honest(a, op) && RoomyAt(a, id) && ShrinksRoomily(a, op)
    ensures RoomyAt(AuditedStep(a, op), id)
  {
    if Allocates(op) { AllocRoomy(a, op, id); }
    else if op.Free? { FreeRoomy(a, op, id); }
    else if op.CreatePool? {
      OwnersExist(a);
      CreateRoomy(a, op, id);
    }
    else if op.ShrinkPool? {
      TotalsAreSizes(a);
      ShrinkRoomy(a, op, id);
    }
  }

  // ---- Runs -----------------------------------------------------------------------------------

  /** An honest operation that does not shrink a pool below its reach. */
  ghost predicate Considerate(a: Audited, op: Operation) {
    Honest(a, op) && ShrinksRoomily(a, op)
  }

  ghost predicate ExactAndRoomy(a: Audited) {
    Exact(a) && forall id: nat :: RoomyAt(a, id)
  }

  /** On every honest run whose shrinks leave each pool's reach within its target, every pool keeps
      used <= total and used + free = total, without wrapping. Nothing is assumed of the ledgers: the page
      sources grant unoccupied ranges of their own memory, and the bound follows from where the blocks lie. */
  lemma CapacityOnHonestRuns(start: Audited, ops: seq<Operation>)
    requires Fresh(start.s) && start.live == [] && Admitted(AuditedStep, Considerate, start, ops)
    ensures var a := Run(AuditedStep, start, ops);
            Exact(a) && forall i :: 0 <= i < |a.s.pools| ==>
              a.s.pools[i].used <= a.s.pools[i].total && a.s.pools[i].used + a.s.pools[i].free == a.s.pools[i].total
  {
    forall a, op | ExactAndRoomy(a) && Considerate(a, op) ensures ExactAndRoomy(AuditedStep(a, op)) {
      StepExact(a, op);
      forall id: nat ensures RoomyAt(AuditedStep(a, op), id) { StepRoomy(a, op, id); }
    }
    Invariant(AuditedStep, Considerate, ExactAndRoomy, start, ops);
    var a := Run(AuditedStep, start, ops);
    forall i | 0 <= i < |a.s.pools|
      ensures a.s.pools[i].used <= a.s.pools[i].total && a.s.pools[i].used + a.s.pools[i].free == a.s.pools[i].total
    {
      assert RoomyAt(a, a.s.pools[i].id) && PoolExact(a.s.pools[i], a.live);
      RoomyFits(a.s.pools[i], a.live);
    }
  }

  // ---- Exactly when a pool keeps its capacity -------------------------------------------------

  /** An honest operation other than a shrink. */
  predicate HonestUse(a: Audited, op: Operation) {
    Honest(a, op) && !op.ShrinkPool?
  }

  /** However the pools are used from here on, the pool with this id never uses more than its total. */
  ghost predicate AlwaysFits(a: Audited, id: nat) {
    forall ops: seq<Operation> :: Admitted(AuditedStep, HonestUse, a, ops) ==> FitsAt(Run(AuditedStep, a, ops), id)
  }

  lemma {:induction false} StaysRoomy(a: Audited, id: nat, ops: seq<Operation>)
    requires Exact(a) && RoomyAt(a, id) && Admitted(AuditedStep, HonestUse, a, ops)
    ensures FitsAt(Run(AuditedStep, a, ops), id)
    decreases ops
  {
    if ops == [] {
      forall i | 0 <= i < |a.s.pools| && a.s.pools[i].id == id ensures a.s.pools[i].used <= a.s.pools[i].total {
        assert PoolExact(a.s.pools[i], a.live);
        RoomyFits(a.s.pools[i], a.live);
      }
    } else {
      StepExact(a, ops[0]);
      StepRoomy(a, ops[0], id);
      StaysRoomy(AuditedStep(a, ops[0]), id, ops[1..]);
    }
  }

  /** The request that takes the range at address x from pool k. */
  function Take(a: Audited, k: nat, x: nat, size: Word): Operation
    requires k < |a.s.pools|
  {
    Alloc(size, a.s.pools[k].kind, seq(k + 1, i => if i == k then x else 0))
  }

  lemma TakeServed(a: Audited, k: nat, x: nat, size: Word)
    requires k < |a.s.pools| && x != 0
    ensures var op := Take(a, k, x, size);
            && FirstServing(a.s.pools, op.kind, op.grants, 0) == k && GrantAt(op.grants, k) == x
            && forall i :: 0 <= i < |a.s.pools| && i != k ==> GrantAt(op.grants, i) == 0
  {}

  ghost function Unoccupied(p: PoolState, live: seq<Block>): set<int> {
    Interval(Max(1, p.start), p.top) - AddressesOf(live, Pool(p.id))
  }

  /** An unoccupied address of the pool lies in no outstanding block. */
  lemma UnoccupiedIsFree(a: Audited, k: nat, x: nat)
    requires Exact(a) && k < |a.s.pools| && x in Unoccupied(a.s.pools[k], a.live)
    ensures Grantable(a.s.pools[k], a.live, x, 1)
  {
    var p := a.s.pools[k];
    BlocksHold(a.live, Pool(p.id), x);
    forall i | 0 <= i < |a.live| ensures a.live[i].ptr + a.live[i].size <= x || x + 1 <= a.live[i].ptr {
      assert Owned(a.s.pools, a.live[i]);
    }
  }

  lemma TakeByteHonest(a: Audited, k: nat, x: nat)
    requires Exact(a) && k < |a.s.pools| && x in Unoccupied(a.s.pools[k], a.live)
    ensures HonestUse(a, Take(a, k, x, 1))
  {
    UnoccupiedIsFree(a, k, x);
    TakeServed(a, k, x, 1);
  }

  /** The pools stay what they are, and pool k has one more block. */
  lemma TakeEffect(a: Audited, k: nat, x: nat, size: Word)
    requires k < |a.s.pools| && x != 0 && size > 0
    ensures var b := AuditedStep(a, Take(a, k, x, size));
            SamePools(a.s.pools, b.s.pools) && b.live == a.live + [Block(x, a.s.pools[k].id, size)]
  {
    TakeServed(a, k, x, size);
    AllocEffect(a, Take(a, k, x, size), k);
  }

  /** The reach stays, and one address less is unoccupied. */
  lemma TakenReach(p: PoolState, q: PoolState, live: seq<Block>, x: nat)
    requires SamePool(p, q) && x in Unoccupied(p, live) && Grantable(p, live, x, 1)
    ensures var more := live + [Block(x, p.id, 1)];
            Reach(q, more) == Reach(p, live) && Unoccupied(q, more) == Unoccupied(p, live) - {x}
  {
    var block := Block(x, p.id, 1);
    ServedReach(p, q, live, block);
    AddressesAppend(live, block, Pool(p.id));
    assert Interval(x, x + 1) == {x};
  }

  lemma TakeByteEffect(a: Audited, k: nat, x: nat)
    requires Exact(a) && k < |a.s.pools| && x in Unoccupied(a.s.pools[k], a.live)
    ensures var b := AuditedStep(a, Take(a, k, x, 1));
            && SamePools(a.s.pools, b.s.pools)
            && Reach(b.s.pools[k], b.live) == Reach(a.s.pools[k], a.live)
            && Unoccupied(b.s.pools[k], b.live) == Unoccupied(a.s.pools[k], a.live) - {x}
  {
    UnoccupiedIsFree(a, k, x);
    TakeEffect(a, k, x, 1);
    TakenReach(a.s.pools[k], AuditedStep(a, Take(a, k, x, 1)).s.pools[k], a.live, x);
  }

  /** By allocating address after address the pool can be filled until it uses its whole reach. */
  lemma {:induction false} Fill(a: Audited, k: nat) returns (ops: seq<Operation>)
    requires Exact(a) && k < |a.s.pools|
    ensures Admitted(AuditedStep, HonestUse, a, ops)
    ensures var b := Run(AuditedStep, a, ops);
            && k < |b.s.pools| && b.s.pools[k].id == a.s.pools[k].id && b.s.pools[k].total == a.s.pools[k].total
            && b.s.pools[k].used == |Reach(a.s.pools[k], a.live)|
    decreases Unoccupied(a.s.pools[k], a.live)
  {
    var p := a.s.pools[k];
    if Unoccupied(p, a.live) != {} {
      var x: int :| x in Unoccupied(p, a.live);
      var op := Take(a, k, x, 1);
      TakeByteHonest(a, k, x);
      TakeByteEffect(a, k, x);
      StepExact(a, op);
      var rest := Fill(AuditedStep(a, op), k);
      ops := [op] + rest;
      RunCons(AuditedStep, HonestUse, a, op, rest);
    } else {
      ops := [];
      forall x | x in Interval(Max(1, p.start), p.top) ensures x in AddressesOf(a.live, Pool(p.id)) {
        assert x !in Unoccupied(p, a.live);
      }
      assert Reach(p, a.live) == AddressesOf(a.live, Pool(p.id));
      BlocksSize(a.live, Pool(p.id));
      assert PoolExact(p, a.live);
    }
  }

  /** A pool keeps its capacity in every use to come if and only if its reach fits its total. */
  lemma CapacityExactly(a: Audited, k: nat)
    requires Exact(a) && k < |a.s.pools|
    ensures AlwaysFits(a, a.s.pools[k].id) <==> Roomy(a.s.pools[k], a.live)
  {
    var id := a.s.pools[k].id;
    if Roomy(a.s.pools[k], a.live) {
      assert RoomyAt(a, id);
      forall ops: seq<Operation> | Admitted(AuditedStep, HonestUse, a, ops)
        ensures FitsAt(Run(AuditedStep, a, ops), id)
      {
        StaysRoomy(a, id, ops);
      }
    } else {
      var ops := Fill(a, k);
      assert !FitsAt(Run(AuditedStep, a, ops), id);
    }
  }
}
