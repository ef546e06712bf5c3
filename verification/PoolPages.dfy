/** Shrinking a pool whose page source grants whole pages only: the condition for keeping the capacity is the same,
    and the run that breaks it needs no more than frees and requests for single pages. */
module PoolPages {
  import opened MachineWords
  import opened Alignment
  import opened Intervals
  import opened Lists
  import opened Runs
  import opened PoolLedger
  import opened PoolAudit
  import opened PoolCapacity
  import opened PoolShrink

  /** The source grants pages of the pool that no outstanding block has. */
  predicate PageGrant(p: PoolState, live: seq<Block>, ptr: nat, asked: nat) {
    && p.start <= ptr && (ptr - p.start) % PAGE_SIZE == 0 && ptr + PAGE_SIZE * Pages(asked) <= p.top
    && forall i :: 0 <= i < |live| ==>
         live[i].ptr + PAGE_SIZE * Pages(live[i].size) <= ptr || ptr + PAGE_SIZE * Pages(asked) <= live[i].ptr
  }

  /** An honest operation other than a shrink, with page sources that grant whole pages. */
  predicate PagedUse(a: Audited, op: Operation) {
    && HonestUse(a, op)
    && (Allocates(op) ==> forall i :: 0 <= i < |a.s.pools| && GrantAt(op.grants, i) != 0 ==>
          PageGrant(a.s.pools[i], a.live, GrantAt(op.grants, i), Asked(op)))
  }

  ghost predicate AlwaysFitsPaged(a: Audited, id: nat) {
    forall ops: seq<Operation> :: Admitted(AuditedStep, PagedUse, a, ops) ==> FitsAt(Run(AuditedStep, a, ops), id)
  }

  /** The pages of each block lie in the range of its pool. */
  predicate PagesInside(pools: seq<PoolState>, b: Block) {
    var k := FindId(pools, b.owner);
    k < |pools| && b.ptr + PAGE_SIZE * Pages(b.size) <= pools[k].end
  }

  ghost predicate AllInside(pools: seq<PoolState>, live: seq<Block>) {
    forall i :: 0 <= i < |live| ==> PagesInside(pools, live[i])
  }

  lemma SameRangesInside(a: seq<PoolState>, b: seq<PoolState>, x: Block)
    requires SameRanges(a, b) && PagesInside(a, x)
    ensures PagesInside(b, x)
  {
    assert FindId(b, x.owner) == FindId(a, x.owner);
  }

  // ---- Freeing all blocks of a pool but one ---------------------------------------------------

  /** Pool k has this block, and the pages of all blocks lie in their pools. */
  ghost predicate Keeping(pools: seq<PoolState>, live: seq<Block>, k: nat, kept: Block) {
    AllInside(pools, live) && k < |pools| && kept in live && kept.owner == pools[k].id
  }

  lemma FindsIt(a: Audited, i: nat)
    requires Exact(a) && i < |a.live|
    ensures FindPtr(a.live, a.live[i].ptr) == i
    ensures a.live[i].ptr != 0 && 0 < a.live[i].size < WORD
  {
    assert Owned(a.s.pools, a.live[i]);
    var j := FindPtr(a.live, a.live[i].ptr);
    assert Owned(a.s.pools, a.live[j]);
  }

  /** What stays after the free of another block. */
  lemma OthersInside(
      pools: seq<PoolState>, after: seq<PoolState>, live: seq<Block>, i: nat, kept: Block)
    requires SameRanges(pools, after) && i < |live| && kept in live && live[i] != kept
    requires forall x :: 0 <= x < |live| ==> PagesInside(pools, live[x])
    ensures kept in Without(live, i)
    ensures forall x :: 0 <= x < |Without(live, i)| ==> PagesInside(after, Without(live, i)[x])
  {
    var j :| 0 <= j < |live| && live[j] == kept;
    WithoutKeeps(live, i, j);
    forall x | 0 <= x < |live| ensures PagesInside(after, live[x]) { SameRangesInside(pools, after, live[x]); }
  }

  /** The free of block i. */
  lemma FreeOneEffect(a: Audited, i: nat)
    requires Exact(a) && i < |a.live| && FindPtr(a.live, a.live[i].ptr) == i && a.live[i].size < WORD
    ensures var op := Free(a.live[i].ptr, a.live[i].size);
            var b := AuditedStep(a, op);
            && PagedUse(a, op) && Exact(b) && b.live == Without(a.live, i)
            && SamePools(a.s.pools, b.s.pools)
  {
    var op := Free(a.live[i].ptr, a.live[i].size);
    FreeEffect(a, op, i);
    FreeExact(a, op);
  }

  lemma FreeOne(a: Audited, k: nat, kept: Block, i: nat)
    requires Exact(a) && Keeping(a.s.pools, a.live, k, kept) && i < |a.live| && a.live[i] != kept
    ensures a.live[i].size < WORD
    ensures var op := Free(a.live[i].ptr, a.live[i].size);
            var b := AuditedStep(a, op);
            && PagedUse(a, op) && b.live == Without(a.live, i) && Exact(b) && Keeping(b.s.pools, b.live, k, kept)
            && |b.s.pools| == |a.s.pools| && SamePool(a.s.pools[k], b.s.pools[k])
  {
    FindsIt(a, i);
    FreeOneEffect(a, i);
    var b := AuditedStep(a, Free(a.live[i].ptr, a.live[i].size));
    OthersInside(a.s.pools, b.s.pools, a.live, i, kept);
  }

  lemma {:induction false} FreeOthers(a: Audited, k: nat, kept: Block) returns (ops: seq<Operation>)
    requires Exact(a) && Keeping(a.s.pools, a.live, k, kept)
    ensures Admitted(AuditedStep, PagedUse, a, ops)
    ensures var b := Run(AuditedStep, a, ops);
            && Exact(b) && Keeping(b.s.pools, b.live, k, kept) && SamePool(a.s.pools[k], b.s.pools[k])
            && forall i :: 0 <= i < |b.live| && b.live[i].owner == kept.owner ==> b.live[i] == kept
    decreases |a.live|
  {
    if i: nat :| i < |a.live| && a.live[i].owner == kept.owner && a.live[i] != kept {
      FreeOne(a, k, kept, i);
      var op := Free(a.live[i].ptr, a.live[i].size);
      var rest := FreeOthers(AuditedStep(a, op), k, kept);
      ops := [op] + rest;
      RunCons(AuditedStep, PagedUse, a, op, rest);
    } else {
      ops := [];
    }
  }

  // ---- Filling the pages below it -------------------------------------------------------------

  /** The blocks of pool p are `kept` and blocks of one page each among its first m pages; the pages of the other
      blocks lie outside of its range. */
  ghost predicate Filled(p: PoolState, live: seq<Block>, kept: Block, m: nat) {
    && kept.owner == p.id
    && (forall i :: 0 <= i < |live| && live[i] != kept ==>
          if live[i].owner == p.id then
            live[i].size == PAGE_SIZE && live[i].ptr + PAGE_SIZE <= p.start + PAGE_SIZE * m
          else live[i].ptr + PAGE_SIZE * Pages(live[i].size) <= p.start || p.end <= live[i].ptr)
    && BytesOf(live, Pool(p.id)) >= kept.size + PAGE_SIZE * m
  }

  /** There is room for `cut` pages below the block and below the top. */
  predicate Below(p: PoolState, kept: Block, cut: nat) {
    0 < p.start && p.start + PAGE_SIZE * cut <= p.top <= p.end && p.start + PAGE_SIZE * cut <= kept.ptr
  }

  lemma {:induction false} KeptCounts(live: seq<Block>, kept: Block)
    requires kept in live
    ensures BytesOf(live, Pool(kept.owner)) >= kept.size
  {
    if live[0] != kept { KeptCounts(live[1..], kept); }
  }

  lemma NextPage(start: nat, m: nat)
    ensures (start + PAGE_SIZE * m - start) % PAGE_SIZE == 0 && Pages(PAGE_SIZE) == 1
  {
    DivModUnique(PAGE_SIZE * m, PAGE_SIZE, m, 0);
  }

  /** Page m is free. */
  lemma NextPageIsFree(p: PoolState, live: seq<Block>, kept: Block, m: nat)
    requires Filled(p, live, kept, m) && Below(p, kept, m + 1)
    ensures PageGrant(p, live, p.start + PAGE_SIZE * m, PAGE_SIZE)
    ensures Grantable(p, live, p.start + PAGE_SIZE * m, PAGE_SIZE)
  {
    NextPage(p.start, m);
    forall i | 0 <= i < |live|
      ensures live[i].size <= PAGE_SIZE * Pages(live[i].size)
      ensures live[i].ptr + PAGE_SIZE * Pages(live[i].size) <= p.start + PAGE_SIZE * m
              || p.start + PAGE_SIZE * (m + 1) <= live[i].ptr
    {
      assert live[i] == kept || live[i] != kept;
    }
  }

  /** One more page in use. */
  lemma MoreFilled(p: PoolState, live: seq<Block>, kept: Block, m: nat)
    requires Filled(p, live, kept, m)
    ensures Filled(p, live + [Block(p.start + PAGE_SIZE * m, p.id, PAGE_SIZE)], kept, m + 1)
  {
    LiveAppend(live, Block(p.start + PAGE_SIZE * m, p.id, PAGE_SIZE), Pool(p.id));
  }

  /** Pool k is p, with its first m pages filled. */
  ghost predicate Stage(a: Audited, k: nat, p: PoolState, kept: Block, m: nat) {
    k < |a.s.pools| && SamePool(p, a.s.pools[k]) && Filled(p, a.live, kept, m)
  }

  function TakePage(a: Audited, k: nat, m: nat): Operation {
    if k < |a.s.pools| then Take(a, k, a.s.pools[k].start + PAGE_SIZE * m, PAGE_SIZE) else DestroyPool(0)
  }

  lemma StageUse(a: Audited, k: nat, p: PoolState, kept: Block, m: nat)
    requires Stage(a, k, p, kept, m) && Below(p, kept, m + 1)
    ensures PagedUse(a, TakePage(a, k, m))
  {
    NextPageIsFree(p, a.live, kept, m);
    TakeServed(a, k, p.start + PAGE_SIZE * m, PAGE_SIZE);
  }

  lemma StageNext(a: Audited, k: nat, p: PoolState, kept: Block, m: nat)
    requires Stage(a, k, p, kept, m) && Below(p, kept, m + 1)
    ensures Stage(AuditedStep(a, TakePage(a, k, m)), k, p, kept, m + 1)
  {
    TakeEffect(a, k, p.start + PAGE_SIZE * m, PAGE_SIZE);
    MoreFilled(p, a.live, kept, m);
    assert SamePool(a.s.pools[k], AuditedStep(a, TakePage(a, k, m)).s.pools[k]);
  }

  lemma FillPages(a: Audited, k: nat, p: PoolState, kept: Block, cut: nat) returns (ops: seq<Operation>)
    requires Stage(a, k, p, kept, 0) && Below(p, kept, cut)
    ensures Admitted(AuditedStep, PagedUse, a, ops) && Stage(Run(AuditedStep, a, ops), k, p, kept, cut)
  {
    var stage := (t: Audited, i: nat) => Stage(t, k, p, kept, i);
    var choose := (t: Audited, i: nat) => TakePage(t, k, i);
    forall t, i: nat | i < cut && stage(t, i)
      ensures PagedUse(t, choose(t, i)) && stage(AuditedStep(t, choose(t, i)), i + 1)
    {
      StageUse(t, k, p, kept, i);
      StageNext(t, k, p, kept, i);
    }
    ops := Stages(AuditedStep, PagedUse, stage, choose, a, 0, cut);
  }

  lemma ExactAfter(a: Audited, ops: seq<Operation>)
    requires Exact(a) && Admitted(AuditedStep, PagedUse, a, ops)
    ensures Exact(Run(AuditedStep, a, ops))
  {
    forall t, op | Exact(t) && PagedUse(t, op) ensures Exact(AuditedStep(t, op)) { StepExact(t, op); }
    Invariant(AuditedStep, PagedUse, Exact, a, ops);
  }

  // ---- The condition --------------------------------------------------------------------------

  /** How many pages lie free below the block and below the top. */
  function FreeBelow(p: PoolState, kept: Block): (cut: nat)
    requires p.start <= kept.ptr
  {
    if kept.ptr >= p.start + p.total then p.total / PAGE_SIZE else (kept.ptr - p.start) / PAGE_SIZE
  }

  lemma FreeBelowValue(p: PoolState, kept: Block)
    requires p.start <= kept.ptr && p.total % PAGE_SIZE == 0 && (kept.ptr - p.start) % PAGE_SIZE == 0
    ensures PAGE_SIZE * FreeBelow(p, kept) == if kept.ptr >= p.start + p.total then p.total else kept.ptr - p.start
  {}

  /** The pages of the blocks of other pools lie outside of pool k. */
  lemma StartsFilled(a: Audited, k: nat, p: PoolState, kept: Block)
    requires Exact(a) && Keeping(a.s.pools, a.live, k, kept) && SamePool(p, a.s.pools[k])
    requires forall i :: 0 <= i < |a.live| && a.live[i].owner == kept.owner ==> a.live[i] == kept
    ensures Stage(a, k, p, kept, 0) && p.top <= p.end
  {
    KeptCounts(a.live, kept);
    forall i | 0 <= i < |a.live| && a.live[i].owner != p.id
      ensures a.live[i].ptr + PAGE_SIZE * Pages(a.live[i].size) <= p.start || p.end <= a.live[i].ptr
    {
      assert Owned(a.s.pools, a.live[i]) && PagesInside(a.s.pools, a.live[i]);
      var j := FindId(a.s.pools, a.live[i].owner);
      assert j != k;
    }
  }

  /** With that block as its only one the pool can be filled beyond its total. */
  lemma AloneOverflows(b: Audited, k: nat, p: PoolState, kept: Block) returns (ops: seq<Operation>)
    requires Exact(b) && Keeping(b.s.pools, b.live, k, kept) && SamePool(p, b.s.pools[k])
    requires forall i :: 0 <= i < |b.live| && b.live[i].owner == kept.owner ==> b.live[i] == kept
    requires 0 < p.start <= kept.ptr && p.top == p.start + p.total && p.total % PAGE_SIZE == 0
    requires (kept.ptr - p.start) % PAGE_SIZE == 0 && kept.ptr + kept.size > p.top
    ensures Admitted(AuditedStep, PagedUse, b, ops) && !FitsAt(Run(AuditedStep, b, ops), p.id)
  {
    StartsFilled(b, k, p, kept);
    FreeBelowValue(p, kept);
    ops := FillPages(b, k, p, kept, FreeBelow(p, kept));
    ExactAfter(b, ops);
    FilledOverflows(Run(AuditedStep, b, ops), k, p, kept, FreeBelow(p, kept));
  }

  /** Around a block that reaches past the top, the pool can be filled beyond its total. */
  lemma PastOverflows(a: Audited, k: nat, kept: Block) returns (ops: seq<Operation>)
    requires Exact(a) && Keeping(a.s.pools, a.live, k, kept)
    requires var p := a.s.pools[k];
             && 0 < p.start <= kept.ptr && p.top == p.start + p.total && p.total % PAGE_SIZE == 0
             && (kept.ptr - p.start) % PAGE_SIZE == 0 && kept.ptr + kept.size > p.top
    ensures Admitted(AuditedStep, PagedUse, a, ops) && !FitsAt(Run(AuditedStep, a, ops), a.s.pools[k].id)
  {
    var first := FreeOthers(a, k, kept);
    var second := AloneOverflows(Run(AuditedStep, a, first), k, a.s.pools[k], kept);
    RunsJoin(AuditedStep, PagedUse, a, first, second);
    ops := first + second;
  }

  lemma FilledOverflows(c: Audited, k: nat, p: PoolState, kept: Block, m: nat)
    requires Exact(c) && Stage(c, k, p, kept, m) && kept.size + PAGE_SIZE * m > p.total
    ensures !FitsAt(c, p.id)
  {
    assert PoolExact(c.s.pools[k], c.live);
    assert c.s.pools[k].used > c.s.pools[k].total;
  }

  lemma ShrunkInside(a: Audited, k: nat, target: Word, wraps: bool)
    requires Exact(a) && AllInside(a.s.pools, a.live) && k < |a.s.pools| && a.s.pools[k].used <= target
    ensures var b := Shrinking(a, k, target, wraps); AllInside(b.s.pools, b.live)
  {
    var b := Shrinking(a, k, target, wraps);
    ShrinkingEffect(a, k, target, wraps);
    forall x | 0 <= x < |b.live| ensures PagesInside(b.s.pools, b.live[x]) {
      SameRangesInside(a.s.pools, b.s.pools, a.live[x]);
    }
  }

  /** A block past the target of a first shrink lets the shrunk pool overflow. */
  lemma PastTargetOverflows(a: Audited, k: nat, target: Word, wraps: bool, i: nat) returns (ops: seq<Operation>)
    requires Exact(a) && AllInside(a.s.pools, a.live) && k < |a.s.pools|
    requires a.s.pools[k].used <= target < a.s.pools[k].size
    requires var p := a.s.pools[k]; 0 < p.start && p.top == p.end && p.size == p.end - p.start
    requires target % PAGE_SIZE == 0 && i < |a.live| && a.live[i].owner == a.s.pools[k].id
    requires var p, x := a.s.pools[k], a.live[i];
             x.ptr >= p.start && (x.ptr - p.start) % PAGE_SIZE == 0 && x.ptr + x.size > p.start + target
    ensures var b := Shrinking(a, k, target, wraps);
            Admitted(AuditedStep, PagedUse, b, ops) && !FitsAt(Run(AuditedStep, b, ops), a.s.pools[k].id)
  {
    var b := Shrinking(a, k, target, wraps);
    ShrinkingEffect(a, k, target, wraps);
    ShrunkInside(a, k, target, wraps);
    ops := PastOverflows(b, k, a.live[i]);
  }

  /** The condition of FirstShrinkExactly holds for page sources that grant whole pages only, with targets of whole
      pages and blocks that start on pages: a first shrink keeps the capacity if and only if no outstanding block of
      the pool reaches past start + target. */
  lemma FirstPagedShrinkExactly(a: Audited, k: nat, target: Word, wraps: bool)
    requires Exact(a) && AllInside(a.s.pools, a.live) && k < |a.s.pools|
    requires a.s.pools[k].used <= target < a.s.pools[k].size
    requires var p := a.s.pools[k]; 0 < p.start && p.top == p.end && p.size == p.end - p.start
    requires target % PAGE_SIZE == 0
    requires forall i :: 0 <= i < |a.live| && a.live[i].owner == a.s.pools[k].id ==>
               a.live[i].ptr >= a.s.pools[k].start && (a.live[i].ptr - a.s.pools[k].start) % PAGE_SIZE == 0
    ensures AlwaysFitsPaged(Shrinking(a, k, target, wraps), a.s.pools[k].id)
            <==> BlocksBelow(a.s.pools[k], a.live, target)
  {
    var id := a.s.pools[k].id;
    if BlocksBelow(a.s.pools[k], a.live, target) {
      FirstShrinkExactly(a, k, target, wraps);
      FitsWhenPaged(Shrinking(a, k, target, wraps), id);
    } else {
      var i: nat :| i < |a.live| && a.live[i].owner == id
                    && a.live[i].ptr + a.live[i].size > a.s.pools[k].start + target;
      var ops := PastTargetOverflows(a, k, target, wraps, i);
    }
  }

  lemma FitsWhenPaged(b: Audited, id: nat)
    requires AlwaysFits(b, id)
    ensures AlwaysFitsPaged(b, id)
  {
    forall ops: seq<Operation> | Admitted(AuditedStep, PagedUse, b, ops)
      ensures FitsAt(Run(AuditedStep, b, ops), id)
    {
      Loosen(AuditedStep, PagedUse, HonestUse, b, ops);
    }
  }
}
