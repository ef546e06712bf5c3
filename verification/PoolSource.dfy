/** The ledger of a pool against its page source, which counts in pages: an aligned allocation may take more pages
    than a free of its size gives back, and these stay out for good. */
module PoolSource {
  import opened MachineWords
  import opened Alignment
  import opened Lists
  import opened Runs
  import opened PoolLedger
  import opened PoolAudit

  // ---- One request ----------------------------------------------------------------------------

  /** In bytes, an aligned request asks the source for no less than it charges, and for the same if and only if its
      size is a multiple of the alignment in effect. */
  lemma AskedExactly(size: Word, align: Word)
    requires IsPow2(Effective(align)) && size + Effective(align) <= WORD
    ensures size <= AlignedRequest(size, align)
    ensures AlignedRequest(size, align) == size <==> size % Effective(align) == 0
  {
    AlignUpIsLeastMultiple(size, Effective(align));
  }

  /** The bytes of the pages are the least multiple of a page that holds the size. */
  lemma PagesAreLeast(size: nat)
    ensures size <= PAGE_SIZE * Pages(size) < size + PAGE_SIZE
    ensures (PAGE_SIZE * Pages(size)) % PAGE_SIZE == 0
  {
    DivModUnique(PAGE_SIZE * Pages(size), PAGE_SIZE, Pages(size), 0);
  }

  lemma WholePages(bytes: nat)
    requires bytes % PAGE_SIZE == 0
    ensures PAGE_SIZE * Pages(bytes) == bytes
  {
    PagesAreLeast(bytes);
    if bytes < PAGE_SIZE * Pages(bytes) { MultiplesApart(bytes, PAGE_SIZE * Pages(bytes), PAGE_SIZE); }
  }

  lemma PageIsPow2(page: nat)
    requires page == PAGE_SIZE
    ensures IsPow2(page)
  {
    var k := 12;
    assert Pow2(4) == 16;
    Pow2Adds(4, 4);
    Pow2Adds(8, 4);
    assert page == Pow2(k);
  }

  /** The size asked for is a whole number of pages. */
  lemma AskedInPages(size: Word, align: Word)
    requires IsPow2(Effective(align)) && size + Effective(align) <= WORD
    ensures AlignedRequest(size, align) % PAGE_SIZE == 0
    ensures PAGE_SIZE * Pages(AlignedRequest(size, align)) == AlignedRequest(size, align)
  {
    var e, asked, page := Effective(align), AlignedRequest(size, align), PAGE_SIZE;
    AlignUpIsLeastMultiple(size, e);
    PageIsPow2(page);
    Pow2Divides(page, e);
    MultipleOfMultiple(asked, e, page);
    WholePages(asked);
  }

  lemma MultipleOfMultiple(x: nat, a: nat, b: nat)
    requires a > 0 && b > 0 && x % a == 0 && a % b == 0
    ensures x % b == 0
  {
    var q, r := x / a, a / b;
    assert x == q * (r * b) == (q * r) * b;
    DivModUnique(x, b, q * r, 0);
  }

  /** Exactly when an aligned request takes no more pages than a free of its size gives back: when the pages of
      the size are a multiple of the alignment. So it always is for alignments up to a page. */
  lemma LeakExactly(size: Word, align: Word)
    requires IsPow2(Effective(align)) && size + Effective(align) <= WORD
    ensures Pages(AlignedRequest(size, align)) >= Pages(size)
    ensures Pages(AlignedRequest(size, align)) == Pages(size) <==> (PAGE_SIZE * Pages(size)) % Effective(align) == 0
    ensures align <= PAGE_SIZE ==> Pages(AlignedRequest(size, align)) == Pages(size)
  {
    var e, asked, taken := Effective(align), AlignedRequest(size, align), PAGE_SIZE * Pages(size);
    AlignUpIsLeastMultiple(size, e);
    AskedInPages(size, align);
    PagesAreLeast(size);
    assert taken % e == 0 ==> asked <= taken;
  }

  // ---- Runs -----------------------------------------------------------------------------------

  /** The pages that frees of the outstanding blocks will give back. */
  function PagesOf(live: seq<Block>, w: Whose): nat {
    if live == [] then 0 else (if Belongs(live[0], w) then Pages(live[0].size) else 0) + PagesOf(live[1..], w)
  }

  /** The pages that no free has given back or will give back. */
  function ExcessOf(excess: seq<Excess>, id: nat): int {
    if excess == [] then 0 else (if excess[0].owner == id then excess[0].pages else 0) + ExcessOf(excess[1..], id)
  }

  lemma {:induction false} PagesAppend(live: seq<Block>, b: Block, w: Whose)
    ensures PagesOf(live + [b], w) == PagesOf(live, w) + if Belongs(b, w) then Pages(b.size) else 0
  {
    if live != [] {
      PagesAppend(live[1..], b, w);
      assert (live + [b])[1..] == live[1..] + [b];
    }
  }

  lemma {:induction false} PagesWithout(live: seq<Block>, i: nat, w: Whose)
    requires i < |live|
    ensures PagesOf(Without(live, i), w) == PagesOf(live, w) - if Belongs(live[i], w) then Pages(live[i].size) else 0
  {
    if i == 0 {
      assert Without(live, i) == live[1..];
    } else {
      PagesWithout(live[1..], i - 1, w);
      WithoutTail(live, i);
    }
  }

  lemma {:induction false} NoPages(live: seq<Block>, w: Whose)
    requires forall i :: 0 <= i < |live| ==> !Belongs(live[i], w)
    ensures PagesOf(live, w) == 0
  {
    if live != [] { NoPages(live[1..], w); }
  }

  lemma {:induction false} ExcessAppend(excess: seq<Excess>, x: Excess, id: nat)
    ensures ExcessOf(excess + [x], id) == ExcessOf(excess, id) + if x.owner == id then x.pages else 0
  {
    if excess != [] {
      ExcessAppend(excess[1..], x, id);
      assert (excess + [x])[1..] == excess[1..] + [x];
    }
  }

  /** Excesses that are not negative add up to 0 if and only if each of them is 0. */
  lemma {:induction false} ExcessZero(excess: seq<Excess>, id: nat)
    requires forall i :: 0 <= i < |excess| ==> excess[i].pages >= 0
    ensures ExcessOf(excess, id) >= 0
    ensures ExcessOf(excess, id) == 0 <==>
            forall i :: 0 <= i < |excess| && excess[i].owner == id ==> excess[i].pages == 0
  {
    if excess != [] {
      ExcessZero(excess[1..], id);
      assert forall i :: 0 < i < |excess| ==> excess[i] == excess[1..][i - 1];
      assert forall i :: 0 <= i < |excess| - 1 ==> excess[1..][i] == excess[i + 1];
    }
  }

  lemma {:induction false} NoExcess(excess: seq<Excess>, id: nat)
    requires forall i :: 0 <= i < |excess| ==> excess[i].owner != id
    ensures ExcessOf(excess, id) == 0
  {
    if excess != [] { NoExcess(excess[1..], id); }
  }

  /** Every page that is out is one of an outstanding block or one of an excess. */
  predicate PoolHeld(p: PoolState, live: seq<Block>, excess: seq<Excess>) {
    p.held == PagesOf(live, Pool(p.id)) + ExcessOf(excess, p.id)
  }

  ghost predicate HeldIn(a: Audited) {
    && (forall i :: 0 <= i < |a.s.pools| ==> PoolHeld(a.s.pools[i], a.live, a.excess))
    && forall i :: 0 <= i < |a.excess| ==> a.excess[i].owner < a.s.nextId
  }

  /** One more block, of this pool or of another; q is the pool afterwards. */
  lemma ServedHeld(p: PoolState, q: PoolState, live: seq<Block>, excess: seq<Excess>, b: Block, x: Excess)
    requires PoolHeld(p, live, excess) && x.owner == b.owner && q.id == p.id
    requires q.held == p.held + if b.owner == p.id then Pages(b.size) + x.pages else 0
    ensures PoolHeld(q, live + [b], excess + [x])
  {
    PagesAppend(live, b, Pool(p.id));
    ExcessAppend(excess, x, p.id);
  }

  lemma AllocHeld(a: Audited, op: Operation, k: nat)
    requires Allocates(op) && op.size > 0 && HeldIn(a)
    requires k == FirstServing(a.s.pools, op.kind, op.grants, 0) < |a.s.pools|
    requires Routable(a.s.pools, a.s.nextId)
    ensures HeldIn(AuditedStep(a, op))
  {
    var b := AuditedStep(a, op);
    AllocEffect(a, op, k);
    var id := a.s.pools[k].id;
    forall i | 0 <= i < |b.s.pools| ensures PoolHeld(b.s.pools[i], b.live, b.excess) {
      ServedHeld(a.s.pools[i], b.s.pools[i], a.live, a.excess,
                 Block(op.grants[k], id, op.size), Excess(id, ExcessFor(op)));
    }
  }

  lemma RefusedHeld(a: Audited, op: Operation)
    requires Allocates(op) && HeldIn(a)
    requires op.size == 0 || FirstServing(a.s.pools, op.kind, op.grants, 0) == |a.s.pools|
    ensures HeldIn(AuditedStep(a, op))
  {
    var b := AuditedStep(a, op);
    forall i | 0 <= i < |b.s.pools| ensures PoolHeld(b.s.pools[i], b.live, b.excess) {
      assert PoolHeld(a.s.pools[i], a.live, a.excess);
    }
  }

  lemma FreeHeld(a: Audited, op: Operation)
    requires op.Free? && Exact(a) && Honest(a, op) && HeldIn(a)
    ensures HeldIn(AuditedStep(a, op))
  {
    var i, b := FindPtr(a.live, op.ptr), AuditedStep(a, op);
    FreeEffect(a, op, i);
    forall j | 0 <= j < |b.s.pools| ensures PoolHeld(b.s.pools[j], b.live, b.excess) {
      assert PoolHeld(a.s.pools[j], a.live, a.excess);
      PagesWithout(a.live, i, Pool(a.s.pools[j].id));
    }
  }

  lemma CreateHeld(a: Audited, op: Operation)
    requires op.CreatePool? && Exact(a) && HeldIn(a)
    ensures HeldIn(AuditedStep(a, op))
  {
    forall x | 0 <= x < |a.live| ensures a.live[x].owner != a.s.nextId { assert Owned(a.s.pools, a.live[x]); }
    NoPages(a.live, Pool(a.s.nextId));
    NoExcess(a.excess, a.s.nextId);
  }

  lemma ResizeHeld(a: Audited, op: Operation)
    requires (op.DestroyPool? || op.ShrinkPool?) && HeldIn(a)
    ensures HeldIn(AuditedStep(a, op))
  {
    var b := AuditedStep(a, op);
    forall i | 0 <= i < |b.s.pools| ensures PoolHeld(b.s.pools[i], b.live, b.excess) {
      var j := if |b.s.pools| == |a.s.pools| || i < FindId(a.s.pools, op.id) then i else i + 1;
      assert PoolHeld(a.s.pools[j], a.live, a.excess);
    }
  }

  lemma UseHeld(a: Audited, op: Operation)
    requires Allocates(op) && HeldIn(a) && Routable(a.s.pools, a.s.nextId)
    ensures HeldIn(AuditedStep(a, op))
  {
    var k := FirstServing(a.s.pools, op.kind, op.grants, 0);
    if op.size > 0 && k < |a.s.pools| { AllocHeld(a, op, k); } else { RefusedHeld(a, op); }
  }

  lemma StepHeld(a: Audited, op: Operation)
    requires Exact(a) && HeldIn(a) && Honest(a, op)
    ensures HeldIn(AuditedStep(a, op))
  {
    if Allocates(op) { UseHeld(a, op); }
    else if op.Free? { FreeHeld(a, op); }
    else if op.CreatePool? { CreateHeld(a, op); }
    else { ResizeHeld(a, op); }
  }

  ghost predicate ExactAndHeld(a: Audited) {
    Exact(a) && HeldIn(a)
  }

  /** On every honest run, the pages that each pool's source has granted and not got back are those of the pool's
      outstanding blocks and the excesses of all requests it has served. An excess is counted for good: when all
      blocks of the pool have been freed, it is what the source is still missing. */
  lemma SourceHoldsExactly(start: Audited, ops: seq<Operation>)
    requires Fresh(start.s) && start.live == [] && start.excess == [] && Admitted(AuditedStep, Honest, start, ops)
    ensures var a := Run(AuditedStep, start, ops);
            forall i :: 0 <= i < |a.s.pools| ==>
              var p := a.s.pools[i];
              && p.held == PagesOf(a.live, Pool(p.id)) + ExcessOf(a.excess, p.id)
              && (p.active == 0 ==> p.held == ExcessOf(a.excess, p.id))
  {
    forall a, op | ExactAndHeld(a) && Honest(a, op) ensures ExactAndHeld(AuditedStep(a, op)) {
      StepExact(a, op);
      StepHeld(a, op);
    }
    Invariant(AuditedStep, Honest, ExactAndHeld, start, ops);
    var a := Run(AuditedStep, start, ops);
    forall i | 0 <= i < |a.s.pools|
      ensures PoolHeld(a.s.pools[i], a.live, a.excess)
      ensures a.s.pools[i].active == 0 ==> PagesOf(a.live, Pool(a.s.pools[i].id)) == 0
    {
      assert PoolExact(a.s.pools[i], a.live) && PoolHeld(a.s.pools[i], a.live, a.excess);
      if a.s.pools[i].active == 0 {
        CountZero(a.live, Pool(a.s.pools[i].id));
        NoPages(a.live, Pool(a.s.pools[i].id));
      }
    }
  }

  // ---- When the source gets everything back ---------------------------------------------------

  /** The alignment in effect is a power of two, and rounding up to it stays inside the word. */
  ghost predicate Alignable(op: Operation) {
    op.AllocAligned? ==> IsPow2(Effective(op.align)) && op.size + Effective(op.align) <= WORD
  }

  ghost predicate HonestAndAlignable(a: Audited, op: Operation) {
    Honest(a, op) && Alignable(op)
  }

  ghost predicate NoNegative(a: Audited) {
    forall i :: 0 <= i < |a.excess| ==> a.excess[i].pages >= 0
  }

  lemma StepNoNegative(a: Audited, op: Operation)
    requires NoNegative(a) && Alignable(op)
    ensures NoNegative(AuditedStep(a, op))
  {
    if op.AllocAligned? { LeakExactly(op.size, op.align); }
  }

  /** On every such run, for every pool: the source has at least the pages out that frees of the outstanding blocks
      give back, and exactly these if and only if no request that the pool has served took an excess; by LeakExactly,
      if and only if the pages of each aligned request's size were a multiple of its alignment. */
  lemma SourceAgreesExactly(start: Audited, ops: seq<Operation>)
    requires Fresh(start.s) && start.live == [] && start.excess == []
    requires Admitted(AuditedStep, HonestAndAlignable, start, ops)
    ensures var a := Run(AuditedStep, start, ops);
            forall i :: 0 <= i < |a.s.pools| ==>
              var p := a.s.pools[i];
              && p.held >= PagesOf(a.live, Pool(p.id))
              && (p.held == PagesOf(a.live, Pool(p.id)) <==>
                  forall x :: 0 <= x < |a.excess| && a.excess[x].owner == p.id ==> a.excess[x].pages == 0)
  {
    forall a, op | NoNegative(a) && HonestAndAlignable(a, op) ensures NoNegative(AuditedStep(a, op)) {
      StepNoNegative(a, op);
    }
    Invariant(AuditedStep, HonestAndAlignable, NoNegative, start, ops);
    Loosen(AuditedStep, HonestAndAlignable, Honest, start, ops);
    SourceHoldsExactly(start, ops);
    var a := Run(AuditedStep, start, ops);
    forall i | 0 <= i < |a.s.pools|
      ensures ExcessOf(a.excess, a.s.pools[i].id) >= 0
      ensures ExcessOf(a.excess, a.s.pools[i].id) == 0 <==>
              forall x :: 0 <= x < |a.excess| && a.excess[x].owner == a.s.pools[i].id ==> a.excess[x].pages == 0
    {
      ExcessZero(a.excess, a.s.pools[i].id);
    }
  }

  /** One byte aligned to two pages: two pages are taken and one is given back. */
  lemma TwoPageByteLeaks(p: PoolState, one: Word, align: Word)
    requires one == 1 && align == 8192 && p.held == 0
    ensures Credit(Charge(p, one, AlignedRequest(one, align)), one).held == 1
  {
    TwoPagesIsPow2(align);
    AlignUpIsLeastMultiple(one, align);
    assert align % align == 0;
    assert AlignedRequest(one, align) == align;
  }

  lemma TwoPagesIsPow2(align: Word)
    requires align == 8192
    ensures IsPow2(align)
  {
    var k := 13;
    assert Pow2(4) == 16 && Pow2(5) == 32;
    Pow2Adds(4, 4);
    Pow2Adds(8, 5);
    assert align == Pow2(k);
  }
}
