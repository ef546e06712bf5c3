/** The free lists of the DMA pools keep descriptors of memory that has been given back to the page source: exactly
    when such a descriptor comes to describe memory that is in use. */
module DmaReuse {
  import opened MachineWords
  import opened Alignment
  import opened DmaMerge
  import opened DmaLedger
  import opened DmaOwners
  import opened DmaMemory
  import opened DmaRequests
  import opened Lists
  import opened Runs

  /** How often the free list of a pool covers the address. */
  function FreeListCoverage(addr: nat): PoolState -> int {
    (p: PoolState) => Coverage(p.free, addr)
  }

  predicate OnBothLists(pools: seq<PoolState>, addr: nat) {
    Total(UsedCoverage(addr), pools) > 0 && Total(FreeListCoverage(addr), pools) > 0
  }

  /** Some address is on a used list and on a free list at once. */
  ghost predicate InUseAndFree(pools: seq<PoolState>) {
    exists addr: nat :: OnBothLists(pools, addr)
  }

  /** Some block of a free list covers an address from lo up to hi. */
  ghost predicate TouchesFree(pools: seq<PoolState>, lo: nat, hi: nat) {
    exists addr: nat :: lo <= addr < hi && Total(FreeListCoverage(addr), pools) > 0
  }

  lemma FreeListsKept(b: Book, op: Operation, k: nat, addr: nat)
    requires op.Alloc? && 0 < op.size <= DMA_MAX_ALLOC_SIZE
    requires k == FirstServing(b.a.s.pools, op.flags, op.grants, 0) < |b.a.s.pools|
    ensures Total(FreeListCoverage(addr), Step(b.a.s, op).pools) == Total(FreeListCoverage(addr), b.a.s.pools)
  {
    AllocEffect(b.a.s, op, k);
    TotalSame(FreeListCoverage(addr), b.a.s.pools, Step(b.a.s, op).pools);
  }

  /** The exact condition for one allocation: an address gets on both kinds of lists if and only if the granted
      range touches a block of a free list. The allocator never looks at the free lists when it allocates. */
  lemma ReuseExactly(b: Book, op: Operation, k: nat)
    requires op.Alloc? && 0 < op.size <= DMA_MAX_ALLOC_SIZE && !InUseAndFree(b.a.s.pools)
    requires k == FirstServing(b.a.s.pools, op.flags, op.grants, 0) < |b.a.s.pools|
    ensures var g, n := GrantAt(op.grants, k), DmaAlignSize(op.size);
            g.Granted? && (InUseAndFree(Step(b.a.s, op).pools) <==> TouchesFree(b.a.s.pools, g.phys, g.phys + n))
  {
    var s, t, g, n := b.a.s, Step(b.a.s, op), GrantAt(op.grants, k), DmaAlignSize(op.size);
    forall addr: nat
      ensures Total(FreeListCoverage(addr), t.pools) == Total(FreeListCoverage(addr), s.pools)
      ensures Total(UsedCoverage(addr), t.pools)
              == Total(UsedCoverage(addr), s.pools) + if g.phys <= addr < g.phys + n then 1 else 0
    {
      FreeListsKept(b, op, k, addr);
      AllocCoverage(b, op, k, addr);
    }
    forall addr: nat ensures !OnBothLists(s.pools, addr) {}
    if TouchesFree(s.pools, g.phys, g.phys + n) {
      var addr: nat :| g.phys <= addr < g.phys + n && Total(FreeListCoverage(addr), s.pools) > 0;
      UsedCoverageNonNegative(s.pools, addr);
      assert OnBothLists(t.pools, addr);
    }
    if InUseAndFree(t.pools) {
      var addr: nat :| OnBothLists(t.pools, addr);
      assert !OnBothLists(s.pools, addr);
    }
  }

  // ---- Runs without such a grant --------------------------------------------------------------

  /** A proper operation whose grants touch no block of a free list. */
  ghost predicate ProperAndFresh(b: Book, op: Operation) {
    && Proper(b, op)
    && (op.Alloc? ==> forall g <- op.grants :: g.Granted? ==>
          !TouchesFree(b.a.s.pools, g.phys, g.phys + DmaAlignSize(op.size)))
  }

  ghost predicate Separate(pools: seq<PoolState>) {
    && UsedApart(pools) && !InUseAndFree(pools)
    && forall i :: 0 <= i < |pools| ==> AllFit(pools[i].free)
  }

  lemma FreeMoves(s: AllocatorState, virt: nat, size: nat, addr: nat)
    ensures var t := Release(s, virt, size).0;
            && Total(UsedCoverage(addr), t.pools) + Total(FreeListCoverage(addr), t.pools)
               == Total(UsedCoverage(addr), s.pools) + Total(FreeListCoverage(addr), s.pools)
            && Total(UsedCoverage(addr), t.pools) <= Total(UsedCoverage(addr), s.pools)
  {
    if Release(s, virt, size).1.Success? {
      var k := FirstOwner(s.pools, virt, 0);
      var p, q := s.pools[k], PoolFree(s.pools[k], virt, size).0;
      var i := FindByVirt(p.used, virt);
      CoverageWithout(p.used, i, addr);
      CoverageAppend(p.free, p.used[i], addr);
      TotalUpdate(UsedCoverage(addr), s.pools, k, q);
      TotalUpdate(FreeListCoverage(addr), s.pools, k, q);
    }
  }

  lemma FreeSeparate(b: Book, op: Operation)
    requires op.Free? && Separate(b.a.s.pools) && Proper(b, op)
    ensures Separate(Step(b.a.s, op).pools)
  {
    var s, t := b.a.s, Step(b.a.s, op);
    StepApart(b, op);
    forall addr: nat ensures !OnBothLists(t.pools, addr) {
      FreeMoves(s, op.virt, op.size, addr);
      UsedCoverageNonNegative(t.pools, addr);
      assert !OnBothLists(s.pools, addr) && Total(UsedCoverage(addr), s.pools) <= 1;
    }
  }

  lemma DefragSeparate(b: Book)
    requires Separate(b.a.s.pools)
    ensures Separate(Step(b.a.s, Defrag).pools)
  {
    var s, t := b.a.s, Step(b.a.s, Defrag);
    StepApart(b, Defrag);
    forall addr: nat, i | 0 <= i < |s.pools|
      ensures AllFit(t.pools[i].free) && Coverage(t.pools[i].free, addr) == Coverage(s.pools[i].free, addr)
    {
      DefragConserves(s.pools[i].free, DEFRAG_CAP, addr);
    }
    assert forall i :: 0 <= i < |s.pools| ==> AllFit(t.pools[i].free) by {
      assert forall i :: 0 <= i < |s.pools| ==> Coverage(t.pools[i].free, 0) == Coverage(s.pools[i].free, 0);
    }
    forall addr: nat ensures !OnBothLists(t.pools, addr) {
      TotalSame(UsedCoverage(addr), s.pools, t.pools);
      TotalSame(FreeListCoverage(addr), s.pools, t.pools);
      assert !OnBothLists(s.pools, addr);
    }
  }

  lemma CreateSeparate(b: Book, op: Operation)
    requires op.CreatePool? && Separate(b.a.s.pools)
    ensures Separate(Step(b.a.s, op).pools)
  {
    var s, t := b.a.s, Step(b.a.s, op);
    StepApart(b, op);
    forall addr: nat ensures !OnBothLists(t.pools, addr) {
      TotalAppend(UsedCoverage(addr), s.pools, NewPool(op.poolSize, op.flags));
      TotalAppend(FreeListCoverage(addr), s.pools, NewPool(op.poolSize, op.flags));
      assert !OnBothLists(s.pools, addr);
    }
  }

  lemma AllocSeparate(b: Book, op: Operation)
    requires op.Alloc? && Separate(b.a.s.pools) && ProperAndFresh(b, op)
    ensures Separate(Step(b.a.s, op).pools)
  {
    StepApart(b, op);
    var k := FirstServing(b.a.s.pools, op.flags, op.grants, 0);
    if 0 < op.size <= DMA_MAX_ALLOC_SIZE && k < |b.a.s.pools| {
      ReuseExactly(b, op, k);
      AllocEffect(b.a.s, op, k);
      assert GrantAt(op.grants, k) in op.grants;
    }
  }

  lemma StepSeparate(b: Book, op: Operation)
    requires Separate(b.a.s.pools) && ProperAndFresh(b, op)
    ensures Separate(Step(b.a.s, op).pools)
  {
    match op
    case Alloc(_, _, _) => AllocSeparate(b, op);
    case Free(_, _) => FreeSeparate(b, op);
    case CreatePool(_, _, _) => CreateSeparate(b, op);
    case Defrag => DefragSeparate(b);
  }

  ghost predicate SeparateBook(b: Book) {
    Separate(b.a.s.pools)
  }

  /** On every proper run whose grants touch no block of a free list, no address is in use and free at once. */
  lemma SeparateOnFreshRuns(start: Book, ops: seq<Operation>)
    requires Unstarted(start.a) && Admitted(BookStep, ProperAndFresh, start, ops)
    ensures !InUseAndFree(Run(BookStep, start, ops).a.s.pools)
  {
    forall addr: nat ensures !OnBothLists(start.a.s.pools, addr) {}
    forall b, op | SeparateBook(b) && ProperAndFresh(b, op) ensures SeparateBook(BookStep(b, op)) {
      StepSeparate(b, op);
    }
    Invariant(BookStep, ProperAndFresh, SeparateBook, start, ops);
  }

  // ---- The run that reuses memory -------------------------------------------------------------

  /** A pool with a flag, an allocation, its free, and an allocation that is granted the same memory again. */
  function Recycling(n: Word, phys: nat, virt: Pointer): seq<Operation> {
    [CreatePool(n, 1, true), Alloc(n, 1, [Granted(phys, virt)]), Free(virt, n), Alloc(n, 1, [Granted(phys, virt)])]
  }

  /** An allocation that the only pool serves. */
  lemma OneServes(b: Book, n: nat, phys: nat, virt: Pointer)
    requires |b.a.s.pools| == 1 && b.a.s.pools[0].flags == 1 && 0 < n <= DMA_MAX_ALLOC_SIZE && DmaAlignSize(n) == n
    ensures var c := BookStep(b, Alloc(n, 1, [Granted(phys, virt)]));
            && |c.a.s.pools| == 1 && c.a.s.pools[0].flags == 1 && c.requests == b.requests[virt := n]
            && c.a.s.pools[0].used == b.a.s.pools[0].used + [DmaBlock(phys, virt, n, Or(1, DMA_FLAG_ALLOCATED))]
            && c.a.s.pools[0].free == b.a.s.pools[0].free
  {
    assert And(1, 1) == 1;
    assert FirstServing(b.a.s.pools, 1, [Granted(phys, virt)], 0) == 0;
  }

  /** The free of the only block. */
  lemma OneFreed(b: Book, n: nat, virt: Pointer)
    requires |b.a.s.pools| == 1 && |b.a.s.pools[0].used| == 1 && b.a.s.pools[0].used[0].virt == virt && n > 0
    ensures var c := BookStep(b, Free(virt, n));
            && |c.a.s.pools| == 1 && c.a.s.pools[0].flags == b.a.s.pools[0].flags
            && c.a.s.pools[0].used == [] && c.a.s.pools[0].free == b.a.s.pools[0].free + b.a.s.pools[0].used
  {
    assert FindByVirt(b.a.s.pools[0].used, virt) == 0;
    assert FirstOwner(b.a.s.pools, virt, 0) == 0;
  }

  /** With nothing in use, a grant inside the address space is proper. */
  lemma NothingInUse(b: Book, n: nat, phys: nat, virt: Pointer)
    requires |b.a.s.pools| == 1 && b.a.s.pools[0].used == [] && phys + DmaAlignSize(n) < WORD
    ensures Proper(b, Alloc(n, 1, [Granted(phys, virt)]))
  {
    forall addr: nat ensures Total(UsedCoverage(addr), b.a.s.pools) == 0 {
      assert b.a.s.pools[1..] == [];
    }
  }

  /** Each operation of that run is proper, and it ends with the same block on the used and on the free list. */
  lemma RecycledIsInUseAndFree(start: Book, n: Word, phys: nat, virt: Pointer)
    requires Unstarted(start.a) && start.requests == map[]
    requires 0 < n <= DMA_MAX_ALLOC_SIZE && DmaAlignSize(n) == n && phys + n < WORD
    ensures Admitted(BookStep, Proper, start, Recycling(n, phys, virt))
    ensures var pools := Run(BookStep, start, Recycling(n, phys, virt)).a.s.pools;
            |pools| == 1 && pools[0].used == pools[0].free == [DmaBlock(phys, virt, n, Or(1, DMA_FLAG_ALLOCATED))]
  {
    var ops := Recycling(n, phys, virt);
    var b := BookStep(start, ops[0]);
    assert b.a.s.pools == [NewPool(n, 1)];
    NothingInUse(b, n, phys, virt);
    OneServes(b, n, phys, virt);
    var c := BookStep(b, ops[1]);
    OneFreed(c, n, virt);
    var d := BookStep(c, ops[2]);
    NothingInUse(d, n, phys, virt);
    OneServes(d, n, phys, virt);
    RunOfFour(BookStep, Proper, start, ops[0], ops[1], ops[2], ops[3]);
  }
}
