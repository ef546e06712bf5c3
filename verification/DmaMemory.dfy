/** Conservation of descriptors in the DMA allocator: over whole runs, every address is on the lists of the pools
    exactly as often as it was granted. */
module DmaMemory {
  import opened MachineWords
  import opened Alignment
  import opened DmaMerge
  import opened DmaLedger
  import opened Lists
  import opened Runs

  /** How often the lists of a pool cover the address. */
  function CoverageAt(addr: nat): PoolState -> int {
    (p: PoolState) => Coverage(p.used, addr) + Coverage(p.free, addr)
  }

  /** The allocator, an address, and the number of granted ranges so far that cover the address. */
  datatype Traced = Traced(s: AllocatorState, addr: nat, granted: nat)

  /** The range that an operation takes from the page source covers the address. */
  predicate Grants(s: AllocatorState, op: Operation, addr: nat) {
    op.Alloc? && 0 < op.size <= DMA_MAX_ALLOC_SIZE &&
    var k := FirstServing(s.pools, op.flags, op.grants, 0);
    k < |s.pools| &&
    var g := GrantAt(op.grants, k);
    g.phys <= addr < g.phys + DmaAlignSize(op.size)
  }

  function TracedStep(t: Traced, op: Operation): Traced {
    Traced(Step(t.s, op), t.addr, t.granted + if Grants(t.s, op, t.addr) then 1 else 0)
  }

  /** Page sources grant ranges inside the 64-bit address space. */
  predicate InSpace(t: Traced, op: Operation) {
    op.Alloc? ==> forall g <- op.grants :: g.Granted? ==> g.phys + DmaAlignSize(op.size) < WORD
  }

  predicate AllFit(blocks: seq<DmaBlock>) {
    forall b <- blocks :: Fits(b)
  }

  ghost predicate Conserved(t: Traced) {
    && Total(CoverageAt(t.addr), t.s.pools) == t.granted
    && forall i :: 0 <= i < |t.s.pools| ==> AllFit(t.s.pools[i].used) && AllFit(t.s.pools[i].free)
  }

  lemma {:induction false} CoverageAppend(s: seq<DmaBlock>, b: DmaBlock, addr: nat)
    ensures Coverage(s + [b], addr) == Coverage(s, addr) + if Covers(b, addr) then 1 else 0
  {
    if s != [] {
      CoverageAppend(s[1..], b, addr);
      assert (s + [b])[1..] == s[1..] + [b];
    }
  }

  lemma {:induction false} CoverageWithout(s: seq<DmaBlock>, i: nat, addr: nat)
    requires i < |s|
    ensures Coverage(Without(s, i), addr) == Coverage(s, addr) - if Covers(s[i], addr) then 1 else 0
  {
    if i == 0 {
      assert Without(s, i) == s[1..];
    } else {
      CoverageWithout(s[1..], i - 1, addr);
      WithoutTail(s, i);
    }
  }

  lemma AllocConserves(t: Traced, op: Operation, k: nat)
    requires op.Alloc? && Conserved(t) && InSpace(t, op) && 0 < op.size <= DMA_MAX_ALLOC_SIZE
    requires k == FirstServing(t.s.pools, op.flags, op.grants, 0) < |t.s.pools|
    ensures Conserved(TracedStep(t, op))
  {
    var n, g, p := DmaAlignSize(op.size), GrantAt(op.grants, k), t.s.pools[k];
    AllocEffect(t.s, op, k);
    AcceptedSizeFits(op.size);
    assert g in op.grants;
    var q := PoolAlloc(p, n, op.flags, g).0;
    CoverageAppend(p.used, q.used[|p.used|], t.addr);
    TotalUpdate(CoverageAt(t.addr), t.s.pools, k, q);
  }

  lemma FreeConserves(t: Traced, op: Operation)
    requires op.Free? && Conserved(t)
    ensures Conserved(TracedStep(t, op))
  {
    if Release(t.s, op.virt, op.size).1.Success? {
      var k := FirstOwner(t.s.pools, op.virt, 0);
      var p := t.s.pools[k];
      var i, q := FindByVirt(p.used, op.virt), PoolFree(p, op.virt, op.size).0;
      CoverageWithout(p.used, i, t.addr);
      CoverageAppend(p.free, p.used[i], t.addr);
      TotalUpdate(CoverageAt(t.addr), t.s.pools, k, q);
      forall b | b in q.used ensures Fits(b) {
        var j :| 0 <= j < |q.used| && q.used[j] == b;
        assert b == p.used[if j < i then j else j + 1];
      }
    }
  }

  lemma DefragConservesAll(t: Traced)
    requires Conserved(t)
    ensures Conserved(TracedStep(t, Defrag))
  {
    var after := Step(t.s, Defrag).pools;
    forall i | 0 <= i < |after|
      ensures AllFit(after[i].used) && AllFit(after[i].free)
      ensures CoverageAt(t.addr)(after[i]) == CoverageAt(t.addr)(t.s.pools[i])
    {
      DefragConserves(t.s.pools[i].free, DEFRAG_CAP, t.addr);
    }
    TotalSame(CoverageAt(t.addr), t.s.pools, after);
  }

  lemma StepConserves(t: Traced, op: Operation)
    requires Conserved(t) && InSpace(t, op)
    ensures Conserved(TracedStep(t, op))
  {
    match op
    case CreatePool(size, flags, _) => TotalAppend(CoverageAt(t.addr), t.s.pools, NewPool(size, flags));
    case Alloc(_, _, _) =>
      var k := FirstServing(t.s.pools, op.flags, op.grants, 0);
      if 0 < op.size <= DMA_MAX_ALLOC_SIZE && k < |t.s.pools| { AllocConserves(t, op, k); }
    case Free(_, _) => FreeConserves(t, op);
    case Defrag => DefragConservesAll(t);
  }

  /** On every run, over any interleaving of allocations, frees and defragmentations: the used and free lists
      of all pools together cover each address exactly as often as ranges covering it were granted, and no
      block on any list leaves the address space. Merging loses no byte. An address that is granted again after a
      free counts twice, since the free list keeps its descriptor. */
  lemma MemoryConservedOnEveryRun(start: Traced, ops: seq<Operation>)
    requires Fresh(start.s) && start.granted == 0 && Admitted(TracedStep, InSpace, start, ops)
    ensures Conserved(Run(TracedStep, start, ops))
  {
    forall t, op | Conserved(t) && InSpace(t, op) ensures Conserved(TracedStep(t, op)) { StepConserves(t, op); }
    Invariant(TracedStep, InSpace, Conserved, start, ops);
  }
}
