/** The DMA ledger in the callers' terms: on every run in which callers free what they were given with the
    aligned size of what they asked for, used_size is exactly the bytes on the used lists. */
module DmaRequests {
  import opened MachineWords
  import opened Alignment
  import opened DmaMerge
  import opened DmaLedger
  import opened DmaOwners
  import opened DmaMemory
  import opened Intervals
  import opened Lists
  import opened Runs

  /** The allocator with its account, and the sizes asked for in the requests that are outstanding, by the
      address that was returned. */
  datatype Book = Book(a: Audited, requests: map<nat, nat>)

  function BookStep(b: Book, op: Operation): Book {
    var next := AuditedStep(b.a, op);
    match op
    case Alloc(size, flags, grants) =>
      var virt := Allocate(b.a.s, size, flags, grants).1;
      Book(next, if virt == 0 then b.requests else b.requests[virt := size])
    case Free(virt, size) =>
      Book(next, if Release(b.a.s, virt, size).1.Success? then b.requests - {virt} else b.requests)
    case _ => Book(next, b.requests)
  }

  /** How often the used list of a pool covers the address. */
  function UsedCoverage(addr: nat): PoolState -> int {
    (p: PoolState) => Coverage(p.used, addr)
  }

  /** The range overlaps no block that is in use. A freed block does not count: its memory has been given back to
      the page source, although its descriptor stays on the free list. */
  ghost predicate Unused(pools: seq<PoolState>, lo: nat, hi: nat) {
    forall addr: nat :: lo <= addr < hi ==> Total(UsedCoverage(addr), pools) == 0
  }

  /** Page sources grant memory of the 64-bit address space that is not in use, at addresses that are not in use;
      callers free what they hold, with the aligned size of what they asked for. */
  ghost predicate Proper(b: Book, op: Operation) {
    match op
    case Alloc(size, _, grants) =>
      forall g <- grants :: g.Granted? ==>
        && !Live(b.a.s, g.virt) && g.phys + DmaAlignSize(size) < WORD
        && Unused(b.a.s.pools, g.phys, g.phys + DmaAlignSize(size))
    case Free(virt, size) => virt in b.requests && size == DmaAlignSize(b.requests[virt])
    case _ => true
  }

  // ---- Disjoint blocks fit the address space --------------------------------------------------

  /** No address is in use twice, and no block in use leaves the address space. */
  ghost predicate UsedApart(pools: seq<PoolState>) {
    && (forall addr: nat :: Total(UsedCoverage(addr), pools) <= 1)
    && forall i :: 0 <= i < |pools| ==> AllFit(pools[i].used)
  }

  function UsedBlocksOf(pools: seq<PoolState>): seq<DmaBlock> {
    if pools == [] then [] else pools[0].used + UsedBlocksOf(pools[1..])
  }

  lemma {:induction false} ConcatSums(a: seq<DmaBlock>, b: seq<DmaBlock>, addr: nat)
    ensures SumSizes(a + b) == SumSizes(a) + SumSizes(b)
    ensures Coverage(a + b, addr) == Coverage(a, addr) + Coverage(b, addr)
  {
    if a == [] {
      assert a + b == b;
    } else {
      ConcatSums(a[1..], b, addr);
      assert (a + b)[1..] == a[1..] + b;
    }
  }

  lemma {:induction false} UsedBlocksSums(pools: seq<PoolState>, addr: nat)
    ensures SumSizes(UsedBlocksOf(pools)) == Total(UsedBytes, pools)
    ensures Coverage(UsedBlocksOf(pools), addr) == Total(UsedCoverage(addr), pools)
    ensures (forall i :: 0 <= i < |pools| ==> AllFit(pools[i].used)) ==> AllFit(UsedBlocksOf(pools))
  {
    if pools != [] {
      UsedBlocksSums(pools[1..], addr);
      ConcatSums(pools[0].used, UsedBlocksOf(pools[1..]), addr);
    }
  }

  function Extent(b: DmaBlock): Range {
    Range(b.phys, b.size)
  }

  lemma {:induction false} SizesAreBytes(s: seq<DmaBlock>)
    ensures SumSizes(s) == Bytes(s, Extent)
  {
    if s != [] { SizesAreBytes(s[1..]); }
  }

  lemma {:induction false} CoveredAt(s: seq<DmaBlock>, i: nat, addr: nat)
    requires i < |s| && Covers(s[i], addr)
    ensures Coverage(s, addr) >= 1
  {
    if i > 0 { CoveredAt(s[1..], i - 1, addr); }
  }

  lemma {:induction false} CoveredTwice(s: seq<DmaBlock>, i: nat, j: nat, addr: nat)
    requires i < j < |s| && Covers(s[i], addr) && Covers(s[j], addr)
    ensures Coverage(s, addr) >= 2
  {
    if i > 0 { CoveredTwice(s[1..], i - 1, j - 1, addr); } else { CoveredAt(s[1..], j - 1, addr); }
  }

  /** Blocks that cover no address twice have no address in common. */
  lemma OnceIsApart(s: seq<DmaBlock>)
    requires forall addr: nat :: Coverage(s, addr) <= 1
    ensures PairwiseApart(s, Extent)
  {
    forall i, j | 0 <= i < j < |s| ensures Apart(Extent(s[i]), Extent(s[j])) {
      var addr: nat := if s[i].phys > s[j].phys then s[i].phys else s[j].phys;
      assert Coverage(s, addr) <= 1;
      if Covers(s[i], addr) && Covers(s[j], addr) { CoveredTwice(s, i, j, addr); }
    }
  }

  /** All blocks in use together are smaller than the address space. */
  lemma UsedBytesFit(pools: seq<PoolState>)
    requires UsedApart(pools)
    ensures 0 <= Total(UsedBytes, pools) < WORD
  {
    var s := UsedBlocksOf(pools);
    forall addr: nat ensures Coverage(s, addr) <= 1 && SumSizes(s) == Total(UsedBytes, pools) && AllFit(s) {
      UsedBlocksSums(pools, addr);
      assert Total(UsedCoverage(addr), pools) <= 1;
    }
    assert Coverage(s, 0) <= 1;
    OnceIsApart(s);
    forall i | 0 <= i < |s| ensures s[i].phys + s[i].size <= WORD - 1 { assert s[i] in s; }
    BytesFit(s, Extent, 0, WORD - 1);
    SizesAreBytes(s);
  }

  // ---- The steps ------------------------------------------------------------------------------

  /** A used block at this address with the size that was charged for the request. */
  ghost predicate Charges(pools: seq<PoolState>, virt: nat, size: nat) {
    exists k, m :: 0 <= k < |pools| && 0 <= m < |pools[k].used|
      && pools[k].used[m].virt == virt && pools[k].used[m].size == DmaAlignSize(size)
  }

  ghost predicate Kept(b: Book) {
    && Balanced(b.a) && b.a.drift == 0 && UniqueIn(b.a.s.pools) && UsedApart(b.a.s.pools)
    && forall v :: v in b.requests ==> Charges(b.a.s.pools, v, b.requests[v])
  }

  /** A free with the charged size drifts by nothing. */
  lemma ChargedIsReleased(s: AllocatorState, virt: nat, size: nat)
    requires UniqueIn(s.pools) && Charges(s.pools, virt, size)
    ensures FirstOwner(s.pools, virt, 0) < |s.pools| && ReleasedSize(s, virt) == DmaAlignSize(size)
  {
    var k, m :| 0 <= k < |s.pools| && 0 <= m < |s.pools[k].used|
      && s.pools[k].used[m].virt == virt && s.pools[k].used[m].size == DmaAlignSize(size);
    LiveBlock(s, k, m);
    var o := FirstOwner(s.pools, virt, 0);
    var f := FindByVirt(s.pools[o].used, virt);
    assert s.pools[o].used[f].virt == s.pools[k].used[m].virt;
  }

  lemma {:induction false} UsedCoverageNonNegative(pools: seq<PoolState>, addr: nat)
    ensures Total(UsedCoverage(addr), pools) >= 0
  {
    if pools != [] { UsedCoverageNonNegative(pools[1..], addr); }
  }

  /** What an allocation and a free do to the coverage of the used lists. */
  lemma AllocCoverage(b: Book, op: Operation, k: nat, addr: nat)
    requires op.Alloc? && 0 < op.size <= DMA_MAX_ALLOC_SIZE
    requires k == FirstServing(b.a.s.pools, op.flags, op.grants, 0) < |b.a.s.pools|
    ensures var g, n := GrantAt(op.grants, k), DmaAlignSize(op.size);
            g.Granted? && Total(UsedCoverage(addr), Step(b.a.s, op).pools)
            == Total(UsedCoverage(addr), b.a.s.pools) + if g.phys <= addr < g.phys + n then 1 else 0
  {
    var s, n, g := b.a.s, DmaAlignSize(op.size), GrantAt(op.grants, k);
    AllocEffect(s, op, k);
    AcceptedSizeFits(op.size);
    var q := PoolAlloc(s.pools[k], n, op.flags, g).0;
    CoverageAppend(s.pools[k].used, q.used[|q.used| - 1], addr);
    TotalUpdate(UsedCoverage(addr), s.pools, k, q);
  }

  lemma FreeCoverage(s: AllocatorState, virt: nat, size: nat, addr: nat)
    ensures Total(UsedCoverage(addr), Release(s, virt, size).0.pools) <= Total(UsedCoverage(addr), s.pools)
  {
    if Release(s, virt, size).1.Success? {
      var k := FirstOwner(s.pools, virt, 0);
      CoverageWithout(s.pools[k].used, FindByVirt(s.pools[k].used, virt), addr);
      TotalUpdate(UsedCoverage(addr), s.pools, k, PoolFree(s.pools[k], virt, size).0);
    }
  }

  lemma StepCoverage(b: Book, op: Operation, addr: nat)
    requires UsedApart(b.a.s.pools) && Proper(b, op)
    ensures Total(UsedCoverage(addr), Step(b.a.s, op).pools) <= 1
  {
    var s := b.a.s;
    assert Total(UsedCoverage(addr), s.pools) <= 1;
    match op
    case CreatePool(size, flags, backed) => TotalAppend(UsedCoverage(addr), s.pools, NewPool(size, flags));
    case Defrag => TotalSame(UsedCoverage(addr), s.pools, Step(s, op).pools);
    case Free(virt, size) => FreeCoverage(s, virt, size, addr);
    case Alloc(_, _, _) =>
      var k := FirstServing(s.pools, op.flags, op.grants, 0);
      if 0 < op.size <= DMA_MAX_ALLOC_SIZE && k < |s.pools| {
        AllocCoverage(b, op, k, addr);
        var g := GrantAt(op.grants, k);
        assert g in op.grants && Unused(s.pools, g.phys, g.phys + DmaAlignSize(op.size));
      }
  }

  lemma AllocFit(b: Book, op: Operation, k: nat)
    requires op.Alloc? && Proper(b, op) && UsedApart(b.a.s.pools) && 0 < op.size <= DMA_MAX_ALLOC_SIZE
    requires k == FirstServing(b.a.s.pools, op.flags, op.grants, 0) < |b.a.s.pools|
    ensures forall i :: 0 <= i < |b.a.s.pools| ==> AllFit(Step(b.a.s, op).pools[i].used)
  {
    AllocEffect(b.a.s, op, k);
    AcceptedSizeFits(op.size);
    assert GrantAt(op.grants, k) in op.grants;
  }

  lemma FreeFit(s: AllocatorState, virt: nat, size: nat)
    requires forall i :: 0 <= i < |s.pools| ==> AllFit(s.pools[i].used)
    ensures forall i :: 0 <= i < |s.pools| ==> AllFit(Release(s, virt, size).0.pools[i].used)
  {
    if Release(s, virt, size).1.Success? {
      var k := FirstOwner(s.pools, virt, 0);
      var used := s.pools[k].used;
      var i, after := FindByVirt(used, virt), Release(s, virt, size).0.pools[k].used;
      forall b | b in after ensures Fits(b) {
        var j :| 0 <= j < |after| && after[j] == b;
        assert b == used[if j < i then j else j + 1];
      }
    }
  }

  lemma StepApart(b: Book, op: Operation)
    requires UsedApart(b.a.s.pools) && Proper(b, op)
    ensures UsedApart(Step(b.a.s, op).pools)
  {
    forall addr: nat ensures Total(UsedCoverage(addr), Step(b.a.s, op).pools) <= 1 { StepCoverage(b, op, addr); }
    match op
    case Alloc(_, _, _) =>
      var k := FirstServing(b.a.s.pools, op.flags, op.grants, 0);
      if 0 < op.size <= DMA_MAX_ALLOC_SIZE && k < |b.a.s.pools| { AllocFit(b, op, k); }
    case Free(virt, size) => FreeFit(b.a.s, virt, size);
    case _ =>
  }

  lemma ChargesMove(pools: seq<PoolState>, after: seq<PoolState>, virt: nat, size: nat)
    requires Charges(pools, virt, size) && |after| >= |pools|
    requires forall k, m :: 0 <= k < |pools| && 0 <= m < |pools[k].used| && pools[k].used[m].virt == virt ==>
               pools[k].used[m] in after[k].used
    ensures Charges(after, virt, size)
  {
    var k, m :| 0 <= k < |pools| && 0 <= m < |pools[k].used|
      && pools[k].used[m].virt == virt && pools[k].used[m].size == DmaAlignSize(size);
    assert pools[k].used[m] in after[k].used;
    var l :| 0 <= l < |after[k].used| && after[k].used[l] == pools[k].used[m];
  }

  /** One more used block in pool k. */
  lemma AppendCharges(
      pools: seq<PoolState>, k: nat, p: PoolState, block: DmaBlock, requests: map<nat, nat>, more: map<nat, nat>,
      asked: nat)
    requires k < |pools| && p.used == pools[k].used + [block] && block.size == DmaAlignSize(asked)
    requires more == requests[block.virt := asked] && forall v :: v in requests ==> Charges(pools, v, requests[v])
    ensures forall v :: v in more ==> Charges(pools[k := p], v, more[v])
  {
    var after := pools[k := p];
    assert after[k].used[|pools[k].used|] == block;
    forall v | v in requests && v != block.virt ensures Charges(after, v, requests[v]) {
      ChargesMove(pools, after, v, requests[v]);
    }
  }

  lemma AllocCharges(b: Book, op: Operation)
    requires op.Alloc? && forall v :: v in b.requests ==> Charges(b.a.s.pools, v, b.requests[v])
    ensures var c := BookStep(b, op);
            forall v :: v in c.requests ==> Charges(c.a.s.pools, v, c.requests[v])
  {
    var s := b.a.s;
    var k := FirstServing(s.pools, op.flags, op.grants, 0);
    if 0 < op.size <= DMA_MAX_ALLOC_SIZE && k < |s.pools| {
      AllocEffect(s, op, k);
      AcceptedSizeFits(op.size);
      var p := PoolAlloc(s.pools[k], DmaAlignSize(op.size), op.flags, GrantAt(op.grants, k)).0;
      AppendCharges(s.pools, k, p, p.used[|p.used| - 1], b.requests, BookStep(b, op).requests, op.size);
    }
  }

  /** A free leaves the used blocks at other addresses. */
  lemma FreeLeavesOthers(s: AllocatorState, virt: nat, size: nat, v: nat, asked: nat)
    requires Release(s, virt, size).1.Success? && Charges(s.pools, v, asked) && v != virt
    ensures Charges(Release(s, virt, size).0.pools, v, asked)
  {
    var o := FirstOwner(s.pools, virt, 0);
    var i, after := FindByVirt(s.pools[o].used, virt), Release(s, virt, size).0.pools;
    var k, m :| 0 <= k < |s.pools| && 0 <= m < |s.pools[k].used|
      && s.pools[k].used[m].virt == v && s.pools[k].used[m].size == DmaAlignSize(asked);
    if k == o { WithoutKeeps(s.pools[o].used, i, m); }
    assert s.pools[k].used[m] in after[k].used;
    var l :| 0 <= l < |after[k].used| && after[k].used[l] == s.pools[k].used[m];
  }

  lemma FreeCharges(b: Book, op: Operation)
    requires op.Free? && Kept(b)
    ensures var c := BookStep(b, op);
            forall v :: v in c.requests ==> Charges(c.a.s.pools, v, c.requests[v])
  {
    var c := BookStep(b, op);
    if Release(b.a.s, op.virt, op.size).1.Success? {
      forall v | v in c.requests ensures Charges(c.a.s.pools, v, c.requests[v]) {
        FreeLeavesOthers(b.a.s, op.virt, op.size, v, b.requests[v]);
      }
    }
  }

  lemma StepCharges(b: Book, op: Operation)
    requires Kept(b)
    ensures var c := BookStep(b, op);
            forall v :: v in c.requests ==> Charges(c.a.s.pools, v, c.requests[v])
  {
    match op
    case Alloc(_, _, _) => AllocCharges(b, op);
    case Free(_, _) => FreeCharges(b, op);
    case _ =>
      var c := BookStep(b, op);
      forall v | v in c.requests ensures Charges(c.a.s.pools, v, c.requests[v]) {
        ChargesMove(b.a.s.pools, c.a.s.pools, v, b.requests[v]);
      }
  }

  lemma StepKept(b: Book, op: Operation)
    requires Kept(b) && Proper(b, op)
    ensures Kept(BookStep(b, op))
  {
    StepBalanced(b.a, op);
    StepKeepsUnique(b.a.s, op);
    StepApart(b, op);
    StepCharges(b, op);
    if op.Free? { ChargedIsReleased(b.a.s, op.virt, b.requests[op.virt]); }
  }

  lemma KeptIsExact(b: Book)
    requires Kept(b)
    ensures b.a.s.usedSize == Total(UsedBytes, b.a.s.pools) < WORD
  {
    CurrentIsUsedBytes(b.a.s.pools);
    UsedBytesFit(b.a.s.pools);
    DivModUnique(b.a.s.usedSize, WORD, 0, b.a.s.usedSize);
  }

  /** On every run in which callers free what they hold with the aligned size of what they asked for, and page
      sources grant memory that is not in use, used_size is exactly the bytes on the used lists of all pools, every
      outstanding request is charged to exactly one block, and a free of any of them succeeds. */
  lemma UsedSizeIsExact(start: Book, ops: seq<Operation>)
    requires Unstarted(start.a) && start.requests == map[] && Admitted(BookStep, Proper, start, ops)
    ensures var b := Run(BookStep, start, ops);
            && b.a.s.usedSize == Total(UsedBytes, b.a.s.pools) < WORD
            && forall v :: v in b.requests && v != 0 ==>
                 Release(b.a.s, v, DmaAlignSize(b.requests[v])).1.Success?
  {
    assert Kept(start);
    forall b, op | Kept(b) && Proper(b, op) ensures Kept(BookStep(b, op)) { StepKept(b, op); }
    Invariant(BookStep, Proper, Kept, start, ops);
    var b := Run(BookStep, start, ops);
    KeptIsExact(b);
    forall v | v in b.requests && v != 0
      ensures Release(b.a.s, v, DmaAlignSize(b.requests[v])).1.Success?
    {
      ChargedIsReleased(b.a.s, v, b.requests[v]);
    }
  }
}
