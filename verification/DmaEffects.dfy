/** What one call of the DMA allocator returns and leaves behind, field by field, for the pool that the caller can
    work out from the request: the first one that shares a flag and is granted memory, or that holds the block.
    Over whole runs: the counters of calls are numbers of calls. */
module DmaEffects {
  import opened MachineWords
  import opened Alignment
  import opened DmaMerge
  import opened DmaLedger
  import opened Lists
  import opened Runs

  /** Pool j is asked for memory and gets it. */
  predicate Granting(s: AllocatorState, flags: nat, grants: seq<Grant>, j: nat) {
    j < |s.pools| && j < |grants| && grants[j].Granted? && And(s.pools[j].flags, flags) != 0
  }

  /** The first pool that is granted memory gets a block of the aligned size at the end of its used list, no
      other pool changes, and the same size is counted in the pool and in the allocator. */
  lemma AllocationServed(s: AllocatorState, size: nat, flags: nat, grants: seq<Grant>, k: nat)
    requires 0 < size <= 32 * 1024 * 1024 && Granting(s, flags, grants, k)
    requires forall j :: 0 <= j < k ==> !Granting(s, flags, grants, j)
    ensures var n, g, p := DmaAlignSize(size), grants[k], s.pools[k];
            var block := DmaBlock(g.phys, g.virt, n, Or(flags, 0x8000));
            var used := (s.usedSize + n) % 0x1_0000_0000_0000_0000;
            Allocate(s, size, flags, grants) ==
            (AllocatorState(
               s.pools[k := PoolState(p.size, p.flags, p.used + [block], p.free, p.totalBlocks + 1, p.usedBlocks + 1,
                                      p.freeBlocks, p.current + n, Max(p.peak, p.current + n))],
               s.totalSize, used, Max(s.peakSize, used), s.totalAllocations + 1, s.totalFrees,
               s.currentAllocations + 1, s.errors),
             g.virt)
  {
    AcceptedSizeFits(size);
    FirstServingAt(s, flags, grants, k);
  }

  lemma FirstServingAt(s: AllocatorState, flags: nat, grants: seq<Grant>, k: nat)
    requires k <= |s.pools| && forall j :: 0 <= j < k ==> !Granting(s, flags, grants, j)
    requires k < |s.pools| ==> Granting(s, flags, grants, k)
    ensures FirstServing(s.pools, flags, grants, 0) == k
  {
    forall j | 0 <= j < |s.pools|
      ensures Serves(s.pools[j], flags, GrantAt(grants, j)) <==> Granting(s, flags, grants, j)
    {}
    assert forall j :: 0 <= j < k ==> !Granting(s, flags, grants, j);
  }

  /** Without such a pool, or with a size out of range, the answer is NULL; only the former counts an error. */
  lemma AllocationRefused(s: AllocatorState, size: nat, flags: nat, grants: seq<Grant>)
    requires 0 < size <= 32 * 1024 * 1024 ==> forall j :: 0 <= j < |s.pools| ==> !Granting(s, flags, grants, j)
    ensures Allocate(s, size, flags, grants)
            == (s.(errors := s.errors + if 0 < size <= 32 * 1024 * 1024 then 1 else 0), 0)
  {
    if 0 < size <= 32 * 1024 * 1024 {
      AcceptedSizeFits(size);
      FirstServingAt(s, flags, grants, |s.pools|);
      NothingServed(s, DmaAlignSize(size), flags, grants);
    }
  }

  lemma NothingServed(s: AllocatorState, n: nat, flags: nat, grants: seq<Grant>)
    requires FirstServing(s.pools, flags, grants, 0) == |s.pools|
    ensures AllocateAligned(s, n, flags, grants) == (s.(errors := s.errors + 1), 0)
  {}

  /** Pool j has a block in use at this address. */
  predicate Holds(s: AllocatorState, virt: nat, j: nat) {
    j < |s.pools| && exists b <- s.pools[j].used :: b.virt == virt
  }

  lemma FirstOwnerAt(s: AllocatorState, virt: nat, k: nat)
    requires k <= |s.pools| && (forall j :: 0 <= j < k ==> !Holds(s, virt, j)) && (k < |s.pools| ==> Holds(s, virt, k))
    ensures FirstOwner(s.pools, virt, 0) == k
  {
    forall j | 0 <= j < |s.pools|
      ensures Holds(s, virt, j) <==> FindByVirt(s.pools[j].used, virt) < |s.pools[j].used|
    {
      var i := FindByVirt(s.pools[j].used, virt);
      if i < |s.pools[j].used| { assert s.pools[j].used[i] in s.pools[j].used; }
    }
  }

  /** The first block at the address in the first pool that has one moves to the end of that pool's free list. The
      pool gives up the size of the block, the allocator the size that the caller passes. */
  lemma FreeServed(s: AllocatorState, virt: nat, size: nat, k: nat, m: nat)
    requires virt != 0 && size != 0 && k < |s.pools| && m < |s.pools[k].used|
    requires s.pools[k].used[m].virt == virt && forall j :: 0 <= j < m ==> s.pools[k].used[j].virt != virt
    requires forall j :: 0 <= j < k ==> !Holds(s, virt, j)
    ensures var p := s.pools[k];
            var b := p.used[m];
            Release(s, virt, size) ==
            (AllocatorState(
               s.pools[k := PoolState(p.size, p.flags, Without(p.used, m), p.free + [b], p.totalBlocks,
                                      p.usedBlocks - 1, p.freeBlocks + 1, p.current - b.size, p.peak)],
               s.totalSize, (s.usedSize - size) % 0x1_0000_0000_0000_0000, s.peakSize, s.totalAllocations,
               s.totalFrees + 1, s.currentAllocations - 1, s.errors),
             Success)
  {
    assert s.pools[k].used[m] in s.pools[k].used;
    assert Holds(s, virt, k);
    FirstOwnerAt(s, virt, k);
    assert FindByVirt(s.pools[k].used, virt) == m;
  }

  /** The operations of runs are these calls. */
  lemma StepsAreCalls(s: AllocatorState, virt: nat, size: nat)
    ensures Step(s, Free(virt, size)) == Release(s, virt, size).0 && Step(s, Defrag) == Defragment(s).0
  {}

  /** An address that no pool has in use counts an error; a null address or a size of 0 does not. */
  lemma FreeRefused(s: AllocatorState, virt: nat, size: nat)
    requires virt != 0 && size != 0 ==> forall j :: 0 <= j < |s.pools| ==> !Holds(s, virt, j)
    ensures Release(s, virt, size) == if virt == 0 || size == 0 then (s, Failure(Invalid))
                                      else (s.(errors := s.errors + 1), Failure(NotFound))
  {
    if virt != 0 && size != 0 { FirstOwnerAt(s, virt, |s.pools|); }
  }

  // ---- The counters of calls over whole runs --------------------------------------------------

  /** The allocator, and how many calls so far were answered with an address, released a block, and found no pool
      that could serve them. */
  datatype Tally = Tally(s: AllocatorState, served: nat, released: nat, failed: nat)

  function TallyStep(t: Tally, op: Operation): Tally {
    var next := Step(t.s, op);
    match op
    case Alloc(size, flags, grants) =>
      if Allocate(t.s, size, flags, grants).1 != 0 then t.(s := next, served := t.served + 1)
      else t.(s := next, failed := t.failed + if 0 < size <= 32 * 1024 * 1024 then 1 else 0)
    case Free(virt, size) =>
      if Release(t.s, virt, size).1.Success? then t.(s := next, released := t.released + 1)
      else t.(s := next, failed := t.failed + if virt != 0 && size != 0 then 1 else 0)
    case _ => t.(s := next)
  }

  predicate Tallied(t: Tally) {
    && t.s.totalAllocations == t.served && t.s.totalFrees == t.released && t.s.errors == t.failed
    && t.s.currentAllocations == t.served - t.released
  }

  lemma StepTallied(t: Tally, op: Operation)
    requires Tallied(t)
    ensures Tallied(TallyStep(t, op))
  {
    match op
    case Alloc(size, _, _) => if 0 < size <= 32 * 1024 * 1024 { AcceptedSizeFits(size); }
    case Free(_, _) =>
    case CreatePool(_, _, _) =>
    case Defrag =>
  }

  /** On every run total_allocations is the number of requests served, total_frees the number of blocks released,
      current_allocations their difference, and errors the number of calls that no pool could serve. */
  lemma CallsCountedOnEveryRun(start: Tally, ops: seq<Operation>)
    requires Fresh(start.s) && start.s.errors == 0 && start == Tally(start.s, 0, 0, 0)
    ensures Tallied(Run(TallyStep, start, ops))
  {
    forall t, op | Tallied(t) ensures Tallied(TallyStep(t, op)) { StepTallied(t, op); }
    AlwaysInvariant(TallyStep, Tallied, start, ops);
  }
}
