/** Frees in the DMA allocator: they find the pool that holds the block, and undo its allocation. */
module DmaOwners {
  import opened MachineWords
  import opened Alignment
  import opened DmaMerge
  import opened DmaLedger
  import opened Lists
  import opened Runs

  // ---- Frees find their owner -----------------------------------------------------------------

  /** No two used blocks of the pools have the same address. */
  ghost predicate UniqueIn(pools: seq<PoolState>) {
    forall k, m, l, n ::
      (&& 0 <= k < |pools| && 0 <= m < |pools[k].used| && 0 <= l < |pools| && 0 <= n < |pools[l].used|
       && pools[k].used[m].virt == pools[l].used[n].virt) ==> k == l && m == n
  }

  ghost predicate UniqueAddresses(s: AllocatorState) {
    UniqueIn(s.pools)
  }

  /** Some used block has this address. */
  predicate Live(s: AllocatorState, virt: nat) {
    FirstOwner(s.pools, virt, 0) < |s.pools|
  }

  /** A free of a used block succeeds and changes exactly the pool that holds the block: the block moves from
      its used list to the end of its free list, the other blocks keep their order, no other pool changes. */
  lemma FreeCreditsOwner(s: AllocatorState, k: nat, m: nat, size: nat)
    requires UniqueAddresses(s) && k < |s.pools| && m < |s.pools[k].used|
    requires s.pools[k].used[m].virt != 0 && size != 0
    ensures var (t, r) := Release(s, s.pools[k].used[m].virt, size);
            && r.Success? && |t.pools| == |s.pools|
            && t.pools[k].used == Without(s.pools[k].used, m)
            && t.pools[k].free == s.pools[k].free + [s.pools[k].used[m]]
            && t.pools[k].current == s.pools[k].current - s.pools[k].used[m].size
            && (forall j :: 0 <= j < |s.pools| && j != k ==> t.pools[j] == s.pools[j])
  {
    var virt := s.pools[k].used[m].virt;
    var f := FindByVirt(s.pools[k].used, virt);
    assert f == m;
    var o := FirstOwner(s.pools, virt, 0);
    assert o <= k;
    var g := FindByVirt(s.pools[o].used, virt);
    assert s.pools[o].used[g].virt == virt;
  }

  /** The page sources do not hand out an address that is still in use. */
  predicate Honest(s: AllocatorState, op: Operation) {
    op.Alloc? ==> forall g <- op.grants :: g.Granted? ==> !Live(s, g.virt)
  }

  lemma LiveBlock(s: AllocatorState, k: nat, m: nat)
    requires k < |s.pools| && m < |s.pools[k].used|
    ensures Live(s, s.pools[k].used[m].virt)
  {
    assert FindByVirt(s.pools[k].used, s.pools[k].used[m].virt) <= m;
  }

  /** Addresses stay unique over every run on honest page sources, so FreeCreditsOwner applies to it. */
  lemma AddressesStayUnique(start: AllocatorState, ops: seq<Operation>)
    requires Fresh(start) && Admitted(Step, Honest, start, ops)
    ensures UniqueAddresses(Run(Step, start, ops))
  {
    forall s, op | UniqueAddresses(s) && Honest(s, op) ensures UniqueAddresses(Step(s, op)) { StepKeepsUnique(s, op); }
    Invariant(Step, Honest, UniqueAddresses, start, ops);
  }

  lemma StepKeepsUnique(s: AllocatorState, op: Operation)
    requires UniqueAddresses(s) && Honest(s, op)
    ensures UniqueAddresses(Step(s, op))
  {
    match op
    case Alloc(_, _, _) => AllocKeepsUnique(s, op);
    case Free(_, _) => FreeKeepsUnique(s, op);
    case CreatePool(size, flags, _) => assert NewPool(size, flags).used == [];
    case Defrag => DefragKeepsUnique(s);
  }

  lemma DefragKeepsUnique(s: AllocatorState)
    requires UniqueAddresses(s)
    ensures UniqueAddresses(Step(s, Defrag))
  {
    assert forall i :: 0 <= i < |s.pools| ==> Step(s, Defrag).pools[i].used == s.pools[i].used;
  }

  lemma AppendKeepsUnique(pools: seq<PoolState>, k: nat, p: PoolState, b: DmaBlock)
    requires UniqueIn(pools) && k < |pools| && p.used == pools[k].used + [b]
    requires forall i, m :: 0 <= i < |pools| && 0 <= m < |pools[i].used| ==> pools[i].used[m].virt != b.virt
    ensures UniqueIn(pools[k := p])
  {}

  lemma RemoveKeepsUnique(pools: seq<PoolState>, k: nat, p: PoolState, f: nat)
    requires UniqueIn(pools) && k < |pools| && f < |pools[k].used| && p.used == Without(pools[k].used, f)
    ensures UniqueIn(pools[k := p])
  {
    var u := pools[k].used;
    assert forall m :: 0 <= m < |p.used| ==> p.used[m] == u[if m < f then m else m + 1];
  }

  lemma AllocKeepsUnique(s: AllocatorState, op: Operation)
    requires op.Alloc? && UniqueAddresses(s) && Honest(s, op)
    ensures UniqueAddresses(Step(s, op))
  {
    var k := FirstServing(s.pools, op.flags, op.grants, 0);
    if 0 < op.size <= DMA_MAX_ALLOC_SIZE && k < |s.pools| {
      AcceptedSizeFits(op.size);
      var g := op.grants[k];
      assert g in op.grants;
      forall i, m | 0 <= i < |s.pools| && 0 <= m < |s.pools[i].used|
        ensures s.pools[i].used[m].virt != g.virt
      {
        LiveBlock(s, i, m);
      }
      var p := PoolAlloc(s.pools[k], DmaAlignSize(op.size), op.flags, g).0;
      AppendKeepsUnique(s.pools, k, p, p.used[|p.used| - 1]);
    }
  }

  lemma FreeKeepsUnique(s: AllocatorState, op: Operation)
    requires op.Free? && UniqueAddresses(s)
    ensures UniqueAddresses(Step(s, op))
  {
    if Release(s, op.virt, op.size).1.Success? {
      var k := FirstOwner(s.pools, op.virt, 0);
      RemoveKeepsUnique(s.pools, k, PoolFree(s.pools[k], op.virt, op.size).0, FindByVirt(s.pools[k].used, op.virt));
    }
  }

  /** A block that was just allocated at a fresh address is the last of its pool, and a free finds it. */
  lemma FreshBlockIsFound(s: AllocatorState, size: nat, flags: nat, grants: seq<Grant>)
    requires Allocate(s, size, flags, grants).1 != 0
    requires !Live(s, Allocate(s, size, flags, grants).1)
    ensures var (t, virt) := Allocate(s, size, flags, grants);
            var k := FirstServing(s.pools, flags, grants, 0);
            && k < |s.pools| == |t.pools| && FirstOwner(t.pools, virt, 0) == k
            && FindByVirt(t.pools[k].used, virt) == |s.pools[k].used|
            && |t.pools[k].used| == |s.pools[k].used| + 1
            && t.pools[k].used[..|s.pools[k].used|] == s.pools[k].used
            && t.pools[k].used[|s.pools[k].used|].size == DmaAlignSize(size)
  {
    AcceptedSizeFits(size);
    var k := FirstServing(s.pools, flags, grants, 0);
    var (t, virt) := Allocate(s, size, flags, grants);
    var used := s.pools[k].used;
    forall i, m | 0 <= i < |s.pools| && 0 <= m < |s.pools[i].used|
      ensures s.pools[i].used[m].virt != virt
    {
      LiveBlock(s, i, m);
    }
    assert t.pools[k].used[..|used|] == used;
    assert t.pools[k].used[|used|].virt == virt;
  }

  /** A free undoes an allocation as far as lists and counts go: used lists and the number of live allocations
      are what they were, and only the serving pool's free list remembers the block. The allocator's
      used_size is what it was if and only if the free passes the aligned size. */
  lemma FreeUndoesAlloc(s: AllocatorState, size: nat, flags: nat, grants: seq<Grant>, passed: nat)
    requires s.usedSize < WORD && 0 < passed < WORD
    requires Allocate(s, size, flags, grants).1 != 0
    requires !Live(s, Allocate(s, size, flags, grants).1)
    ensures var (t, virt) := Allocate(s, size, flags, grants);
            var (u, r) := Release(t, virt, passed);
            && r.Success? && u.currentAllocations == s.currentAllocations && |u.pools| == |s.pools|
            && (u.usedSize == s.usedSize <==> passed == DmaAlignSize(size))
            && u.usedSize == (s.usedSize + DmaAlignSize(size) - passed) % WORD
            && exists k :: 0 <= k < |s.pools| && |u.pools[k].free| == |s.pools[k].free| + 1
                 && u.pools[k].used == s.pools[k].used && u.pools[k].current == s.pools[k].current
                 && forall j :: 0 <= j < |s.pools| && j != k ==> u.pools[j] == s.pools[j]
  {
    FreshBlockIsFound(s, size, flags, grants);
    var n := DmaAlignSize(size);
    assert n <= DMA_MAX_ALLOC_SIZE by { AcceptedSizeFits(size); }
    var k := FirstServing(s.pools, flags, grants, 0);
    var (t, virt) := Allocate(s, size, flags, grants);
    WrapDifference(s.usedSize, n, passed);
    var u := Release(t, virt, passed).0;
    assert u.pools[k].used == s.pools[k].used;
    assert |u.pools[k].free| == |s.pools[k].free| + 1;
  }

  lemma WrapDifference(x: nat, n: nat, m: nat)
    requires x < WORD && n < WORD && m < WORD
    ensures ((x + n) % WORD - m) % WORD == (x + n - m) % WORD
    ensures (x + n - m) % WORD == x <==> n == m
  {
    WrapAdd(x + n, -(m as int));
    var y := x + n - m;
    if y < 0 {
      DivModUnique(y, WORD, -1, y + WORD);
    } else if y >= WORD {
      DivModUnique(y, WORD, 1, y - WORD);
    } else {
      DivModUnique(y, WORD, 0, y);
    }
  }

  /** The size a caller asked for is not the size to free with: 100 bytes are charged as 128, so by
      FreeUndoesAlloc a free that passes 100 leaves 28 bytes on the ledger that no block accounts for. */
  lemma AlignHundred(size: nat)
    requires size == 100
    ensures DmaAlignSize(size) == 128
  {
    DmaAlignSizeIsLeast(size);
    assert Pow2(7) == 128 && Pow2(6) == 64;
    var k: nat :| DmaAlignSize(size) == Pow2(k);
    if k < 7 {
      if k < 6 { Pow2Monotone(k, 6); }
    } else if k > 7 {
      Pow2Monotone(7, k);
    }
  }
}
