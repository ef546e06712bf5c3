/** Merging of adjacent free blocks in a DMA pool: the pass of dma_block_merge, the loop of
    dma_pool_defrag, and what they converge to. */
module DmaMerge {
  import opened MachineWords

  /** struct dma_block, without the fields that only feed log lines. */
  datatype DmaBlock = DmaBlock(phys: nat, virt: nat, size: nat, flags: nat)

  /** phys_addr + size of a block, in the 64-bit arithmetic of the source. */
  function End(b: DmaBlock): nat {
    (b.phys + b.size) % WORD
  }

  /** b starts where a ends. */
  predicate Contiguous(a: DmaBlock, b: DmaBlock) {
    End(a) == b.phys
  }

  function Absorb(a: DmaBlock, b: DmaBlock): DmaBlock {
    a.(size := (a.size + b.size) % WORD)
  }

  /** No block is followed, in list order, by a block that starts where it ends. */
  predicate Settled(s: seq<DmaBlock>) {
    forall i :: 0 <= i < |s| - 1 ==> !Contiguous(s[i], s[i + 1])
  }

  /** One merge pass: a visited block absorbs its successor at most once, and the walk resumes after
      the absorbed block. */
  function Pass(s: seq<DmaBlock>): seq<DmaBlock> {
    if |s| < 2 then s
    else if Contiguous(s[0], s[1]) then [Absorb(s[0], s[1])] + Pass(s[2..])
    else [s[0]] + Pass(s[1..])
  }

  lemma SettledCons(s: seq<DmaBlock>)
    requires |s| >= 2
    ensures Settled(s) <==> !Contiguous(s[0], s[1]) && Settled(s[1..])
  {
    if !Contiguous(s[0], s[1]) && Settled(s[1..]) {
      forall i | 0 <= i < |s| - 1 ensures !Contiguous(s[i], s[i + 1]) {
        if i > 0 { assert s[i] == s[1..][i - 1] && s[i + 1] == s[1..][i]; }
      }
    }
    if Settled(s) {
      forall i | 0 <= i < |s[1..]| - 1 ensures !Contiguous(s[1..][i], s[1..][i + 1]) {
        assert s[1..][i] == s[i + 1] && s[1..][i + 1] == s[i + 2];
      }
    }
  }

  // ---- Runs of contiguous blocks --------------------------------------------------------------

  /** The lengths of the maximal runs of list-consecutive contiguous blocks, in list order. */
  function RunLengths(s: seq<DmaBlock>): (r: seq<nat>)
    ensures s != [] ==> r != [] && r[0] > 0
  {
    if s == [] then []
    else if |s| == 1 then [1]
    else
      var t := RunLengths(s[1..]);
      if Contiguous(s[0], s[1]) then [t[0] + 1] + t[1..] else [1] + t
  }

  /** Every run of r blocks becomes one of ceil(r / 2). */
  function Halved(r: seq<nat>): (h: seq<nat>)
    ensures |h| == |r|
  {
    if r == [] then [] else [(r[0] + 1) / 2] + Halved(r[1..])
  }

  function Longest(r: seq<nat>): nat {
    if r == [] then 0 else
      var m := Longest(r[1..]);
      if r[0] > m then r[0] else m
  }

  /** The block that remains when each maximal run is collapsed into its first block. */
  function Coalesced(s: seq<DmaBlock>): (c: seq<DmaBlock>)
    ensures s != [] ==> c != [] && c[0].phys == s[0].phys
  {
    if |s| < 2 then s
    else
      var c := Coalesced(s[1..]);
      if Contiguous(s[0], s[1]) then [Absorb(s[0], c[0])] + c[1..] else [s[0]] + c
  }

  /** Absorbing keeps the start and takes over the end. */
  lemma AbsorbEnds(a: DmaBlock, b: DmaBlock)
    requires Contiguous(a, b)
    ensures End(Absorb(a, b)) == End(b)
  {
    WrapAdd(a.size + b.size, a.phys);
    WrapAdd(a.phys + a.size, b.size);
  }

  /** Absorbing may be regrouped. */
  lemma AbsorbRegroups(a: DmaBlock, b: DmaBlock, c: DmaBlock)
    ensures Absorb(Absorb(a, b), c) == Absorb(a, Absorb(b, c))
  {
    WrapAdd(a.size + b.size, c.size);
    WrapAdd(b.size + c.size, a.size);
  }

  /** The first block after a pass starts where the first block before it started. */
  lemma PassHead(s: seq<DmaBlock>)
    requires s != []
    ensures Pass(s) != [] && Pass(s)[0].phys == s[0].phys
  {}

  /** Runs of a list with one more block at its head. */
  lemma RunsCons(a: DmaBlock, t: seq<DmaBlock>)
    ensures RunLengths([a] + t) ==
            if t == [] then [1]
            else if Contiguous(a, t[0]) then [RunLengths(t)[0] + 1] + RunLengths(t)[1..]
            else [1] + RunLengths(t)
  {
    assert ([a] + t)[1..] == t;
  }

  lemma HalvedCons(n: nat, r: seq<nat>)
    ensures Halved([n] + r) == [(n + 1) / 2] + Halved(r)
  {
    assert ([n] + r)[1..] == r;
  }

  /** One pass turns every maximal run of r blocks into a run of ceil(r / 2), and no runs join. */
  lemma {:induction false} PassHalvesRuns(s: seq<DmaBlock>)
    ensures RunLengths(Pass(s)) == Halved(RunLengths(s))
  {
    if |s| < 2 {
    } else if Contiguous(s[0], s[1]) {
      PassHalvesRuns(s[2..]);
      PairHalvesRun(s[0], s[1], s[2..]);
      assert s == [s[0]] + ([s[1]] + s[2..]);
    } else {
      PassHalvesRuns(s[1..]);
      PassHead(s[1..]);
      RunsCons(s[0], s[1..]);
      RunsCons(s[0], Pass(s[1..]));
      HalvedCons(1, RunLengths(s[1..]));
      assert s == [s[0]] + s[1..];
    }
  }

  /** The step of PassHalvesRuns that merges the first two blocks. */
  lemma PairHalvesRun(a: DmaBlock, b: DmaBlock, rest: seq<DmaBlock>)
    requires Contiguous(a, b) && RunLengths(Pass(rest)) == Halved(RunLengths(rest))
    ensures RunLengths([Absorb(a, b)] + Pass(rest)) == Halved(RunLengths([a] + ([b] + rest)))
  {
    AbsorbEnds(a, b);
    RunsCons(b, rest);
    RunsCons(a, [b] + rest);
    RunsCons(Absorb(a, b), Pass(rest));
    var r := RunLengths(rest);
    if rest == [] {
      HalvedCons(2, []);
    } else {
      PassHead(rest);
      if Contiguous(b, rest[0]) {
        HeadGrows(r[0], r[1..]);
        assert r == [r[0]] + r[1..];
      } else {
        HalvedCons(2, r);
      }
    }
  }

  lemma HeadGrows(n: nat, r: seq<nat>)
    ensures Halved([n + 2] + r) == [Halved([n] + r)[0] + 1] + Halved([n] + r)[1..]
  {
    HalvedCons(n + 2, r);
    HalvedCons(n, r);
  }

  /** A pass never changes what the list coalesces to. */
  lemma {:induction false} PassKeepsCoalesced(s: seq<DmaBlock>)
    ensures Coalesced(Pass(s)) == Coalesced(s)
  {
    if |s| >= 2 {
      if Contiguous(s[0], s[1]) {
        var rest := s[2..];
        PassKeepsCoalesced(rest);
        var p := Pass(s);
        assert p[1..] == Pass(rest) && s[1..][1..] == rest;
        if rest != [] {
          PassHead(rest);
          AbsorbEnds(s[0], s[1]);
          AbsorbRegroups(s[0], s[1], Coalesced(rest)[0]);
          assert s[1..][1] == rest[0];
        }
      } else {
        PassKeepsCoalesced(s[1..]);
        PassHead(s[1..]);
        assert Pass(s)[1..] == Pass(s[1..]);
      }
    }
  }

  /** A settled list is its own coalescence, has only runs of one, and a pass leaves it alone; a pass
      over any other list shortens it. */
  lemma {:induction false} SettledFixpoint(s: seq<DmaBlock>)
    ensures Settled(s) <==> Longest(RunLengths(s)) <= 1
    ensures Settled(s) ==> Pass(s) == s == Coalesced(s)
    ensures !Settled(s) ==> |Pass(s)| < |s|
  {
    if |s| >= 2 {
      SettledFixpoint(s[1..]);
      SettledCons(s);
      assert s == [s[0]] + s[1..];
      if Contiguous(s[0], s[1]) {
        assert RunLengths(s)[0] >= 2;
        PassShrinks(s[2..]);
      } else {
        assert RunLengths(s)[1..] == RunLengths(s[1..]);
      }
    }
  }

  lemma {:induction false} PassShrinks(s: seq<DmaBlock>)
    ensures |Pass(s)| <= |s|
  {
    if |s| >= 2 {
      if Contiguous(s[0], s[1]) { PassShrinks(s[2..]); } else { PassShrinks(s[1..]); }
    }
  }

  lemma {:induction false} LongestHalved(r: seq<nat>)
    ensures Longest(Halved(r)) == (Longest(r) + 1) / 2
  {
    if r != [] {
      LongestHalved(r[1..]);
      assert Halved(r)[1..] == Halved(r[1..]);
    }
  }

  /** No run is longer than the list. */
  lemma {:induction false} RunsFitTheList(s: seq<DmaBlock>)
    ensures Longest(RunLengths(s)) <= |s|
    ensures s != [] ==> RunLengths(s)[0] <= |s|
  {
    if |s| >= 2 {
      RunsFitTheList(s[1..]);
      var t := RunLengths(s[1..]);
      if Contiguous(s[0], s[1]) {
        assert RunLengths(s)[1..] == t[1..];
      } else {
        assert RunLengths(s)[1..] == t;
      }
    }
  }

  // ---- What a pass does, block by block -------------------------------------------------------

  /** For a block inside the address space: what comes right behind it, and what joining the two gives. */
  lemma JoinExactly(a: DmaBlock, b: DmaBlock)
    requires Fits(a)
    ensures Contiguous(a, b) <==> b.phys == a.phys + a.size
    ensures a.size + b.size < WORD ==> Absorb(a, b) == DmaBlock(a.phys, a.virt, a.size + b.size, a.flags)
    ensures a.size + b.size == WORD ==> Absorb(a, b).size == 0
  {
    DivModUnique(a.phys + a.size, WORD, 0, a.phys + a.size);
    if a.size + b.size < WORD { DivModUnique(a.size + b.size, WORD, 0, a.size + b.size); }
  }

  /** Each block ends where the next one starts. */
  predicate OneRun(s: seq<DmaBlock>) {
    forall i :: 0 <= i < |s| - 1 ==> Contiguous(s[i], s[i + 1])
  }

  /** The list t joins the first block of s with the second, the third with the fourth and so on. */
  predicate JoinsPairs(s: seq<DmaBlock>, t: seq<DmaBlock>) {
    && |t| == (|s| + 1) / 2
    && forall j :: 0 <= j < |t| ==> t[j] == if 2 * j + 1 < |s| then Absorb(s[2 * j], s[2 * j + 1]) else s[2 * j]
  }

  lemma OneMorePair(s: seq<DmaBlock>, t: seq<DmaBlock>)
    requires |s| >= 2 && JoinsPairs(s[2..], t)
    ensures JoinsPairs(s, [Absorb(s[0], s[1])] + t)
  {
    var u := [Absorb(s[0], s[1])] + t;
    forall j | 0 <= j < |u| ensures u[j] == if 2 * j + 1 < |s| then Absorb(s[2 * j], s[2 * j + 1]) else s[2 * j] {
      if j > 0 {
        var i := j - 1;
        assert u[j] == t[i] && s[2..][2 * i] == s[2 * j];
        if 2 * j + 1 < |s| { assert s[2..][2 * i + 1] == s[2 * j + 1]; }
      }
    }
  }

  /** In a run of contiguous blocks a pass joins the blocks in pairs from the first one on. */
  lemma {:induction false} PassPairsRun(s: seq<DmaBlock>)
    requires OneRun(s)
    ensures JoinsPairs(s, Pass(s))
  {
    if |s| >= 2 {
      RunTail(s);
      if |s| > 2 { RunTail(s[1..]); }
      assert s[2..] == s[1..][1..];
      PassPairsRun(s[2..]);
      OneMorePair(s, Pass(s[2..]));
    }
  }

  lemma PassCons(a: DmaBlock, t: seq<DmaBlock>)
    requires t != []
    ensures Contiguous(a, t[0]) ==> Pass([a] + t) == [Absorb(a, t[0])] + Pass(t[1..])
    ensures !Contiguous(a, t[0]) ==> Pass([a] + t) == [a] + Pass(t)
  {
    assert ([a] + t)[1..] == t && ([a] + t)[2..] == t[1..];
  }

  lemma Regrouped<T>(x: T, c: seq<T>, d: seq<T>)
    ensures [x] + (c + d) == ([x] + c) + d
    ensures c != [] ==> [x] + (c + d)[1..] == ([x] + c[1..]) + d && (c + d)[0] == c[0]
  {}

  lemma Split(a: seq<DmaBlock>, b: seq<DmaBlock>)
    requires a != []
    ensures a == [a[0]] + a[1..] && a + b == [a[0]] + (a[1..] + b)
    ensures a[1..] == [] ==> a[1..] + b == b
  {}

  /** One more block in front, not joined. */
  lemma PassOneMore(h: DmaBlock, t: seq<DmaBlock>, b: seq<DmaBlock>)
    requires t != [] && !Contiguous(h, t[0]) && Pass(t + b) == Pass(t) + Pass(b)
    ensures Pass([h] + (t + b)) == Pass([h] + t) + Pass(b)
  {
    assert (t + b)[0] == t[0];
    PassCons(h, t);
    PassCons(h, t + b);
    Regrouped(h, Pass(t), Pass(b));
  }

  /** Two more blocks in front, joined. */
  lemma PassTwoMore(h: DmaBlock, g: DmaBlock, t: seq<DmaBlock>, b: seq<DmaBlock>)
    requires Contiguous(h, g) && Pass(t + b) == Pass(t) + Pass(b)
    ensures Pass([h] + ([g] + (t + b))) == Pass([h] + ([g] + t)) + Pass(b)
  {
    PassCons(h, [g] + t);
    PassCons(h, [g] + (t + b));
    assert ([g] + t)[1..] == t && ([g] + (t + b))[1..] == t + b;
    Regrouped(Absorb(h, g), Pass(t), Pass(b));
  }

  /** A pass treats the two sides of a gap separately. */
  lemma {:induction false} PassSplitsAtGap(a: seq<DmaBlock>, b: seq<DmaBlock>)
    requires a != [] && b != [] && !Contiguous(a[|a| - 1], b[0])
    ensures Pass(a + b) == Pass(a) + Pass(b)
  {
    var t := a[1..];
    Split(a, b);
    if t == [] {
      PassCons(a[0], b);
    } else if Contiguous(a[0], t[0]) {
      var rest := t[1..];
      Split(t, b);
      if rest != [] { PassSplitsAtGap(rest, b); } else { assert rest + b == b; }
      PassTwoMore(a[0], t[0], rest, b);
    } else {
      PassSplitsAtGap(t, b);
      PassOneMore(a[0], t, b);
    }
  }

  lemma CoalescedCons(a: DmaBlock, t: seq<DmaBlock>)
    requires t != []
    ensures Coalesced([a] + t) == if Contiguous(a, t[0]) then [Absorb(a, Coalesced(t)[0])] + Coalesced(t)[1..]
                                  else [a] + Coalesced(t)
  {
    assert ([a] + t)[1..] == t;
  }

  function SumSizes(s: seq<DmaBlock>): nat {
    if s == [] then 0 else s[0].size + SumSizes(s[1..])
  }

  /** A run of contiguous blocks coalesces into one block with the place, the address and the flags of the first
      and the sizes of all. */
  lemma {:induction false} CoalescedRun(s: seq<DmaBlock>)
    requires s != [] && OneRun(s) && forall i :: 0 <= i < |s| ==> s[i].size < WORD
    ensures Coalesced(s) == [s[0].(size := SumSizes(s) % WORD)]
  {
    var t := s[1..];
    assert s == [s[0]] + t;
    if t == [] {
      DivModUnique(s[0].size, WORD, 0, s[0].size);
      assert SumSizes(s) == s[0].size;
    } else {
      RunTail(s);
      CoalescedRun(t);
      CoalescedCons(s[0], t);
      WrapAdd(SumSizes(t), s[0].size);
    }
  }

  lemma RunTail(s: seq<DmaBlock>)
    requires |s| >= 2 && OneRun(s)
    ensures Contiguous(s[0], s[1]) && OneRun(s[1..])
  {
    assert Contiguous(s[0], s[0 + 1]);
    forall i | 0 <= i < |s[1..]| - 1 ensures Contiguous(s[1..][i], s[1..][i + 1]) {
      assert s[1..][i] == s[i + 1] && s[1..][i + 1] == s[i + 1 + 1];
    }
  }

  lemma CoalescedOneMore(h: DmaBlock, t: seq<DmaBlock>, b: seq<DmaBlock>)
    requires t != [] && Coalesced(t + b) == Coalesced(t) + Coalesced(b)
    ensures Coalesced([h] + (t + b)) == Coalesced([h] + t) + Coalesced(b)
  {
    CoalescedCons(h, t);
    CoalescedCons(h, t + b);
    var c, d := Coalesced(t), Coalesced(b);
    assert c != [] && (t + b)[0] == t[0];
    Regrouped(Absorb(h, c[0]), c, d);
    Regrouped(h, c, d);
  }

  /** The coalescence treats the two sides of a gap separately. */
  lemma {:induction false} CoalescedSplitsAtGap(a: seq<DmaBlock>, b: seq<DmaBlock>)
    requires a != [] && b != [] && !Contiguous(a[|a| - 1], b[0])
    ensures Coalesced(a + b) == Coalesced(a) + Coalesced(b)
  {
    var t := a[1..];
    Split(a, b);
    if t == [] {
      CoalescedCons(a[0], b);
    } else {
      CoalescedSplitsAtGap(t, b);
      CoalescedOneMore(a[0], t, b);
    }
  }

  // ---- The defragmentation loop ---------------------------------------------------------------

  /** The loop of dma_pool_defrag with `budget` merging passes left: repeat while a pass merges. */
  function Defragged(s: seq<DmaBlock>, budget: nat): seq<DmaBlock>
    decreases budget, s
  {
    if budget == 0 || Pass(s) == s then s else Defragged(Pass(s), budget - 1)
  }

  lemma HalfFits(n: nat, budget: nat)
    requires budget > 0
    ensures (n + 1) / 2 <= Pow2(budget - 1) <==> n <= Pow2(budget)
  {}

  /** The cap on the number of passes is exact: `budget` passes settle the list if and only if its longest
      run has at most 2^budget blocks, and then the result is the full coalescence. */
  lemma {:induction false} DefragConverges(s: seq<DmaBlock>, budget: nat)
    ensures Settled(Defragged(s, budget)) <==> Longest(RunLengths(s)) <= Pow2(budget)
    ensures Settled(Defragged(s, budget)) ==> Defragged(s, budget) == Coalesced(s)
    decreases budget
  {
    if budget > 0 && Pass(s) != s {
      DefragConverges(Pass(s), budget - 1);
      DefragStep(s, budget);
    } else {
      SettledFixpoint(s);
      assert Defragged(s, budget) == s;
    }
  }

  /** One pass more. */
  lemma DefragStep(s: seq<DmaBlock>, budget: nat)
    requires budget > 0 && Pass(s) != s
    ensures Defragged(s, budget) == Defragged(Pass(s), budget - 1) && Coalesced(Pass(s)) == Coalesced(s)
    ensures Longest(RunLengths(Pass(s))) <= Pow2(budget - 1) <==> Longest(RunLengths(s)) <= Pow2(budget)
  {
    PassHalvesLongest(s);
    PassKeepsCoalesced(s);
    HalfFits(Longest(RunLengths(s)), budget);
  }

  /** The longest run is halved by a pass. */
  lemma PassHalvesLongest(s: seq<DmaBlock>)
    ensures Longest(RunLengths(Pass(s))) == (Longest(RunLengths(s)) + 1) / 2
  {
    PassHalvesRuns(s);
    LongestHalved(RunLengths(s));
  }

  /** A coalescence has nothing left to merge. */
  lemma CoalescedSettled(s: seq<DmaBlock>)
    ensures Settled(Coalesced(s))
  {
    RunsFitTheList(s);
    LengthBelowPow2(|s|);
    DefragConverges(s, |s|);
  }

  lemma {:induction false} LengthBelowPow2(n: nat)
    ensures n <= Pow2(n)
  {
    if n > 0 { LengthBelowPow2(n - 1); }
  }

  /** With the source's cap of 100 passes, any free list of at most 2^100 blocks is settled. */
  lemma CapNeverCutsShort(s: seq<DmaBlock>)
    requires |s| <= Pow2(100)
    ensures Defragged(s, 100) == Coalesced(s) && Settled(Defragged(s, 100))
  {
    var cap := 100;
    RunsFitTheList(s);
    DefragConverges(s, cap);
  }

  // ---- Conservation ---------------------------------------------------------------------------

  /** The block ends inside the 64-bit address space. */
  predicate Fits(b: DmaBlock) {
    b.phys + b.size < WORD
  }

  predicate Covers(b: DmaBlock, addr: nat) {
    b.phys <= addr < b.phys + b.size
  }

  /** How many blocks of the list cover an address: the list as a multiset of addresses. */
  function Coverage(s: seq<DmaBlock>, addr: nat): nat {
    if s == [] then 0 else (if Covers(s[0], addr) then 1 else 0) + Coverage(s[1..], addr)
  }

  /** A pass covers every address exactly as often as before, and blocks still fit. */
  lemma {:induction false} PassConserves(s: seq<DmaBlock>, addr: nat)
    requires forall b <- s :: Fits(b)
    ensures Coverage(Pass(s), addr) == Coverage(s, addr)
    ensures forall b <- Pass(s) :: Fits(b)
  {
    if |s| >= 2 {
      if Contiguous(s[0], s[1]) {
        PassConserves(s[2..], addr);
        assert s[0] in s && s[1] in s;
        assert Pass(s)[1..] == Pass(s[2..]) && s[1..][1..] == s[2..];
      } else {
        PassConserves(s[1..], addr);
        assert s[0] in s;
        assert Pass(s)[1..] == Pass(s[1..]);
      }
    }
  }

  /** So does a whole defragmentation. */
  lemma {:induction false} DefragConserves(s: seq<DmaBlock>, budget: nat, addr: nat)
    requires forall b <- s :: Fits(b)
    ensures Coverage(Defragged(s, budget), addr) == Coverage(s, addr)
    ensures |Defragged(s, budget)| <= |s|
    ensures forall b <- Defragged(s, budget) :: Fits(b)
    decreases budget
  {
    if budget > 0 && Pass(s) != s {
      PassConserves(s, addr);
      PassShrinks(s);
      DefragConserves(Pass(s), budget - 1, addr);
    }
  }
}
