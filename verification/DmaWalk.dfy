/** The list walk of dma_block_merge to the letter: a "safe" kernel list walk that caches the successor of the
    node it visits, over a body that frees that successor. */
module DmaWalk {
  import opened MachineWords
  import opened Alignment
  import opened DmaMerge
  import opened DmaLedger
  import opened Lists

  /** A block on the kernel list; the id stands for its address. */
  datatype Node = Node(id: nat, block: DmaBlock)

  /** What a pointer of the list walk refers to. */
  datatype Cursor = AtNode(id: nat) | AtHead

  /** The variables of list_for_each_entry_safe, the list, and the nodes freed so far. */
  datatype Walk = Walk(nodes: seq<Node>, block: Cursor, tmp: Cursor, freed: set<nat>)

  datatype Outcome = Finished(nodes: seq<Node>) | ReadsFreedNode | StillWalking

  function Next(nodes: seq<Node>, id: nat): Cursor {
    var i := IndexWhere(nodes, (n: Node) => n.id == id);
    if i + 1 < |nodes| then AtNode(nodes[i + 1].id) else AtHead
  }

  /** The body of the walk: the visited block absorbs a contiguous successor, which is unlinked and freed. */
  function Visit(w: Walk): Walk {
    var i := if w.block.AtNode? then IndexWhere(w.nodes, (n: Node) => n.id == w.block.id) else |w.nodes|;
    if i + 1 < |w.nodes| && Contiguous(w.nodes[i].block, w.nodes[i + 1].block) then
      var grown := Node(w.nodes[i].id, Absorb(w.nodes[i].block, w.nodes[i + 1].block));
      w.(nodes := w.nodes[..i] + [grown] + w.nodes[i + 2..], freed := w.freed + {w.nodes[i + 1].id})
    else w
  }

  /** The step of the walk: the cached node becomes the visited one, and its successor is read from it. */
  function Advance(w: Walk): Walk {
    w.(block := w.tmp, tmp := if w.tmp.AtNode? then Next(w.nodes, w.tmp.id) else AtHead)
  }

  predicate CachedIsFreed(w: Walk) {
    w.tmp.AtNode? && w.tmp.id in w.freed
  }

  /** The walk from here on, with this body; its step reads freed memory when the cached node has been freed. */
  function WalkFrom(visit: Walk -> Walk, w: Walk, steps: nat): Outcome
    decreases steps
  {
    if w.block.AtHead? then Finished(w.nodes)
    else
      var v := visit(w);
      if CachedIsFreed(v) then ReadsFreedNode
      else if steps == 0 then StillWalking
      else WalkFrom(visit, Advance(v), steps - 1)
  }

  /** The blocks on a list whose nodes are told apart by their positions. */
  function Numbered(s: seq<DmaBlock>): (nodes: seq<Node>)
    ensures |nodes| == |s| && forall i :: 0 <= i < |s| ==> nodes[i] == Node(i, s[i])
  {
    if s == [] then [] else Numbered(s[..|s| - 1]) + [Node(|s| - 1, s[|s| - 1])]
  }

  /** The walk when the first i nodes have been visited without a merge. */
  function Unmerged(nodes: seq<Node>, i: nat): Walk {
    Walk(nodes, if i < |nodes| then AtNode(i) else AtHead, if i + 1 < |nodes| then AtNode(i + 1) else AtHead, {})
  }

  function LiteralPass(s: seq<DmaBlock>): Outcome {
    WalkFrom(Visit, Unmerged(Numbered(s), 0), |s|)
  }

  /** The nodes are told apart by their positions. */
  ghost predicate ByPosition(nodes: seq<Node>) {
    forall i :: 0 <= i < |nodes| ==> nodes[i].id == i
  }

  lemma PositionOf(nodes: seq<Node>, i: nat)
    requires ByPosition(nodes) && i < |nodes|
    ensures IndexWhere(nodes, (n: Node) => n.id == i) == i
    ensures Next(nodes, i) == if i + 1 < |nodes| then AtNode(i + 1) else AtHead
  {
    assert nodes[i].id == i;
  }

  /** Nodes i and i + 1 merge. */
  predicate MergesAt(nodes: seq<Node>, i: nat) {
    i + 1 < |nodes| && Contiguous(nodes[i].block, nodes[i + 1].block)
  }

  /** The body frees the cached node if it merges, and changes nothing otherwise. */
  lemma VisitUnmerged(nodes: seq<Node>, i: nat)
    requires ByPosition(nodes) && i < |nodes|
    ensures var v := Visit(Unmerged(nodes, i));
            if MergesAt(nodes, i) then CachedIsFreed(v)
            else v == Unmerged(nodes, i)
  {
    PositionOf(nodes, i);
    if i + 1 < |nodes| { assert nodes[i + 1].id == i + 1; }
  }

  lemma AdvanceUnmerged(nodes: seq<Node>, i: nat)
    requires ByPosition(nodes) && i < |nodes|
    ensures !CachedIsFreed(Unmerged(nodes, i)) && Advance(Unmerged(nodes, i)) == Unmerged(nodes, i + 1)
  {
    if i + 1 < |nodes| { PositionOf(nodes, i + 1); }
  }

  /** What this body does at node j to a walk that has not merged yet, and what the step then does. */
  ghost predicate MovesOn(visit: Walk -> Walk, nodes: seq<Node>, j: nat) {
    var w := Unmerged(nodes, j);
    && (if MergesAt(nodes, j) then CachedIsFreed(visit(w)) else visit(w) == w)
    && !CachedIsFreed(w) && Advance(w) == Unmerged(nodes, j + 1)
  }

  lemma VisitMovesOn(nodes: seq<Node>, j: nat)
    requires ByPosition(nodes) && j < |nodes|
    ensures MovesOn(Visit, nodes, j)
  {
    VisitUnmerged(nodes, j);
    AdvanceUnmerged(nodes, j);
  }

  /** Until the first merge the walk only moves on; the first merge makes it read a freed node. */
  lemma {:induction false} WalkUnmerged(visit: Walk -> Walk, nodes: seq<Node>, i: nat, steps: nat)
    requires i <= |nodes| && steps >= |nodes| - i && forall j: nat :: j < |nodes| ==> MovesOn(visit, nodes, j)
    ensures (exists j :: i <= j < |nodes| && MergesAt(nodes, j))
            ==> WalkFrom(visit, Unmerged(nodes, i), steps) == ReadsFreedNode
    ensures (forall j :: i <= j < |nodes| ==> !MergesAt(nodes, j))
            ==> WalkFrom(visit, Unmerged(nodes, i), steps) == Finished(nodes)
    decreases steps
  {
    if i < |nodes| {
      assert MovesOn(visit, nodes, i);
      WalkUnmerged(visit, nodes, i + 1, steps - 1);
    }
  }

  lemma MergesSomewhere(s: seq<DmaBlock>, nodes: seq<Node>)
    requires |nodes| == |s| && forall i :: 0 <= i < |s| ==> nodes[i] == Node(i, s[i])
    ensures Settled(s) <==> forall j :: 0 <= j < |nodes| ==> !MergesAt(nodes, j)
  {
    if !Settled(s) {
      var i :| 0 <= i < |s| - 1 && Contiguous(s[i], s[i + 1]);
      assert MergesAt(nodes, i);
    }
  }

  /** The literal walk reads a freed node if and only if the pass has anything to merge, and otherwise it
      leaves the list as it is. Every other pass needs the reading that Pass gives it. */
  lemma LiteralPassExactly(s: seq<DmaBlock>)
    ensures LiteralPass(s).ReadsFreedNode? <==> |Pass(s)| < |s|
    ensures !LiteralPass(s).ReadsFreedNode? ==> LiteralPass(s) == Finished(Numbered(s)) && Pass(s) == s
  {
    var nodes := Numbered(s);
    forall j: nat | j < |nodes| ensures MovesOn(Visit, nodes, j) { VisitMovesOn(nodes, j); }
    WalkUnmerged(Visit, nodes, 0, |s|);
    MergesSomewhere(s, nodes);
    SettledFixpoint(s);
  }

  lemma ContiguousPairReads(s: seq<DmaBlock>)
    requires |s| == 2 && Contiguous(s[0], s[1])
    ensures LiteralPass(s).ReadsFreedNode?
  {
    SettledFixpoint(s);
    LiteralPassExactly(s);
  }

  /** Two allocations from a new pool. */
  lemma AllocBoth(n: nat, flags: nat, phys: nat, v: Pointer, w: Pointer)
    requires 0 < n <= DMA_MAX_ALLOC_SIZE && DmaAlignSize(n) == n && phys + n < WORD
    ensures var first := PoolAlloc(NewPool(2 * n, flags), n, flags, Granted(phys, v)).0;
            var both := PoolAlloc(first, n, flags, Granted(phys + n, w)).0;
            && both.free == [] && |both.used| == 2 && Contiguous(both.used[0], both.used[1])
            && both.used[0].virt == v && both.used[1].virt == w
  {
    DivModUnique(phys + n, WORD, 0, phys + n);
  }

  /** Freeing the two used blocks of a pool in list order. */
  lemma FreeBoth(p: PoolState, size: nat)
    requires |p.used| == 2 && p.free == [] && size != 0
    requires p.used[0].virt != 0 && p.used[1].virt != 0 && p.used[0].virt != p.used[1].virt
    ensures PoolFree(PoolFree(p, p.used[0].virt, size).0, p.used[1].virt, size).0.free == p.used
  {
    var one := PoolFree(p, p.used[0].virt, size).0;
    assert one.used == [p.used[1]] && one.free == [p.used[0]];
  }

  /** A run that gets there: two neighbouring blocks are granted and freed in address order. The next pass reads
      the second one after it has freed it. */
  lemma NeighboursReadFreedNode(n: nat, flags: nat, phys: nat, v: Pointer, w: Pointer)
    requires 0 < n <= DMA_MAX_ALLOC_SIZE && DmaAlignSize(n) == n && phys + n < WORD && v != w
    ensures var first := PoolAlloc(NewPool(2 * n, flags), n, flags, Granted(phys, v)).0;
            var both := PoolAlloc(first, n, flags, Granted(phys + n, w)).0;
            var freed := PoolFree(PoolFree(both, v, n).0, w, n).0;
            |freed.free| == 2 && LiteralPass(freed.free).ReadsFreedNode?
  {
    AllocBoth(n, flags, phys, v, w);
    var first := PoolAlloc(NewPool(2 * n, flags), n, flags, Granted(phys, v)).0;
    var both := PoolAlloc(first, n, flags, Granted(phys + n, w)).0;
    FreeBoth(both, n);
    ContiguousPairReads(both.used);
  }
}
