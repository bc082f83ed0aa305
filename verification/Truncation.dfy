/** What holds in the middle of a truncation: trees lo..hi have lost leaves and nodes, and their
    lengths are stale; every other tree agrees with the forest. */
module Truncation {
  import opened MerkleSpec
  import opened WriteQueue
  import opened Merkletrees
  import opened TXIDForest

  ghost predicate CutNodeAt(s: Scheme, nodes: map<NodeKey, Hash>, forest: Forest, lo: int, hi: int, key: NodeKey) {
    if lo <= key.tree < hi then ZeroBeyondAt(s, nodes, key.tree, |LeavesOf(forest, key.tree)|, key)
      else NodeAgreesAt(s, nodes, forest, key)
  }

  ghost predicate CutLengthAt(lengths: map<int, nat>, metadata: map<int, TreeMetadata>, forest: Forest, lo: int,
      hi: int, tree: int) {
    if lo <= tree < hi then |LeavesOf(forest, tree)| <= TREE_MAX_ITEMS
      else LengthAgreesAt(lengths, metadata, map[], forest, tree)
  }

  ghost predicate CutNodes(s: Scheme, nodes: map<NodeKey, Hash>, forest: Forest, lo: int, hi: int) {
    forall key :: CutNodeAt(s, nodes, forest, lo, hi, key)
  }

  ghost predicate CutLengths(lengths: map<int, nat>, metadata: map<int, TreeMetadata>, forest: Forest, lo: int,
      hi: int) {
    forall t :: CutLengthAt(lengths, metadata, forest, lo, hi, t)
  }

  ghost predicate PositionAt<V>(before: map<Position, V>, after: map<Position, V>, tree: int, first: int, last: int,
      p: Position) {
    if p.tree == tree && first <= p.index <= last then p !in after
    else (p in after <==> p in before) && (p in after ==> after[p] == before[p])
  }

  /** `after` is `before` without the positions first..last of one tree. */
  ghost predicate RangeDeleted<V>(before: map<Position, V>, after: map<Position, V>, tree: int, first: int, last: int) {
    forall p :: PositionAt(before, after, tree, first, last, p)
  }

  lemma {:induction false} PositionDeleted<V>(before: map<Position, V>, after: map<Position, V>, tree: int, first: int,
      last: int)
    requires RangeDeleted(before, after, tree, first, last - 1) && first <= last
    ensures RangeDeleted(before, after - {Position(tree, last)}, tree, first, last)
  {
    var after' := after - {Position(tree, last)};
    forall p
      ensures PositionAt(before, after', tree, first, last, p)
    {
      assert PositionAt(before, after, tree, first, last - 1, p);
    }
  }

  lemma {:induction false} NothingDeleted<V>(before: map<Position, V>, after: map<Position, V>, tree: int, first: int,
      last: int)
    requires before == after && last < first
    ensures RangeDeleted(before, after, tree, first, last)
  {
    assert forall p :: PositionAt(before, after, tree, first, last, p);
  }

  // With nothing cut, these are the agreements of a valid tree.

  lemma {:induction false} CutNothing(s: Scheme, nodes: map<NodeKey, Hash>, lengths: map<int, nat>,
      metadata: map<int, TreeMetadata>, forest: Forest, lo: int, hi: int)
    requires hi <= lo
    ensures CutNodes(s, nodes, forest, lo, hi) <==> NodesAgree(s, nodes, forest)
    ensures CutLengths(lengths, metadata, forest, lo, hi) <==> LengthsAgree(lengths, metadata, map[], forest)
  {
    assert forall key :: CutNodeAt(s, nodes, forest, lo, hi, key) <==> NodeAgreesAt(s, nodes, forest, key);
    var markers: map<int, InvalidMerkleroot> := map[];
    assert forall t :: CutLengthAt(lengths, metadata, forest, lo, hi, t)
                       <==> LengthAgreesAt(lengths, metadata, markers, forest, t);
  }

  // Cutting one more tree, `tree`, to its first leaves.

  lemma {:induction false} NodesCut(s: Scheme, nodes: map<NodeKey, Hash>, nodes': map<NodeKey, Hash>, forest: Forest,
      lo: int, tree: int, kept: seq<Leaf>)
    requires CutNodes(s, nodes, forest, lo, tree) && Cleared(nodes, nodes', tree, TREE_DEPTH)
    requires |LeavesOf(forest, tree)| <= TREE_MAX_ITEMS && lo <= tree
    ensures CutNodes(s, nodes', forest[tree := kept], lo, tree + 1)
  {
    var forest', hi := forest[tree := kept], tree + 1;
    forall key
      ensures CutNodeAt(s, nodes', forest', lo, hi, key)
    {
      assert CutNodeAt(s, nodes, forest, lo, tree, key) && ClearedAt(nodes, nodes', tree, TREE_DEPTH, key);
      if key.tree == tree {
        ClearedIsZeroBeyondAt(s, nodes, nodes', forest, |kept|, key);
      }
    }
  }

  lemma {:induction false} LengthsCut(lengths: map<int, nat>, metadata: map<int, TreeMetadata>, forest: Forest,
      lo: int, tree: int, kept: seq<Leaf>)
    requires CutLengths(lengths, metadata, forest, lo, tree) && lo <= tree && |kept| <= TREE_MAX_ITEMS
    ensures CutLengths(lengths, metadata, forest[tree := kept], lo, tree + 1)
  {
    var forest', hi := forest[tree := kept], tree + 1;
    forall t
      ensures CutLengthAt(lengths, metadata, forest', lo, hi, t)
    {
      assert CutLengthAt(lengths, metadata, forest, lo, tree, t);
    }
  }

  lemma {:induction false} DataCut(data: map<Position, Leaf>, data': map<Position, Leaf>, forest: Forest, tree: int,
      first: nat, last: int)
    requires DataAgrees(data, forest) && RangeDeleted(data, data', tree, first, last)
      && last >= |LeavesOf(forest, tree)| - 1
    ensures DataAgrees(data', forest[tree := Kept(LeavesOf(forest, tree), first)])
  {
    var forest' := forest[tree := Kept(LeavesOf(forest, tree), first)];
    forall p
      ensures DataAgreesAt(data', forest', p)
    {
      assert DataAgreesAt(data, forest, p) && PositionAt(data, data', tree, first, last, p);
    }
  }

  lemma {:induction false} HistoryCut(s: Scheme, roots: map<Position, Hash>, roots': map<Position, Hash>,
      forest: Forest, tree: int, first: nat, last: int)
    requires HistoryAgrees(s, roots, forest) && RangeDeleted(roots, roots', tree, first, last)
      && last >= |LeavesOf(forest, tree)| - 1
    ensures HistoryAgrees(s, roots', forest[tree := Kept(LeavesOf(forest, tree), first)])
  {
    var leaves := LeavesOf(forest, tree);
    var forest' := forest[tree := Kept(leaves, first)];
    forall p
      ensures HistoryAgreesAt(s, roots', forest', p)
    {
      assert HistoryAgreesAt(s, roots, forest, p) && PositionAt(roots, roots', tree, first, last, p);
      if p.tree == tree && 0 <= p.index < |Kept(leaves, first)| {
        assert Kept(leaves, first)[..p.index + 1] == leaves[..p.index + 1];
      }
    }
  }

  /** The first leaves that a cut at index `first` keeps. */
  function Kept(leaves: seq<Leaf>, first: nat): seq<Leaf> {
    if first >= |leaves| then leaves else leaves[..first]
  }

  /** A TXID tree has no markers, so its roots only depend on the history of roots. */
  lemma {:induction false} RootsCut(kind: Kind, s: Scheme, roots: map<Position, Hash>, roots': map<Position, Hash>,
      failing: map<int, set<int>>, forest: Forest, tree: int, first: nat, last: int)
    requires RootsAgree(kind, s, roots, map[], failing, forest) && kind != UTXO
    requires RangeDeleted(roots, roots', tree, first, last) && last >= |LeavesOf(forest, tree)| - 1
    ensures RootsAgree(kind, s, roots', map[], failing, forest[tree := Kept(LeavesOf(forest, tree), first)])
  {
    if kind == TXIDNode {
      HistoryCut(s, roots, roots', forest, tree, first, last);
    }
    var forest' := forest[tree := Kept(LeavesOf(forest, tree), first)];
    var markers: map<int, InvalidMerkleroot> := map[];
    forall t
      ensures MarkerIsLeastAt(markers, failing, forest', t)
    {
      assert MarkerIsLeastAt(markers, failing, forest, t);
    }
  }

  // Rebuilding one more tree, the first of those still cut.

  lemma {:induction false} NodesRebuilt(s: Scheme, nodes: map<NodeKey, Hash>, nodes': map<NodeKey, Hash>,
      forest: Forest, tree: int, hi: int)
    requires CutNodes(s, nodes, forest, tree, hi) && tree < hi
    requires forall key :: RebuiltAt(s, nodes, nodes', tree, LeavesOf(forest, tree), key)
    ensures CutNodes(s, nodes', forest, tree + 1, hi)
  {
    var lo := tree + 1;
    forall key
      ensures CutNodeAt(s, nodes', forest, lo, hi, key)
    {
      assert CutNodeAt(s, nodes, forest, tree, hi, key)
        && RebuiltAt(s, nodes, nodes', tree, LeavesOf(forest, tree), key);
    }
  }

  lemma {:induction false} LengthsRebuilt(lengths: map<int, nat>, lengths': map<int, nat>,
      metadata: map<int, TreeMetadata>, metadata': map<int, TreeMetadata>, forest: Forest, tree: int, hi: int)
    requires CutLengths(lengths, metadata, forest, tree, hi) && tree < hi
    requires SameExcept(lengths, lengths', tree) && tree in lengths' && lengths'[tree] == |LeavesOf(forest, tree)|
    requires SameExcept(metadata, metadata', tree) && tree in metadata'
      && metadata'[tree] == TreeMetadata(|LeavesOf(forest, tree)|, MarkerOf(map[], tree))
    ensures CutLengths(lengths', metadata', forest, tree + 1, hi)
  {
    var lo := tree + 1;
    forall t
      ensures CutLengthAt(lengths', metadata', forest, lo, hi, t)
    {
      assert CutLengthAt(lengths, metadata, forest, tree, hi, t);
    }
  }

  lemma {:induction false} RootsRebuilt(kind: Kind, s: Scheme, roots: map<Position, Hash>,
      failing: map<int, set<int>>, forest: Forest, tree: int)
    requires RootsAgree(kind, s, roots, map[], failing, forest)
    ensures var leaves := LeavesOf(forest, tree);
      RootsAgree(kind, s, RootsAfter(kind, roots, tree, |leaves|, Root(s, leaves)), map[], failing, forest)
  {
    if kind == TXIDNode {
      var leaves := LeavesOf(forest, tree);
      var roots' := roots[Position(tree, |leaves| - 1) := Root(s, leaves)];
      forall p
        ensures HistoryAgreesAt(s, roots', forest, p)
      {
        assert HistoryAgreesAt(s, roots, forest, p);
        assert leaves[..|leaves|] == leaves;
      }
    }
  }

  /** Cutting tree after tree is `CutForest`. */
  lemma {:induction false} CutStep(forest: Forest, mid: Forest, first: int, tree: int, keep: nat, start: nat)
    requires SameForest(mid, CutForest(forest, first, tree - 1, keep)) && first <= tree
    requires start == if tree == first then keep else 0
    ensures SameForest(mid[tree := Kept(LeavesOf(mid, tree), start)], CutForest(forest, first, tree, keep))
  {
    var mid', cut := mid[tree := Kept(LeavesOf(mid, tree), start)], CutForest(forest, first, tree, keep);
    forall t
      ensures SameTreeAt(mid', cut, t)
    {
      assert SameTreeAt(mid, CutForest(forest, first, tree - 1, keep), t);
    }
  }

  ghost predicate SameTreeAt(f: Forest, g: Forest, tree: int) {
    LeavesOf(f, tree) == LeavesOf(g, tree)
  }

  ghost predicate SameForest(f: Forest, g: Forest) {
    forall t :: SameTreeAt(f, g, t)
  }

  lemma {:induction false} NoTreeCut(forest: Forest, first: int, last: int, keep: int)
    requires last < first
    ensures SameForest(forest, CutForest(forest, first, last, keep))
  {
    var cut := CutForest(forest, first, last, keep);
    assert forall t :: SameTreeAt(forest, cut, t);
  }
}
