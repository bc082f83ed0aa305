/** The stateful Merkle forest: node hashes in a database behind a cache, leaf data, cached and
    stored lengths, a sparse write queue, the invalid-root marker and, on a POI node, the table
    of historical roots.  `forest` is the abstract content: the leaves of every tree.  Every
    method keeps `Valid()`, which says that all the stored pieces agree with `forest`. */
module Merkletrees {
  import opened Wrappers
  import opened MerkleSpec
  import opened WriteQueue

  datatype NodeKey = NodeKey(tree: int, level: nat, index: int)
  datatype Position = Position(tree: int, index: int)
  datatype InvalidMerkleroot = InvalidMerkleroot(position: int, blockNumber: nat)
  datatype TreeMetadata = TreeMetadata(scannedHeight: nat, invalidMerkleroot: Option<InvalidMerkleroot>)

  /** Which subclass the tree is: the UTXO tree, or the TXID tree of a POI node or of a wallet. */
  datatype Kind = UTXO | TXIDNode | TXIDWallet

  datatype InsertOutcome = Inserted | InvalidRoot | ValidatorFailed

  type Forest = map<int, seq<Leaf>>
  type Row = map<int, Hash>

  function LeavesOf(forest: Forest, tree: int): seq<Leaf> {
    if tree in forest then forest[tree] else []
  }

  /** The part from `start` on and before `stop`, as far as it exists. */
  function SliceOf(leaves: seq<Leaf>, start: nat, stop: int): seq<Leaf> {
    var end := if stop < |leaves| then stop else |leaves|;
    if start < end then leaves[start..end] else []
  }

  function QueueOf(queues: map<int, Queue>, tree: int): Queue {
    if tree in queues then queues[tree] else map[]
  }

  /** The sizes `nextProcessingGroupSize` steps through; 0 stands for undefined.  No rung of the
      ladder is skipped: the next size is the greatest one below. */
  function NextProcessingGroupSize(size: nat): (r: nat)
    ensures r < size || r == 0
    ensures IsGroupSize(size) && size > 1 ==> IsGroupSize(r)
    ensures forall s: nat :: IsGroupSize(size) && IsGroupSize(s) && s < size ==> s <= r
    ensures !IsGroupSize(size) || size == 1 ==> r == 0
  {
    if size == 10000 then 8000
    else if size == 8000 then 1600
    else if size == 1600 then 800
    else if size == 800 then 200
    else if size == 200 then 40
    else if size == 40 then 10
    else if size == 10 then 1
    else 0
  }

  predicate IsGroupSize(size: nat) {
    size in {10000, 8000, 1600, 800, 200, 40, 10, 1}
  }

  ghost predicate ZerosOk(s: Scheme, zeros: seq<Hash>) {
    |zeros| == TREE_DEPTH + 1 && forall l :: 0 <= l <= TREE_DEPTH ==> zeros[l] == Zero(s, l)
  }

  /** A POI node is the source of truth: it takes every root for valid. */
  ghost predicate AcceptsAll(validator: Validator) {
    forall t, i, r :: validator(t, i, r) == Accepted
  }

  // ---------- agreement of the stored pieces with the forest ----------

  function Stored(s: Scheme, nodes: map<NodeKey, Hash>, key: NodeKey): Hash {
    if key in nodes then nodes[key] else Zero(s, key.level)
  }

  // Each predicate below is a conjunction over keys, positions or trees of a predicate with
  // "At" in its name.

  ghost predicate NodeAgreesAt(s: Scheme, nodes: map<NodeKey, Hash>, forest: Forest, key: NodeKey) {
    key.level <= TREE_DEPTH ==> Stored(s, nodes, key) == Node(s, LeavesOf(forest, key.tree), key.level, key.index)
  }

  ghost predicate NodesAgree(s: Scheme, nodes: map<NodeKey, Hash>, forest: Forest) {
    forall key :: NodeAgreesAt(s, nodes, forest, key)
  }

  ghost predicate CacheAgreesAt(cache: map<NodeKey, Hash>, nodes: map<NodeKey, Hash>, key: NodeKey) {
    key in cache ==> key in nodes && nodes[key] == cache[key]
  }

  ghost predicate CacheAgrees(cache: map<NodeKey, Hash>, nodes: map<NodeKey, Hash>) {
    forall key :: CacheAgreesAt(cache, nodes, key)
  }

  ghost predicate DataAgreesAt(data: map<Position, Leaf>, forest: Forest, p: Position) {
    && (p in data <==> 0 <= p.index < |LeavesOf(forest, p.tree)|)
    && (p in data ==> data[p] == LeavesOf(forest, p.tree)[p.index])
  }

  ghost predicate DataAgrees(data: map<Position, Leaf>, forest: Forest) {
    forall p :: DataAgreesAt(data, forest, p)
  }

  /** A tree's length, where it is known in memory or stored, is its number of leaves; the stored
      marker is the one in memory, and a tree with a marker has stored metadata. */
  ghost predicate LengthAgreesAt(lengths: map<int, nat>, metadata: map<int, TreeMetadata>,
      markers: map<int, InvalidMerkleroot>, forest: Forest, tree: int) {
    && |LeavesOf(forest, tree)| <= TREE_MAX_ITEMS
    && (tree in lengths ==> lengths[tree] == |LeavesOf(forest, tree)|)
    && (tree in metadata ==> metadata[tree] == TreeMetadata(|LeavesOf(forest, tree)|, MarkerOf(markers, tree)))
    && (tree in markers ==> tree in metadata)
  }

  ghost predicate LengthsAgree(lengths: map<int, nat>, metadata: map<int, TreeMetadata>,
      markers: map<int, InvalidMerkleroot>, forest: Forest) {
    forall t :: LengthAgreesAt(lengths, metadata, markers, forest, t)
  }

  function MarkerOf(markers: map<int, InvalidMerkleroot>, tree: int): Option<InvalidMerkleroot> {
    if tree in markers then Some(markers[tree]) else None
  }

  ghost predicate QueueOkAt(queues: map<int, Queue>, kind: Kind, tree: int) {
    && WellFormed(QueueOf(queues, tree))
    && (kind == TXIDNode ==> SingleLeaves(QueueOf(queues, tree)))
  }

  ghost predicate QueuesOk(queues: map<int, Queue>, kind: Kind) {
    forall t :: QueueOkAt(queues, kind, t)
  }

  ghost predicate SingleLeaves(q: Queue) {
    forall k :: k in q ==> |q[k]| == 1
  }

  /** There is a historical root for each position of the tree and none beyond it, and it is the
      root of the tree cut after the position. */
  ghost predicate HistoryAgreesAt(s: Scheme, roots: map<Position, Hash>, forest: Forest, p: Position) {
    0 <= p.index ==>
      && (p in roots <==> p.index < |LeavesOf(forest, p.tree)|)
      && (p in roots ==> roots[p] == Root(s, LeavesOf(forest, p.tree)[..p.index + 1]))
  }

  ghost predicate HistoryAgrees(s: Scheme, roots: map<Position, Hash>, forest: Forest) {
    forall p :: HistoryAgreesAt(s, roots, forest, p)
  }

  ghost predicate RootAcceptedAt(s: Scheme, validator: Validator, skipped: set<int>, forest: Forest, tree: int) {
    |LeavesOf(forest, tree)| > 0 && tree !in skipped ==>
      VerdictOn(Judge(s, validator, tree), LeavesOf(forest, tree)) == Accepted
  }

  /** The validator accepts every non-empty tree's root for the tree's last index, but for trees
      last written with validation skipped. */
  ghost predicate RootsAccepted(s: Scheme, validator: Validator, skipped: set<int>, forest: Forest) {
    forall t :: RootAcceptedAt(s, validator, skipped, forest, t)
  }

  /** A marker sits at or beyond its tree's length and is the least of the positions that failed
      since the marker was last cleared. */
  ghost predicate MarkerIsLeastAt(markers: map<int, InvalidMerkleroot>, failing: map<int, set<int>>, forest: Forest,
      tree: int) {
    && (tree in markers <==> tree in failing)
    && (tree in markers ==>
      && |LeavesOf(forest, tree)| <= markers[tree].position
      && markers[tree].position in failing[tree]
      && forall p :: p in failing[tree] ==> markers[tree].position <= p)
  }

  ghost predicate MarkersAreLeast(markers: map<int, InvalidMerkleroot>, failing: map<int, set<int>>, forest: Forest) {
    forall t :: MarkerIsLeastAt(markers, failing, forest, t)
  }

  /** What is known of the roots beside the validator's answers: a POI node keeps the historical
      ones, the UTXO tree marks the least invalid one. */
  ghost predicate RootsAgree(kind: Kind, s: Scheme, roots: map<Position, Hash>, markers: map<int, InvalidMerkleroot>,
      failing: map<int, set<int>>, forest: Forest) {
    && (kind == TXIDNode ==> HistoryAgrees(s, roots, forest))
    && MarkersAreLeast(markers, failing, forest)
    && (kind != UTXO ==> markers == map[])
  }

  // ---------- what a batch of hashed rows says ----------

  /** A row carries nodes of `target`, and where it is silent `base` and `target` coincide. */
  ghost predicate RowAgreesAt(s: Scheme, row: Row, base: seq<Leaf>, target: seq<Leaf>, level: nat, index: int) {
    if index in row then row[index] == Node(s, target, level, index)
    else Node(s, base, level, index) == Node(s, target, level, index)
  }

  ghost predicate RowAgrees(s: Scheme, row: Row, base: seq<Leaf>, target: seq<Leaf>, level: nat) {
    forall i :: RowAgreesAt(s, row, base, target, level, i)
  }

  /** The row reaches from the shifted start to the shifted end, and holds the start itself. */
  ghost predicate RowCovers(row: Row, first: int, last: int, level: nat) {
    && (forall i :: Shr(first, level) <= i <= Shr(last, level) ==> i in row)
    && Shr(first, level) in row
  }

  ghost predicate AgreeOutside(s: Scheme, base: seq<Leaf>, target: seq<Leaf>, first: int, last: int) {
    forall i :: i < first || i > last ==> LeafAt(s, base, i) == LeafAt(s, target, i)
  }

  ghost predicate GroupAgreesAt(s: Scheme, group: seq<Row>, base: seq<Leaf>, target: seq<Leaf>, level: nat) {
    level < |group| ==> RowAgrees(s, group[level], base, target, level)
  }

  /** Every row agrees with `target`. */
  ghost predicate GroupAgrees(s: Scheme, group: seq<Row>, base: seq<Leaf>, target: seq<Leaf>) {
    forall l :: GroupAgreesAt(s, group, base, target, l)
  }

  ghost predicate GroupCoversAt(group: seq<Row>, first: int, last: int, level: nat) {
    1 <= level < |group| ==> RowCovers(group[level], first, last, level)
  }

  /** Above the leaves every row covers the changed range. */
  ghost predicate GroupCovers(group: seq<Row>, first: int, last: int) {
    forall l :: GroupCoversAt(group, first, last, l)
  }

  lemma {:induction false} RowOutside(s: Scheme, firstRow: Row, base: seq<Leaf>, target: seq<Leaf>, first: int,
      last: int)
    requires RowAgrees(s, firstRow, base, target, 0)
    requires forall i :: i in firstRow ==> first <= i <= last
    ensures AgreeOutside(s, base, target, first, last)
  {
    forall i | i < first || i > last
      ensures LeafAt(s, base, i) == LeafAt(s, target, i)
    {
      assert RowAgreesAt(s, firstRow, base, target, 0, i);
    }
  }

  /** A covering row of correct nodes agrees: outside its range nothing changed. */
  lemma {:induction false} RowComplete(s: Scheme, row: Row, base: seq<Leaf>, target: seq<Leaf>, first: int, last: int,
      level: nat)
    requires AgreeOutside(s, base, target, first, last) && RowCovers(row, first, last, level)
    requires forall i :: i in row ==> row[i] == Node(s, target, level, i)
    ensures RowAgrees(s, row, base, target, level)
  {
    forall i
      ensures RowAgreesAt(s, row, base, target, level, i)
    {
      if i !in row {
        NodeUnchangedOutside(s, base, target, first, last, level, i);
      }
    }
  }

  lemma {:induction false} GroupExtended(s: Scheme, group: seq<Row>, row: Row, base: seq<Leaf>, target: seq<Leaf>,
      first: int, last: int)
    requires group != [] && GroupAgrees(s, group, base, target) && GroupCovers(group, first, last)
    requires AgreeOutside(s, base, target, first, last) && RowCovers(row, first, last, |group|)
    requires forall i :: i in row ==> row[i] == Node(s, target, |group|, i)
    ensures GroupAgrees(s, group + [row], base, target) && GroupCovers(group + [row], first, last)
  {
    RowComplete(s, row, base, target, first, last, |group|);
    var group' := group + [row];
    forall l
      ensures GroupAgreesAt(s, group', base, target, l) && GroupCoversAt(group', first, last, l)
    {
      assert GroupAgreesAt(s, group, base, target, l) && GroupCoversAt(group, first, last, l);
    }
  }

  /** The top row of a full group is the new root. */
  lemma {:induction false} GroupRoot(s: Scheme, group: seq<Row>, base: seq<Leaf>, target: seq<Leaf>)
    requires |group| == TREE_DEPTH + 1 && 0 in group[TREE_DEPTH] && GroupAgrees(s, group, base, target)
    ensures group[TREE_DEPTH][0] == Root(s, target)
  {
    assert GroupAgreesAt(s, group, base, target, TREE_DEPTH);
    assert RowAgreesAt(s, group[TREE_DEPTH], base, target, TREE_DEPTH, 0);
  }

  ghost predicate OverlaidAt(before: map<NodeKey, Hash>, after: map<NodeKey, Hash>, tree: int, group: seq<Row>,
      key: NodeKey) {
    if key.tree == tree && key.level < |group| && key.index in group[key.level]
    then key in after && after[key] == group[key.level][key.index]
    else (key in after <==> key in before) && (key in after ==> after[key] == before[key])
  }

  /** `after` is `before` overlaid with the rows of one tree. */
  ghost predicate Overlaid(before: map<NodeKey, Hash>, after: map<NodeKey, Hash>, tree: int, group: seq<Row>) {
    forall key :: OverlaidAt(before, after, tree, group, key)
  }

  function LevelNodes(tree: int, level: nat, row: Row): map<NodeKey, Hash> {
    map i | i in row :: NodeKey(tree, level, i) := row[i]
  }

  lemma {:induction false} OverlaidLevel(before: map<NodeKey, Hash>, after: map<NodeKey, Hash>, tree: int,
      group: seq<Row>, level: nat)
    requires level < |group| && Overlaid(before, after, tree, group[..level])
    ensures Overlaid(before, after + LevelNodes(tree, level, group[level]), tree, group[..level + 1])
  {
    var nodes := LevelNodes(tree, level, group[level]);
    var after', group' := after + nodes, group[..level + 1];
    forall key
      ensures OverlaidAt(before, after', tree, group', key)
    {
      assert OverlaidAt(before, after, tree, group[..level], key);
      if key.tree == tree && key.level == level && key.index in group[level] {
        assert key == NodeKey(tree, level, key.index);
      }
    }
  }

  lemma {:induction false} CacheFilled(cache: map<NodeKey, Hash>, nodes: map<NodeKey, Hash>, key: NodeKey)
    requires CacheAgrees(cache, nodes) && key in nodes
    ensures CacheAgrees(cache[key := nodes[key]], nodes)
  {
    var cache' := cache[key := nodes[key]];
    forall other
      ensures CacheAgreesAt(cache', nodes, other)
    {
      assert CacheAgreesAt(cache, nodes, other);
    }
  }

  lemma {:induction false} CacheOverlaid(cache: map<NodeKey, Hash>, nodes: map<NodeKey, Hash>,
      cache': map<NodeKey, Hash>, nodes': map<NodeKey, Hash>, tree: int, group: seq<Row>)
    requires CacheAgrees(cache, nodes) && Overlaid(cache, cache', tree, group) && Overlaid(nodes, nodes', tree, group)
    ensures CacheAgrees(cache', nodes')
  {
    forall key
      ensures CacheAgreesAt(cache', nodes', key)
    {
      assert CacheAgreesAt(cache, nodes, key);
      assert OverlaidAt(cache, cache', tree, group, key) && OverlaidAt(nodes, nodes', tree, group, key);
    }
  }

  /** Writing an agreeing group over an agreeing database gives the nodes of the new tree. */
  lemma {:induction false} GroupWritten(s: Scheme, nodes: map<NodeKey, Hash>, nodes': map<NodeKey, Hash>,
      forest: Forest, tree: int, target: seq<Leaf>, group: seq<Row>)
    requires NodesAgree(s, nodes, forest) && Overlaid(nodes, nodes', tree, group)
    requires |group| == TREE_DEPTH + 1
    requires GroupAgrees(s, group, LeavesOf(forest, tree), target)
    ensures NodesAgree(s, nodes', forest[tree := target])
  {
    var forest' := forest[tree := target];
    forall key
      ensures NodeAgreesAt(s, nodes', forest', key)
    {
      assert NodeAgreesAt(s, nodes, forest, key) && OverlaidAt(nodes, nodes', tree, group, key);
      if key.tree == tree && key.level <= TREE_DEPTH {
        assert GroupAgreesAt(s, group, LeavesOf(forest, tree), target, key.level);
        assert RowAgreesAt(s, group[key.level], LeavesOf(forest, tree), target, key.level, key.index);
      }
    }
  }

  /** A sparse array that holds `leaves` from `start` on and nothing else. */
  ghost predicate Places(group: map<int, Leaf>, start: nat, leaves: seq<Leaf>) {
    && (forall i :: i in group <==> start <= i < start + |leaves|)
    && (forall i :: i in group ==> group[i] == leaves[i - start])
  }

  function Keyed(tree: int, group: map<int, Leaf>): map<Position, Leaf> {
    map i | i in group :: Position(tree, i) := group[i]
  }

  lemma {:induction false} KeyedNothing(tree: int, data: map<Position, Leaf>)
    ensures data + Keyed(tree, map[]) == data
  {
    assert Keyed(tree, map[]) == map[];
  }

  lemma {:induction false} KeyedAt(tree: int, group: map<int, Leaf>, p: Position)
    ensures p in Keyed(tree, group) <==> p.tree == tree && p.index in group
    ensures p in Keyed(tree, group) ==> Keyed(tree, group)[p] == group[p.index]
  {
    if p.tree == tree && p.index in group {
      assert p == Position(tree, p.index);
    }
  }

  lemma {:induction false} DataWritten(data: map<Position, Leaf>, forest: Forest, tree: int, more: seq<Leaf>,
      group: map<int, Leaf>)
    requires DataAgrees(data, forest) && Places(group, |LeavesOf(forest, tree)|, more)
    ensures DataAgrees(data + Keyed(tree, group), forest[tree := LeavesOf(forest, tree) + more])
  {
    var data', forest' := data + Keyed(tree, group), forest[tree := LeavesOf(forest, tree) + more];
    forall p
      ensures DataAgreesAt(data', forest', p)
    {
      KeyedAt(tree, group, p);
      assert DataAgreesAt(data, forest, p);
    }
  }

  /** Appending `more` only writes nodes through a first row that holds its hashes. */
  lemma {:induction false} FirstRowAgrees(s: Scheme, leaves: seq<Leaf>, more: seq<Leaf>, row: Row)
    requires forall i :: i in row <==> |leaves| <= i < |leaves| + |more|
    requires forall i :: i in row ==> row[i] == more[i - |leaves|].hash
    ensures RowAgrees(s, row, leaves, leaves + more, 0)
  {
    var target := leaves + more;
    forall i
      ensures RowAgreesAt(s, row, leaves, target, 0, i)
    {
    }
  }

  lemma {:induction false} HistoryWritten(s: Scheme, roots: map<Position, Hash>, forest: Forest, tree: int, leaf: Leaf)
    requires HistoryAgrees(s, roots, forest)
    ensures var target := LeavesOf(forest, tree) + [leaf];
      HistoryAgrees(s, roots[Position(tree, |target| - 1) := Root(s, target)], forest[tree := target])
  {
    var leaves := LeavesOf(forest, tree);
    var target := leaves + [leaf];
    var roots', forest' := roots[Position(tree, |target| - 1) := Root(s, target)], forest[tree := target];
    forall p
      ensures HistoryAgreesAt(s, roots', forest', p)
    {
      assert HistoryAgreesAt(s, roots, forest, p);
      if p.tree == tree && 0 <= p.index < |leaves| {
        assert target[..p.index + 1] == leaves[..p.index + 1];
      } else if p == Position(tree, |leaves|) {
        assert target[..p.index + 1] == target;
      }
    }
  }

  /** The number of leaves the database counts for a tree is the tree's length. */
  lemma {:induction false} CountIsLength(data: map<Position, Leaf>, forest: Forest, tree: int)
    requires DataAgrees(data, forest)
    ensures DataCount(data, tree) == |LeavesOf(forest, tree)|
  {
    var n := |LeavesOf(forest, tree)|;
    PositionsCounted(tree, n);
    forall p
      ensures p in (set p' | p' in data && p'.tree == tree) <==> p in Positions(tree, n)
    {
      assert DataAgreesAt(data, forest, p);
      if p.tree == tree && 0 <= p.index < n {
        assert p == Position(tree, p.index);
      }
    }
    assert (set p | p in data && p.tree == tree) == Positions(tree, n);
  }

  ghost function DataCount(data: map<Position, Leaf>, tree: int): nat {
    |set p | p in data && p.tree == tree|
  }

  ghost function Positions(tree: int, n: nat): set<Position> {
    set i | 0 <= i < n :: Position(tree, i)
  }

  lemma {:induction false} PositionsCounted(tree: int, n: nat)
    ensures |Positions(tree, n)| == n
  {
    if n != 0 {
      PositionsCounted(tree, n - 1);
      assert Positions(tree, n) == Positions(tree, n - 1) + {Position(tree, n - 1)};
    }
  }

  /** `after` is `before` with another binding for `key`, or none. */
  ghost predicate SameExcept<V>(before: map<int, V>, after: map<int, V>, key: int) {
    forall k :: k != key ==> (k in after <==> k in before) && (k in after ==> after[k] == before[k])
  }

  // ---------- one insertion, piece by piece ----------

  /** What `insertLeaves` does with a verdict: a failing validator throws, an invalid root throws
      unless validation is skipped. */
  function OutcomeOf(verdict: Verdict, skipValidation: bool): InsertOutcome {
    match verdict
    case Accepted => Inserted
    case Rejected => if skipValidation then Inserted else InvalidRoot
    case Unavailable => ValidatorFailed
  }

  /** A marker, and whatever is kept beside it, is cleared by a valid root at or beyond it. */
  function MarkersAfterValid<V>(markers: map<int, InvalidMerkleroot>, kept: map<int, V>, tree: int,
      lastIndex: int): map<int, V> {
    if tree in markers && markers[tree].position <= lastIndex then kept - {tree} else kept
  }

  /** Remembering a length, and storing it, changes nothing. */
  lemma {:induction false} LengthsRecalled(lengths: map<int, nat>, metadata: map<int, TreeMetadata>,
      markers: map<int, InvalidMerkleroot>, forest: Forest, tree: int)
    requires LengthsAgree(lengths, metadata, markers, forest)
    ensures var n := |LeavesOf(forest, tree)|;
      && LengthsAgree(lengths[tree := n], metadata, markers, forest)
      && LengthsAgree(lengths[tree := n], metadata[tree := TreeMetadata(n, MarkerOf(markers, tree))], markers, forest)
  {
    var n := |LeavesOf(forest, tree)|;
    var lengths', metadata' := lengths[tree := n], metadata[tree := TreeMetadata(n, MarkerOf(markers, tree))];
    forall t
      ensures LengthAgreesAt(lengths', metadata, markers, forest, t)
        && LengthAgreesAt(lengths', metadata', markers, forest, t)
    {
      assert LengthAgreesAt(lengths, metadata, markers, forest, t);
    }
  }

  lemma {:induction false} LengthsInserted(lengths: map<int, nat>, lengths': map<int, nat>,
      metadata: map<int, TreeMetadata>, metadata': map<int, TreeMetadata>, markers: map<int, InvalidMerkleroot>,
      markers': map<int, InvalidMerkleroot>, forest: Forest, tree: int, target: seq<Leaf>)
    requires LengthsAgree(lengths, metadata, markers, forest) && |target| <= TREE_MAX_ITEMS
    requires SameExcept(lengths, lengths', tree) && tree in lengths' && lengths'[tree] == |target|
    requires SameExcept(metadata, metadata', tree) && tree in metadata'
      && metadata'[tree] == TreeMetadata(|target|, MarkerOf(markers', tree))
    requires SameExcept(markers, markers', tree)
    ensures LengthsAgree(lengths', metadata', markers', forest[tree := target])
  {
    var forest' := forest[tree := target];
    forall t
      ensures LengthAgreesAt(lengths', metadata', markers', forest', t)
    {
      assert LengthAgreesAt(lengths, metadata, markers, forest, t);
    }
  }

  lemma {:induction false} MarkersInserted(markers: map<int, InvalidMerkleroot>, failing: map<int, set<int>>,
      forest: Forest, tree: int, target: seq<Leaf>)
    requires MarkersAreLeast(markers, failing, forest)
    ensures MarkersAreLeast(MarkersAfterValid(markers, markers, tree, |target| - 1),
      MarkersAfterValid(markers, failing, tree, |target| - 1), forest[tree := target])
  {
    var markers', failing' := MarkersAfterValid(markers, markers, tree, |target| - 1),
      MarkersAfterValid(markers, failing, tree, |target| - 1);
    var forest' := forest[tree := target];
    forall t
      ensures MarkerIsLeastAt(markers', failing', forest', t)
    {
      assert MarkerIsLeastAt(markers, failing, forest, t);
    }
  }

  lemma {:induction false} MarkersRejected(markers: map<int, InvalidMerkleroot>, failing: map<int, set<int>>,
      forest: Forest, tree: int, marker: InvalidMerkleroot)
    requires MarkersAreLeast(markers, failing, forest) && |LeavesOf(forest, tree)| <= marker.position
    ensures MarkersAreLeast(
      if tree in markers && markers[tree].position < marker.position then markers else markers[tree := marker],
      failing[tree := FailingAt(failing, tree) + {marker.position}], forest)
  {
    var markers' := if tree in markers && markers[tree].position < marker.position then markers
      else markers[tree := marker];
    var failing' := failing[tree := FailingAt(failing, tree) + {marker.position}];
    forall t
      ensures MarkerIsLeastAt(markers', failing', forest, t)
    {
      assert MarkerIsLeastAt(markers, failing, forest, t);
    }
  }

  lemma {:induction false} LengthsRejected(lengths: map<int, nat>, metadata: map<int, TreeMetadata>,
      markers: map<int, InvalidMerkleroot>, forest: Forest, tree: int, marker: InvalidMerkleroot)
    requires LengthsAgree(lengths, metadata, markers, forest)
    ensures var n := |LeavesOf(forest, tree)|;
      LengthsAgree(lengths[tree := n], metadata[tree := TreeMetadata(n, Some(marker))], markers[tree := marker], forest)
  {
    var n := |LeavesOf(forest, tree)|;
    var lengths', metadata', markers' := lengths[tree := n], metadata[tree := TreeMetadata(n, Some(marker))],
      markers[tree := marker];
    forall t
      ensures LengthAgreesAt(lengths', metadata', markers', forest, t)
    {
      assert LengthAgreesAt(lengths, metadata, markers, forest, t);
    }
  }

  /** What each verdict leads to: an accepted root is inserted, a rejected one only without
      validation, and without an answer nothing is inserted, rejected or marked. */
  lemma {:induction false} OutcomeIs(kind: Kind, verdict: Verdict, skipValidation: bool,
      markers: map<int, InvalidMerkleroot>, failing: map<int, set<int>>, tree: int, marker: InvalidMerkleroot)
    ensures var outcome := OutcomeOf(verdict, skipValidation);
      && (outcome == Inserted <==> verdict == Accepted || (verdict == Rejected && skipValidation))
      && (outcome == InvalidRoot <==> verdict == Rejected && !skipValidation)
      && (verdict == Unavailable ==>
        MarkersAfter(kind, markers, tree, marker, outcome) == markers
        && FailingAfter(kind, markers, failing, tree, marker.position, outcome) == failing)
  {
  }

  /** What becomes of a tree's marker: a valid root up to `last` clears it exactly if it lies at or
      before `last`; an invalid one at `last` leaves the lesser of both; other trees keep theirs. */
  lemma {:induction false} MarkerSurvives(markers: map<int, InvalidMerkleroot>, tree: int, marker: InvalidMerkleroot,
      other: int)
    ensures var valid := MarkersAfter(UTXO, markers, tree, marker, Inserted);
      && (tree in valid <==> tree in markers && marker.position < markers[tree].position)
      && (tree in valid ==> valid[tree] == markers[tree])
      && (other != tree ==>
        (other in valid <==> other in markers) && (other in valid ==> valid[other] == markers[other]))
    ensures var invalid := MarkersAfter(UTXO, markers, tree, marker, InvalidRoot);
      && tree in invalid && invalid[tree].position <= marker.position
      && (invalid[tree] == marker || (tree in markers && invalid[tree] == markers[tree]))
      && (tree in markers ==> invalid[tree].position <= markers[tree].position)
      && (invalid[tree].position == marker.position ==> invalid[tree] == marker)
      && (other != tree ==>
        (other in invalid <==> other in markers) && (other in invalid ==> invalid[other] == markers[other]))
  {
  }

  /** The failing positions go with the marker that stands for them, and others stay. */
  lemma {:induction false} FailingSurvives(markers: map<int, InvalidMerkleroot>, failing: map<int, set<int>>, tree: int,
      last: int, p: int)
    requires tree in markers <==> tree in failing
    ensures var valid := FailingAfter(UTXO, markers, failing, tree, last, Inserted);
      p in FailingAt(valid, tree) <==> p in FailingAt(failing, tree) && last < markers[tree].position
    ensures p in FailingAt(FailingAfter(UTXO, markers, failing, tree, last, InvalidRoot), tree)
       <==> p in FailingAt(failing, tree) || p == last
  {
  }

  lemma {:induction false} RootsInserted(s: Scheme, validator: Validator, skipped: set<int>, forest: Forest, tree: int,
      target: seq<Leaf>)
    requires RootsAccepted(s, validator, skipped, forest)
    ensures RootsAccepted(s, validator, SkippedAfter(skipped, tree, VerdictOn(Judge(s, validator, tree), target)),
      forest[tree := target])
  {
    var verdict := VerdictOn(Judge(s, validator, tree), target);
    var skipped', forest' := SkippedAfter(skipped, tree, verdict), forest[tree := target];
    forall t
      ensures RootAcceptedAt(s, validator, skipped', forest', t)
    {
      assert RootAcceptedAt(s, validator, skipped, forest, t);
    }
  }

  /** A tree is written with a root the validator does not accept only if validation is skipped. */
  function SkippedAfter(skipped: set<int>, tree: int, verdict: Verdict): set<int> {
    if verdict == Accepted then skipped - {tree} else skipped + {tree}
  }

  /** A POI node keeps the root each length had. */
  function RootsAfter(kind: Kind, roots: map<Position, Hash>, tree: int, length: nat, root: Hash): map<Position, Hash> {
    if kind == TXIDNode then roots[Position(tree, length as int - 1) := root] else roots
  }

  /** All of `RootsAgree` survives the insertion of `leaves` with their new root. */
  lemma {:induction false} RootsCommitted(kind: Kind, s: Scheme, roots: map<Position, Hash>,
      markers: map<int, InvalidMerkleroot>, failing: map<int, set<int>>, forest: Forest, tree: int, leaves: seq<Leaf>)
    requires RootsAgree(kind, s, roots, markers, failing, forest)
    requires kind == TXIDNode ==> |leaves| == 1
    ensures var target := LeavesOf(forest, tree) + leaves;
      RootsAgree(kind, s,
        RootsAfter(kind, roots, tree, |target|, Root(s, target)),
        MarkersAfterValid(markers, markers, tree, |target| - 1),
        MarkersAfterValid(markers, failing, tree, |target| - 1), forest[tree := target])
  {
    var target := LeavesOf(forest, tree) + leaves;
    MarkersInserted(markers, failing, forest, tree, target);
    if kind == TXIDNode {
      HistoryWritten(s, roots, forest, tree, leaves[0]);
      assert leaves == [leaves[0]];
    }
  }

  function FailingAt(failing: map<int, set<int>>, tree: int): set<int> {
    if tree in failing then failing[tree] else {}
  }

  /** The markers, or what is kept beside them, after an insertion up to `last`: a valid root clears
      what it passes, an invalid one of a UTXO tree leaves its mark, unless a lesser one is there. */
  function MarkersAfter(kind: Kind, markers: map<int, InvalidMerkleroot>, tree: int, marker: InvalidMerkleroot,
      outcome: InsertOutcome): map<int, InvalidMerkleroot> {
    match outcome
    case Inserted => MarkersAfterValid(markers, markers, tree, marker.position)
    case InvalidRoot =>
      if kind == UTXO && !(tree in markers && markers[tree].position < marker.position)
      then markers[tree := marker] else markers
    case ValidatorFailed => markers
  }

  function FailingAfter(kind: Kind, markers: map<int, InvalidMerkleroot>, failing: map<int, set<int>>, tree: int,
      last: int, outcome: InsertOutcome): map<int, set<int>> {
    match outcome
    case Inserted => MarkersAfterValid(markers, failing, tree, last)
    case InvalidRoot => if kind == UTXO then failing[tree := FailingAt(failing, tree) + {last}] else failing
    case ValidatorFailed => failing
  }

  // ---------- clearing and rebuilding ----------

  ghost predicate ClearedAt(before: map<NodeKey, Hash>, after: map<NodeKey, Hash>, tree: int, levels: nat,
      key: NodeKey) {
    if key.tree == tree && key.level < levels then key !in after
    else (key in after <==> key in before) && (key in after ==> after[key] == before[key])
  }

  /** `after` is `before` without the nodes of one tree below level `levels`. */
  ghost predicate Cleared(before: map<NodeKey, Hash>, after: map<NodeKey, Hash>, tree: int, levels: nat) {
    forall key :: ClearedAt(before, after, tree, levels, key)
  }

  /** Right of a tree of `length` leaves, index 0 of each upper level apart. */
  predicate Beyond(length: nat, level: nat, index: int) {
    index < 0 || (if level == 0 then index >= length else index > 0 && index > Shr(length as int - 1, level))
  }

  ghost predicate ZeroBeyondAt(s: Scheme, nodes: map<NodeKey, Hash>, tree: int, length: nat, key: NodeKey) {
    key.tree == tree && key.level <= TREE_DEPTH && Beyond(length, key.level, key.index) ==>
      Stored(s, nodes, key) == Zero(s, key.level)
  }

  /** Nothing but zeros is stored for a tree where a rebuild to `length` leaves does not write. */
  ghost predicate ZeroBeyond(s: Scheme, nodes: map<NodeKey, Hash>, tree: int, length: nat) {
    forall key :: ZeroBeyondAt(s, nodes, tree, length, key)
  }

  /** A cleared tree has no node left but those at root level, where only the root is not zero. */
  lemma {:induction false} ClearedIsZeroBeyondAt(s: Scheme, nodes: map<NodeKey, Hash>, nodes': map<NodeKey, Hash>,
      forest: Forest, length: nat, key: NodeKey)
    requires NodeAgreesAt(s, nodes, forest, key) && |LeavesOf(forest, key.tree)| <= TREE_MAX_ITEMS
    requires ClearedAt(nodes, nodes', key.tree, TREE_DEPTH, key)
    ensures ZeroBeyondAt(s, nodes', key.tree, length, key)
  {
    if key.level == TREE_DEPTH && Beyond(length, key.level, key.index) {
      TopIsRoot(|LeavesOf(forest, key.tree)|);
      NodeBeyond(s, LeavesOf(forest, key.tree), TREE_DEPTH, key.index);
    }
  }

  /** A tree has at most one node at root level. */
  lemma {:induction false} TopIsRoot(length: nat)
    requires length <= TREE_MAX_ITEMS
    ensures Shr(length as int - 1, TREE_DEPTH) <= 0
  {
    ShrInTree(TREE_MAX_ITEMS - 1);
    ShrMonotone(length as int - 1, TREE_MAX_ITEMS - 1, TREE_DEPTH);
  }

  lemma {:induction false} AgreeingIsZeroBeyond(s: Scheme, nodes: map<NodeKey, Hash>, forest: Forest, tree: int)
    requires NodesAgree(s, nodes, forest)
    ensures ZeroBeyond(s, nodes, tree, |LeavesOf(forest, tree)|)
  {
    var leaves := LeavesOf(forest, tree);
    forall key
      ensures ZeroBeyondAt(s, nodes, tree, |leaves|, key)
    {
      assert NodeAgreesAt(s, nodes, forest, key);
      if key.tree == tree && key.level <= TREE_DEPTH && Beyond(|leaves|, key.level, key.index) {
        NodeBeyond(s, leaves, key.level, key.index);
      }
    }
  }

  /** The rows of a rebuild, written where only zeros are stored beyond them, make every node of
      the tree right and touch no other tree. */
  ghost predicate RebuiltAt(s: Scheme, nodes: map<NodeKey, Hash>, nodes': map<NodeKey, Hash>, tree: int,
      leaves: seq<Leaf>, key: NodeKey) {
    if key.tree == tree then key.level <= TREE_DEPTH ==> Stored(s, nodes', key) == Node(s, leaves, key.level, key.index)
    else (key in nodes' <==> key in nodes) && (key in nodes' ==> nodes'[key] == nodes[key])
  }

  /** A tree whose nodes agree can be rebuilt, and the rebuild, although it covers each level to a
      different end than the insertions did, finds the same nodes again. */
  lemma {:induction false} RebuildAgrees(s: Scheme, nodes: map<NodeKey, Hash>, nodes': map<NodeKey, Hash>,
      forest: Forest, tree: int)
    requires NodesAgree(s, nodes, forest)
    ensures ZeroBeyond(s, nodes, tree, |LeavesOf(forest, tree)|)
    ensures (forall key :: RebuiltAt(s, nodes, nodes', tree, LeavesOf(forest, tree), key))
      ==> forall key :: SameLookupAt(s, nodes, nodes', key)
  {
    AgreeingIsZeroBeyond(s, nodes, forest, tree);
    if forall key :: RebuiltAt(s, nodes, nodes', tree, LeavesOf(forest, tree), key) {
      forall key
        ensures SameLookupAt(s, nodes, nodes', key)
      {
        assert RebuiltAt(s, nodes, nodes', tree, LeavesOf(forest, tree), key) && NodeAgreesAt(s, nodes, forest, key);
      }
    }
  }

  ghost predicate SameLookupAt(s: Scheme, nodes: map<NodeKey, Hash>, nodes': map<NodeKey, Hash>, key: NodeKey) {
    key.level <= TREE_DEPTH ==> Stored(s, nodes', key) == Stored(s, nodes, key)
  }

  lemma {:induction false} RebuiltRoot(s: Scheme, group: seq<Row>, leaves: seq<Leaf>)
    requires |group| == TREE_DEPTH + 1 && GroupAgrees(s, group, [], leaves) && GroupCovers(group, 0, |leaves| - 1)
    ensures 0 in group[TREE_DEPTH] && group[TREE_DEPTH][0] == Root(s, leaves)
  {
    ShrOfZero(TREE_DEPTH);
    assert GroupCoversAt(group, 0, |leaves| - 1, TREE_DEPTH);
    GroupRoot(s, group, [], leaves);
  }

  lemma {:induction false} Rebuilt(s: Scheme, nodes: map<NodeKey, Hash>, nodes': map<NodeKey, Hash>, tree: int,
      leaves: seq<Leaf>, group: seq<Row>, key: NodeKey)
    requires ZeroBeyond(s, nodes, tree, |leaves|) && Overlaid(nodes, nodes', tree, group) && |group| == TREE_DEPTH + 1
    requires GroupAgrees(s, group, [], leaves) && GroupCovers(group, 0, |leaves| - 1)
    requires forall i :: i in group[0] <==> 0 <= i < |leaves|
    ensures RebuiltAt(s, nodes, nodes', tree, leaves, key)
  {
    assert OverlaidAt(nodes, nodes', tree, group, key);
    if key.tree == tree && key.level <= TREE_DEPTH {
      assert GroupAgreesAt(s, group, [], leaves, key.level) && GroupCoversAt(group, 0, |leaves| - 1, key.level);
      assert RowAgreesAt(s, group[key.level], [], leaves, key.level, key.index);
      if key.index !in group[key.level] {
        ShrOfZero(key.level);
        assert ZeroBeyondAt(s, nodes, tree, |leaves|, key);
        NodeOfEmpty(s, key.level, key.index);
      }
    }
  }

  lemma {:induction false} AllRebuilt(s: Scheme, nodes: map<NodeKey, Hash>, nodes': map<NodeKey, Hash>, tree: int,
      leaves: seq<Leaf>, group: seq<Row>)
    requires ZeroBeyond(s, nodes, tree, |leaves|) && Overlaid(nodes, nodes', tree, group) && |group| == TREE_DEPTH + 1
    requires GroupAgrees(s, group, [], leaves) && GroupCovers(group, 0, |leaves| - 1)
    requires forall i :: i in group[0] <==> 0 <= i < |leaves|
    ensures forall key :: RebuiltAt(s, nodes, nodes', tree, leaves, key)
  {
    forall key
      ensures RebuiltAt(s, nodes, nodes', tree, leaves, key)
    {
      Rebuilt(s, nodes, nodes', tree, leaves, group, key);
    }
  }

  // ---------- the whole state as a value ----------

  datatype Database = Database(nodes: map<NodeKey, Hash>, data: map<Position, Leaf>, metadata: map<int, TreeMetadata>,
      roots: map<Position, Hash>)
  datatype View = View(forest: Forest, skipped: set<int>, failing: map<int, set<int>>)
  datatype State = State(db: Database, cache: map<NodeKey, Hash>, lengths: map<int, nat>, queues: map<int, Queue>,
      markers: map<int, InvalidMerkleroot>, view: View)

  function StoreMetadata(db: Database, tree: int, metadata: TreeMetadata): Database {
    db.(metadata := db.metadata[tree := metadata])
  }

  /** What a database must hold for a tree to be opened over it. */
  ghost predicate DatabaseOk(kind: Kind, s: Scheme, db: Database, markers: map<int, InvalidMerkleroot>, view: View) {
    && NodesAgree(s, db.nodes, view.forest) && DataAgrees(db.data, view.forest)
    && LengthsAgree(map[], db.metadata, markers, view.forest)
    && RootsAgree(kind, s, db.roots, markers, view.failing, view.forest)
  }

  // `getMetadataFromStorage`
  function LoadedLengths(metadata: map<int, TreeMetadata>): map<int, nat> {
    map t | t in metadata :: metadata[t].scannedHeight
  }

  function LoadedMarkers(metadata: map<int, TreeMetadata>): map<int, InvalidMerkleroot> {
    map t | t in metadata && metadata[t].invalidMerkleroot.Some? :: metadata[t].invalidMerkleroot.value
  }

  lemma {:induction false} MetadataLoaded(metadata: map<int, TreeMetadata>, markers: map<int, InvalidMerkleroot>,
      forest: Forest)
    requires LengthsAgree(map[], metadata, markers, forest)
    ensures LoadedMarkers(metadata) == markers
    ensures LengthsAgree(LoadedLengths(metadata), metadata, markers, forest)
  {
    var none: map<int, nat>, lengths := map[], LoadedLengths(metadata);
    forall t
      ensures LengthAgreesAt(lengths, metadata, markers, forest, t)
    {
      assert LengthAgreesAt(none, metadata, markers, forest, t);
    }
    var loaded := LoadedMarkers(metadata);
    forall t
      ensures (t in loaded <==> t in markers) && (t in loaded ==> loaded[t] == markers[t])
    {
      assert LengthAgreesAt(none, metadata, markers, forest, t);
    }
  }

  lemma {:induction false} NothingCachedOrQueued(nodes: map<NodeKey, Hash>, kind: Kind)
    ensures CacheAgrees(map[], nodes) && QueuesOk(map[], kind)
  {
    var cache: map<NodeKey, Hash> := map[];
    assert forall key :: CacheAgreesAt(cache, nodes, key);
    var queues: map<int, Queue> := map[];
    forall t
      ensures QueueOkAt(queues, kind, t)
    {
      assert forall k :: GroupOkAt(QueueOf(queues, t), k);
    }
  }

  /** A fresh database holds the empty forest. */
  lemma {:induction false} FreshDatabaseOk(kind: Kind, s: Scheme)
    ensures DatabaseOk(kind, s, Database(map[], map[], map[], map[]), map[], View(map[], {}, map[]))
  {
    var db, view := Database(map[], map[], map[], map[]), View(map[], {}, map[]);
    var markers: map<int, InvalidMerkleroot>, lengths: map<int, nat> := map[], map[];
    forall key
      ensures NodeAgreesAt(s, db.nodes, view.forest, key)
    {
      if key.level <= TREE_DEPTH {
        NodeOfEmpty(s, key.level, key.index);
      }
    }
    assert forall p :: DataAgreesAt(db.data, view.forest, p);
    assert forall p :: HistoryAgreesAt(s, db.roots, view.forest, p);
    assert forall t :: LengthAgreesAt(lengths, db.metadata, markers, view.forest, t);
    assert forall t :: MarkerIsLeastAt(markers, view.failing, view.forest, t);
  }

  ghost predicate StateOk(kind: Kind, s: Scheme, st: State) {
    && NodesAgree(s, st.db.nodes, st.view.forest) && CacheAgrees(st.cache, st.db.nodes)
    && DataAgrees(st.db.data, st.view.forest) && LengthsAgree(st.lengths, st.db.metadata, st.markers, st.view.forest)
    && RootsAgree(kind, s, st.db.roots, st.markers, st.view.failing, st.view.forest)
    && QueuesOk(st.queues, kind)
  }

  /** From `st` to `st'` a group of rows with a valid root was written: the marker the root passes
      is cleared, and nodes, data, the node's root table, length and metadata are stored. */
  ghost predicate WroteValidRoot(kind: Kind, st: State, st': State, tree: int, group: seq<Row>, length: nat,
      data: map<int, Leaf>)
    requires |group| == TREE_DEPTH + 1 && 0 in group[TREE_DEPTH]
  {
    && Overlaid(st.db.nodes, st'.db.nodes, tree, group) && CacheAgrees(st'.cache, st'.db.nodes)
    && st'.db.data == st.db.data + Keyed(tree, data)
    && st'.db.roots == RootsAfter(kind, st.db.roots, tree, length, group[TREE_DEPTH][0])
    && st'.markers == MarkersAfterValid(st.markers, st.markers, tree, length as int - 1)
    && SameExcept(st.lengths, st'.lengths, tree) && tree in st'.lengths && st'.lengths[tree] == length
    && SameExcept(st.db.metadata, st'.db.metadata, tree) && tree in st'.db.metadata
    && st'.db.metadata[tree] == TreeMetadata(length, MarkerOf(st'.markers, tree))
    && st'.queues == st.queues && st'.view == st.view
  }

  /** The view after an insertion. */
  ghost function ViewAfter(st: State, tree: int, leaves: seq<Leaf>, verdict: Verdict): View {
    var target := LeavesOf(st.view.forest, tree) + leaves;
    View(st.view.forest[tree := target], SkippedAfter(st.view.skipped, tree, verdict),
      MarkersAfterValid(st.markers, st.view.failing, tree, |target| - 1))
  }

  lemma {:induction false} WriteKeepsOk(kind: Kind, s: Scheme, st: State, st': State, tree: int, leaves: seq<Leaf>,
      group: seq<Row>, data: map<int, Leaf>, verdict: Verdict)
    requires StateOk(kind, s, st) && (kind == TXIDNode ==> |leaves| == 1)
    requires |group| == TREE_DEPTH + 1 && 0 in group[TREE_DEPTH]
    requires var old' := LeavesOf(st.view.forest, tree);
      && |old'| + |leaves| <= TREE_MAX_ITEMS && Places(data, |old'|, leaves)
      && GroupAgrees(s, group, old', old' + leaves)
      && WroteValidRoot(kind, st, st', tree, group, |old'| + |leaves|, data)
    ensures StateOk(kind, s, st'.(view := ViewAfter(st, tree, leaves, verdict)))
  {
    var forest := st.view.forest;
    GroupWritten(s, st.db.nodes, st'.db.nodes, forest, tree, LeavesOf(forest, tree) + leaves, group);
    DataWritten(st.db.data, forest, tree, leaves, data);
    GroupRoot(s, group, LeavesOf(forest, tree), LeavesOf(forest, tree) + leaves);
    LengthsKept(kind, st, st', tree, leaves, group, data);
    RootsCommitted(kind, s, st.db.roots, st.markers, st.view.failing, forest, tree, leaves);
  }

  lemma {:induction false} LengthsKept(kind: Kind, st: State, st': State, tree: int, leaves: seq<Leaf>,
      group: seq<Row>, data: map<int, Leaf>)
    requires |group| == TREE_DEPTH + 1 && 0 in group[TREE_DEPTH]
    requires LengthsAgree(st.lengths, st.db.metadata, st.markers, st.view.forest)
    requires var length := |LeavesOf(st.view.forest, tree)| + |leaves|;
      length <= TREE_MAX_ITEMS && WroteValidRoot(kind, st, st', tree, group, length, data)
    ensures LengthsAgree(st'.lengths, st'.db.metadata, st'.markers,
      st.view.forest[tree := LeavesOf(st.view.forest, tree) + leaves])
  {
    LengthsInserted(st.lengths, st'.lengths, st.db.metadata, st'.db.metadata, st.markers, st'.markers, st.view.forest,
      tree, LeavesOf(st.view.forest, tree) + leaves);
  }

  // ---------- queues ----------

  /** Two forests that differ at most in one tree. */
  ghost predicate SameLeavesExcept(f: Forest, g: Forest, tree: int) {
    forall t :: t != tree ==> LeavesOf(g, t) == LeavesOf(f, t)
  }

  ghost predicate SameQueuesExcept(q: map<int, Queue>, r: map<int, Queue>, tree: int) {
    forall t :: t != tree ==> QueueOf(r, t) == QueueOf(q, t)
  }

  /** `r` is `q` without the groups at `indices`. */
  ghost predicate DeletedFrom(q: Queue, r: Queue, indices: seq<nat>) {
    forall k :: DeletedAt(q, r, indices, k)
  }

  ghost predicate DeletedAt(q: Queue, r: Queue, indices: seq<nat>, k: nat) {
    SubAt(r, q, k) && (k in q ==> (k in r <==> k !in indices))
  }

  lemma {:induction false} ListedAreInserted(q: Queue, leaves: seq<Leaf>, now: seq<Leaf>, indices: seq<nat>)
    requires now == Batch(q, leaves, |indices|) && forall k :: k in indices ==> k < |now|
    requires forall j :: 0 <= j < |indices| ==> indices[j] == |Batch(q, leaves, j)|
    ensures forall k :: k in indices <==> IsInserted(q, leaves, now, k)
  {
    forall k: nat
      ensures k in indices <==> IsInserted(q, leaves, now, k)
    {
      if IsInserted(q, leaves, now, k) {
        var n: nat :| k == |Batch(q, leaves, n)|;
        if n >= |indices| {
          BatchMonotone(q, leaves, |indices|, n);
        }
      }
    }
  }

  lemma {:induction false} ListedRemoved(q: Queue, r: Queue, leaves: seq<Leaf>, now: seq<Leaf>, indices: seq<nat>)
    requires DeletedFrom(q, r, indices) && forall k :: k in indices <==> IsInserted(q, leaves, now, k)
    ensures Removed(q, leaves, r, now)
  {
    forall k
      ensures RemovedAt(q, leaves, r, now, k)
    {
      assert DeletedAt(q, r, indices, k);
    }
  }

  lemma {:induction false} GroupsDeleted(q: Queue, r: Queue, indices: seq<nat>, index: nat, end: nat)
    requires DeletedFrom(q, r, indices) && index in indices && index in q
    requires forall k :: k in indices ==> k < end
    ensures |r| < |q| && SubQueue(r, q) && AgreeFrom(q, r, end)
  {
    forall k: nat
      ensures SubAt(r, q, k) && (end <= k ==> AgreeAt(q, r, k)) && (k in r ==> k in q.Keys - {index})
    {
      assert DeletedAt(q, r, indices, k);
    }
    assert r.Keys <= q.Keys - {index};
    SubsetIsSmaller(r.Keys, q.Keys - {index});
  }

  lemma {:induction false} SubsetIsSmaller(a: set<nat>, b: set<nat>)
    requires a <= b
    ensures |a| <= |b|
  {
    assert b == a + (b - a);
  }

  lemma {:induction false} SubQueueOk(r: Queue, q: Queue)
    requires SubQueue(r, q)
    ensures WellFormed(q) ==> WellFormed(r)
    ensures SingleLeaves(q) ==> SingleLeaves(r)
  {
    forall k
      ensures GroupOkAt(q, k) ==> GroupOkAt(r, k)
    {
      assert SubAt(r, q, k);
    }
    forall k | k in r
      ensures k in q && r[k] == q[k]
    {
      assert SubAt(r, q, k);
    }
  }

  lemma {:induction false} QueueReplaced(queues: map<int, Queue>, kind: Kind, tree: int, q: Queue)
    requires QueuesOk(queues, kind) && SubQueue(q, QueueOf(queues, tree))
    ensures QueuesOk(queues[tree := q], kind)
  {
    assert QueueOkAt(queues, kind, tree);
    SubQueueOk(q, QueueOf(queues, tree));
    var queues' := queues[tree := q];
    forall t
      ensures QueueOkAt(queues', kind, t)
    {
      assert QueueOkAt(queues, kind, t);
    }
  }

  lemma {:induction false} QueueDropped(queues: map<int, Queue>, kind: Kind, tree: int)
    requires QueuesOk(queues, kind)
    ensures QueuesOk(queues - {tree}, kind)
  {
    var queues' := queues - {tree};
    forall t
      ensures QueueOkAt(queues', kind, t)
    {
      assert QueueOkAt(queues, kind, t);
    }
  }

  /** The size of the batches tried first, and whether rejected roots are inserted all the same. */
  datatype Processing = Processing(size: nat, skipValidation: bool)

  /** Where a run of `processWriteQueueForTree` that started from `leaves` and `q` stands when the
      tree holds `now` and the queue is `r`. */
  ghost predicate RunStands(judge: Judge, q: Queue, leaves: seq<Leaf>, r: Queue, now: seq<Leaf>, exact: bool)
    requires WellFormed(q)
  {
    && SubQueue(r, q) && AgreeFrom(q, r, |now|) && Remains(q, leaves, r, now)
    && (exists n: nat :: now == Batch(q, leaves, n))
    && Drained(q, now) == Drained(q, leaves)
    && (exact ==> PrefixClosed(judge, q, now) && OneByOne(judge, q, now) == OneByOne(judge, q, leaves))
  }

  /** Why processing stops although a group is queued at the tree's end: the validator rejects it,
      or failed to answer. */
  ghost predicate Stopped(judge: Judge, r: Queue, now: seq<Leaf>, skipValidation: bool) {
    |now| in r && Answers(judge, r, now) ==> !skipValidation && VerdictOn(judge, now + r[|now|]) == Rejected
  }

  /** A round that inserts nothing and has no smaller size to try. */
  lemma {:induction false} RoundStops(judge: Judge, r: Queue, now: seq<Leaf>, size: nat, skipValidation: bool,
      outcome: InsertOutcome)
    requires IsGroupSize(size) && (|now| in r <==> outcome != Inserted)
    requires |now| in r ==> outcome == OutcomeOf(VerdictOn(judge, Batch(r, now, size)), skipValidation)
    ensures (outcome == InvalidRoot ==> NextProcessingGroupSize(size) == 0) ==> Stopped(judge, r, now, skipValidation)
  {
    assert |now| in r ==> Batch(r, now, 1) == now + r[|now|];
    assert Answers(judge, r, now) ==> AnswersAt(judge, r, now, size);
  }

  /** The tree after `k` full batches. */
  function Stride(q: Queue, leaves: seq<Leaf>, size: nat, k: nat): seq<Leaf>
    decreases k
  {
    if k == 0 then leaves else Stride(q, Batch(q, leaves, size), size, k - 1)
  }

  /** The root after each full batch, and after the last one, which may be smaller, gets through. */
  ghost predicate StridesPass(judge: Judge, q: Queue, leaves: seq<Leaf>, how: Processing) {
    forall k: nat :: StridePassesAt(judge, q, leaves, how, k)
  }

  ghost predicate StridePassesAt(judge: Judge, q: Queue, leaves: seq<Leaf>, how: Processing, k: nat) {
    var now := Stride(q, leaves, how.size, k);
    |now| in q ==> OutcomeOf(VerdictOn(judge, Batch(q, now, how.size)), how.skipValidation) == Inserted
  }

  /** The next full batch gets through, and so do those behind it. */
  lemma {:induction false} StrideMoves(judge: Judge, q: Queue, r: Queue, now: seq<Leaf>, how: Processing)
    requires StridesPass(judge, q, now, how) && AgreeFrom(q, r, |now|)
    ensures |now| in r ==> OutcomeOf(VerdictOn(judge, Batch(r, now, how.size)), how.skipValidation) == Inserted
    ensures StridesPass(judge, q, Batch(r, now, how.size), how)
  {
    var next := Batch(q, now, how.size);
    BatchAgrees(q, r, now, how.size);
    assert AgreeAt(q, r, |now|) && StridePassesAt(judge, q, now, how, 0);
    forall k: nat
      ensures StridePassesAt(judge, q, next, how, k)
    {
      assert StridePassesAt(judge, q, now, how, k + 1);
    }
  }

  /** What one `processWriteQueueForTree` call does to a tree that holds `leaves` with queue `q`:
      it stops at a batch boundary, with a reason; it drains the queue unless a group stays queued
      at the tree's end, and always if the roots after full batches get through; and it is the
      one-by-one reference when the validator always answers and is prefix-closed. */
  ghost predicate TreeProcessed(judge: Judge, q: Queue, leaves: seq<Leaf>, r: Queue, now: seq<Leaf>, how: Processing) {
    && WellFormed(q) && RunStands(judge, q, leaves, r, now, false)
    && Stopped(judge, r, now, how.skipValidation)
    && (|now| !in r ==> now == Drained(q, leaves))
    && IsGroupSize(how.size) && now == Descent(judge, q, leaves, how)
    && (StridesPass(judge, q, leaves, how) ==> now == Drained(q, leaves))
    && (!how.skipValidation && Answers(judge, q, leaves) && PrefixClosed(judge, q, leaves)
      ==> now == OneByOne(judge, q, leaves))
  }

  /** The same for one tree of a forest. */
  ghost predicate ProcessedAt(s: Scheme, validator: Validator, queues: map<int, Queue>, forest: Forest,
      queues': map<int, Queue>, forest': Forest, how: Processing, tree: int) {
    TreeProcessed(Judge(s, validator, tree), QueueOf(queues, tree), LeavesOf(forest, tree), QueueOf(queues', tree),
      LeavesOf(forest', tree), how)
  }

  /** Where `updateTreesFromWriteQueue` stands with a tree: processed, or as before. */
  ghost predicate UpdatedAt(s: Scheme, validator: Validator, queues: map<int, Queue>, forest: Forest,
      queues': map<int, Queue>, forest': Forest, how: Processing, done: seq<int>, tree: int) {
    if tree in done then ProcessedAt(s, validator, queues, forest, queues', forest', how, tree)
    else QueueOf(queues', tree) == QueueOf(queues, tree) && LeavesOf(forest', tree) == LeavesOf(forest, tree)
  }

  ghost predicate Updated(s: Scheme, validator: Validator, queues: map<int, Queue>, forest: Forest,
      queues': map<int, Queue>, forest': Forest, how: Processing, done: seq<int>) {
    forall t :: UpdatedAt(s, validator, queues, forest, queues', forest', how, done, t)
  }

  lemma {:induction false} NothingUpdated(s: Scheme, validator: Validator, queues: map<int, Queue>, forest: Forest,
      how: Processing, trees: seq<int>)
    ensures Updated(s, validator, queues, forest, queues, forest, how, trees[..0])
  {
    forall t
      ensures UpdatedAt(s, validator, queues, forest, queues, forest, how, trees[..0], t)
    {
    }
  }

  lemma {:induction false} TreeUpdated(s: Scheme, validator: Validator, queues: map<int, Queue>, forest: Forest,
      queues1: map<int, Queue>, forest1: Forest, queues2: map<int, Queue>, forest2: Forest, how: Processing,
      done: seq<int>, tree: int)
    requires Updated(s, validator, queues, forest, queues1, forest1, how, done) && tree !in done
    requires SameLeavesExcept(forest1, forest2, tree) && SameQueuesExcept(queues1, queues2, tree)
    requires ProcessedAt(s, validator, queues1, forest1, queues2, forest2, how, tree)
    ensures Updated(s, validator, queues, forest, queues2, forest2, how, done + [tree])
  {
    forall t
      ensures UpdatedAt(s, validator, queues, forest, queues2, forest2, how, done + [tree], t)
    {
      assert UpdatedAt(s, validator, queues, forest, queues1, forest1, how, done, t);
      if t == tree {
        SameProcessed(s, validator, queues, forest, queues1, forest1, queues2, forest2, queues2, forest2, how, t);
      } else if t in done {
        SameProcessed(s, validator, queues, forest, queues, forest, queues1, forest1, queues2, forest2, how, t);
      }
    }
  }

  /** Only what a tree holds and has queued before and after matters. */
  lemma {:induction false} SameProcessed(s: Scheme, validator: Validator, queues: map<int, Queue>, forest: Forest,
      queues1: map<int, Queue>, forest1: Forest, queues2: map<int, Queue>, forest2: Forest, queues3: map<int, Queue>,
      forest3: Forest, how: Processing, t: int)
    requires QueueOf(queues, t) == QueueOf(queues1, t) && LeavesOf(forest, t) == LeavesOf(forest1, t)
    requires QueueOf(queues2, t) == QueueOf(queues3, t) && LeavesOf(forest2, t) == LeavesOf(forest3, t)
    ensures ProcessedAt(s, validator, queues, forest, queues3, forest3, how, t)
       <==> ProcessedAt(s, validator, queues1, forest1, queues2, forest2, how, t)
  {
  }

  lemma {:induction false} NothingQueued(judge: Judge, leaves: seq<Leaf>, how: Processing)
    requires IsGroupSize(how.size)
    ensures TreeProcessed(judge, map[], leaves, map[], leaves, how)
  {
    var q: Queue := map[];
    assert forall k :: GroupOkAt(q, k) && SubAt(q, q, k) && AgreeAt(q, q, k);
    assert forall k :: RemainsAt(q, leaves, q, leaves, k);
    assert leaves == Batch(q, leaves, 0);
  }

  lemma {:induction false} AllUpdated(s: Scheme, validator: Validator, queues: map<int, Queue>, forest: Forest,
      queues': map<int, Queue>, forest': Forest, how: Processing, trees: seq<int>)
    requires Updated(s, validator, queues, forest, queues', forest', how, trees)
    requires (forall t :: t in queues <==> t in trees) && IsGroupSize(how.size)
    ensures forall t :: ProcessedAt(s, validator, queues, forest, queues', forest', how, t)
    ensures forall t :: t !in trees ==> QueueOf(queues', t) == map[]
  {
    forall t
      ensures ProcessedAt(s, validator, queues, forest, queues', forest', how, t)
      ensures t !in trees ==> QueueOf(queues', t) == map[]
    {
      assert UpdatedAt(s, validator, queues, forest, queues', forest', how, trees, t);
      NothingQueued(Judge(s, validator, t), LeavesOf(forest, t), how);
    }
  }

  lemma {:induction false} GroupQueued(queues: map<int, Queue>, kind: Kind, tree: int, start: nat, leaves: seq<Leaf>)
    requires QueuesOk(queues, kind)
    requires leaves != [] && start + |leaves| <= TREE_MAX_ITEMS && (kind == TXIDNode ==> |leaves| == 1)
    ensures QueuesOk(queues[tree := QueueOf(queues, tree)[start := leaves]], kind)
  {
    var q := QueueOf(queues, tree)[start := leaves];
    var queues' := queues[tree := q];
    assert QueueOkAt(queues, kind, tree);
    forall k
      ensures GroupOkAt(q, k)
    {
      assert GroupOkAt(QueueOf(queues, tree), k);
    }
    forall t
      ensures QueueOkAt(queues', kind, t)
    {
      assert QueueOkAt(queues, kind, t);
    }
  }

  ghost predicate Ascending(s: seq<int>) {
    forall i, j :: 0 <= i < j < |s| ==> s[i] < s[j]
  }

  lemma {:induction false} AscendingMore(s: seq<int>, x: int)
    requires Ascending(s) && forall y :: y in s ==> y < x
    ensures Ascending(s + [x])
  {
    forall i | 0 <= i < |s|
      ensures s[i] < x
    {
      assert s[i] in s;
    }
  }

  lemma {:induction false} HasLeast(s: set<int>)
    requires s != {}
    ensures exists x :: x in s && forall y :: y in s ==> x <= y
  {
    assert exists x :: x in s by {
      assert (forall x :: x !in s) ==> s == {};
    }
    var x :| x in s;
    if s == {x} {
    } else {
      var rest := s - {x};
      HasLeast(rest);
      var least :| least in rest && forall y :: y in rest ==> least <= y;
      assert forall y :: y in s ==> y == x || y in rest;
      var m := if x < least then x else least;
      assert m in s && forall y :: y in s ==> m <= y;
    }
  }

  /** Trees 0..latest hold leaves and the next one does not; an empty forest has latest tree 0. */
  ghost predicate IsLatestTree(forest: Forest, latest: nat) {
    && (forall t :: 0 <= t < latest ==> |LeavesOf(forest, t)| > 0)
    && (|LeavesOf(forest, latest)| == 0 ==> latest == 0)
    && (|LeavesOf(forest, latest)| > 0 ==> |LeavesOf(forest, latest + 1)| == 0)
  }

  ghost function TreesFrom(forest: Forest, tree: int): set<int> {
    set t | t in forest && t >= tree
  }

  /** An inserted batch moves the run on. */
  lemma {:induction false} RunMoves(judge: Judge, q: Queue, leaves: seq<Leaf>, r: Queue, now: seq<Leaf>, r': Queue,
      max: nat, exact: bool)
    requires WellFormed(q) && RunStands(judge, q, leaves, r, now, exact) && max >= 1
    requires SubQueue(r', r) && AgreeFrom(r, r', |Batch(r, now, max)|) && Removed(r, now, r', Batch(r, now, max))
    requires exact ==> VerdictOn(judge, Batch(r, now, max)) == Accepted
    ensures RunStands(judge, q, leaves, r', Batch(r, now, max), exact)
  {
    var n: nat :| now == Batch(q, leaves, n);
    SubQueueTransitive(r', r, q);
    AgreeTransitive(q, r, r', |now|, |Batch(r, now, max)|);
    RemainsMore(q, leaves, n, r, max, r');
    BatchAgrees(q, r, now, max);
    BatchSplit(q, leaves, n, max);
    assert Batch(r, now, max) == Batch(q, leaves, n + max);
    BatchThenDrained(q, now, max);
    if exact {
      BatchIsShortcut(judge, q, now, max);
      ClosedAfter(judge, q, now, max);
    }
  }

  /** The tree after batches of at most `how.size` groups, stepping down a size, for good, whenever a
      root is rejected, until nothing is left to insert or to try. */
  ghost function Descent(judge: Judge, q: Queue, leaves: seq<Leaf>, how: Processing): seq<Leaf>
    requires WellFormed(q) && how.size > 0
    decreases TREE_MAX_ITEMS - |leaves|, how.size
  {
    if |leaves| !in q then leaves
    else
      assert GroupOkAt(q, |leaves|);
      BatchInTree(q, leaves, how.size);
      var next, smaller := Batch(q, leaves, how.size), NextProcessingGroupSize(how.size);
      var outcome := OutcomeOf(VerdictOn(judge, next), how.skipValidation);
      if outcome == Inserted then Descent(judge, q, next, how)
      else if outcome == InvalidRoot && smaller != 0 then Descent(judge, q, leaves, how.(size := smaller))
      else leaves
  }

  /** Every batch size up to `top` is rejected. */
  ghost predicate RejectedUpTo(judge: Judge, q: Queue, now: seq<Leaf>, top: nat) {
    forall size: nat :: IsGroupSize(size) && size <= top ==> VerdictOn(judge, Batch(q, now, size)) == Rejected
  }

  /** A descent that ends before a group, with a validator that answers, has tried every size from
      some `top` down, and if it inserted nothing every size there is to try. */
  lemma {:induction false} DescentTriesAll(judge: Judge, q: Queue, leaves: seq<Leaf>, how: Processing)
    requires WellFormed(q) && IsGroupSize(how.size) && Answers(judge, q, leaves)
    requires |Descent(judge, q, leaves, how)| in q
    ensures var now := Descent(judge, q, leaves, how);
      && leaves <= now && !how.skipValidation
      && (exists top: nat :: IsGroupSize(top) && top <= how.size && RejectedUpTo(judge, q, now, top))
      && (now == leaves ==> RejectedUpTo(judge, q, now, how.size))
    decreases TREE_MAX_ITEMS - |leaves|, how.size
  {
    if |leaves| in q {
      assert GroupOkAt(q, |leaves|);
      BatchInTree(q, leaves, how.size);
      var next := Batch(q, leaves, how.size);
      assert AnswersAt(judge, q, leaves, how.size);
      if OutcomeOf(VerdictOn(judge, next), how.skipValidation) == Inserted {
        assert forall k :: AgreeAt(q, q, k);
        AnswersAfter(judge, q, leaves, how.size, q);
        DescentTriesAll(judge, q, next, how);
      } else {
        var smaller := NextProcessingGroupSize(how.size);
        if smaller != 0 {
          DescentTriesAll(judge, q, leaves, how.(size := smaller));
        }
        RejectedFurther(judge, q, leaves, how.size);
      }
    }
  }

  lemma {:induction false} RejectedFurther(judge: Judge, q: Queue, now: seq<Leaf>, size: nat)
    requires IsGroupSize(size) && VerdictOn(judge, Batch(q, now, size)) == Rejected
    ensures RejectedUpTo(judge, q, now, NextProcessingGroupSize(size)) ==> RejectedUpTo(judge, q, now, size)
  {
  }

  /** An answer that does not come stops everything. */
  lemma {:induction false} UnansweredStops(judge: Judge, q: Queue, leaves: seq<Leaf>, how: Processing)
    requires WellFormed(q) && how.size > 0 && VerdictOn(judge, Batch(q, leaves, how.size)) == Unavailable
    ensures Descent(judge, q, leaves, how) == leaves
  {
  }

  /** Where the loop stands with batches of `size` to try next. */
  ghost predicate LoopStands(judge: Judge, q: Queue, leaves: seq<Leaf>, r: Queue, now: seq<Leaf>, exact: bool,
      how: Processing, size: nat, goOn: bool)
    requires WellFormed(q)
  {
    && RunStands(judge, q, leaves, r, now, exact) && (exact ==> !how.skipValidation)
    && IsGroupSize(how.size) && IsGroupSize(size)
    && Descent(judge, q, leaves, how) == (if goOn then Descent(judge, q, now, how.(size := size)) else now)
    && (!goOn ==> Stopped(judge, r, now, how.skipValidation))
    && (StridesPass(judge, q, leaves, how)
      ==> if goOn then size == how.size && StridesPass(judge, q, now, how) else |now| !in r)
  }

  /** What one `processWriteQueue` call does to a tree that holds `now` with queue `r`: a batch of
      at most `max` groups is inserted and leaves the queue, or nothing changes and the outcome
      says why. */
  ghost predicate BatchProcessed(judge: Judge, r: Queue, now: seq<Leaf>, r': Queue, now': seq<Leaf>, max: nat,
      skipValidation: bool, processedAny: bool, outcome: InsertOutcome) {
    && (processedAny <==> |now| in r && outcome == Inserted)
    && (outcome == if |now| in r then OutcomeOf(VerdictOn(judge, Batch(r, now, max)), skipValidation) else Inserted)
    && if processedAny
       then now' == Batch(r, now, max) && |r'| < |r| && SubQueue(r', r) && AgreeFrom(r, r', |now'|)
            && Removed(r, now, r', now')
       else now' == now && r' == r
  }

  /** The size of the next batch, or 0 to stop. */
  function NextRound(size: nat, processedAny: bool, outcome: InsertOutcome): nat {
    if processedAny then size else if outcome == InvalidRoot then NextProcessingGroupSize(size) else 0
  }

  /** A rejected batch of a UTXO tree leaves a marker at or before its end. */
  ghost predicate MarksRejection(kind: Kind, markers: map<int, InvalidMerkleroot>, tree: int, r: Queue,
      now: seq<Leaf>, max: nat, outcome: InsertOutcome) {
    kind == UTXO && outcome == InvalidRoot ==>
      tree in markers && |now| <= markers[tree].position < |Batch(r, now, max)|
  }

  /** A group that waits at the end of a UTXO tree, although the validator answers, has left its
      mark: the marker lies in it. */
  ghost predicate MarkedAt(kind: Kind, judge: Judge, markers: map<int, InvalidMerkleroot>, r: Queue, now: seq<Leaf>) {
    kind == UTXO && |now| in r && Answers(judge, r, now) ==>
      judge.tree in markers && |now| <= markers[judge.tree].position < |now| + |r[|now|]|
  }

  /** A round that inserts nothing and has no smaller size to try tried a single group. */
  lemma {:induction false} RoundMarks(kind: Kind, judge: Judge, markers: map<int, InvalidMerkleroot>, r: Queue,
      now: seq<Leaf>, size: nat, skipValidation: bool, outcome: InsertOutcome)
    requires IsGroupSize(size) && NextRound(size, false, outcome) == 0
    requires BatchProcessed(judge, r, now, r, now, size, skipValidation, false, outcome)
    requires MarksRejection(kind, markers, judge.tree, r, now, size, outcome)
    ensures MarkedAt(kind, judge, markers, r, now)
  {
    assert |now| in r ==> Batch(r, now, 1) == now + r[|now|];
    assert Answers(judge, r, now) ==> AnswersAt(judge, r, now, size);
  }

  /** What a round leaves: the loop stands where it should with fewer groups or a smaller size, or it
      stops. */
  ghost predicate RoundOk(judge: Judge, q: Queue, leaves: seq<Leaf>, r: Queue, r': Queue, now': seq<Leaf>, exact: bool,
      how: Processing, size: nat, next: nat, goOn: bool, kind: Kind, markers: map<int, InvalidMerkleroot>)
    requires WellFormed(q)
  {
    && LoopStands(judge, q, leaves, r', now', exact, how, next, goOn) && IsGroupSize(next)
    && if goOn then |r'| < |r| || (r' == r && next < size) else next == size && MarkedAt(kind, judge, markers, r', now')
  }

  lemma {:induction false} RoundDone(judge: Judge, q: Queue, leaves: seq<Leaf>, r: Queue, now: seq<Leaf>, r': Queue,
      now': seq<Leaf>, exact: bool, how: Processing, size: nat, processedAny: bool, outcome: InsertOutcome,
      kind: Kind, markers: map<int, InvalidMerkleroot>)
    requires WellFormed(q) && LoopStands(judge, q, leaves, r, now, exact, how, size, true) && IsGroupSize(size)
    requires BatchProcessed(judge, r, now, r', now', size, how.skipValidation, processedAny, outcome)
    requires MarksRejection(kind, markers, judge.tree, r, now, size, outcome)
    ensures var next := NextRound(size, processedAny, outcome);
      RoundOk(judge, q, leaves, r, r', now', exact, how, size, if next != 0 then next else size, next != 0, kind,
        markers)
  {
    if StridesPass(judge, q, leaves, how) {
      StrideMoves(judge, q, r, now, how);
    }
    assert AgreeAt(q, r, |now|);
    BatchAgrees(q, r, now, size);
    if processedAny {
      RunMoves(judge, q, leaves, r, now, r', size, exact);
    } else {
      RoundStops(judge, r, now, size, how.skipValidation, outcome);
      if NextRound(size, processedAny, outcome) == 0 {
        RoundMarks(kind, judge, markers, r, now, size, how.skipValidation, outcome);
      }
    }
  }

  lemma {:induction false} StoppedRun(judge: Judge, q: Queue, leaves: seq<Leaf>, r: Queue, now: seq<Leaf>, exact: bool,
      how: Processing, size: nat)
    requires WellFormed(q) && LoopStands(judge, q, leaves, r, now, exact, how, size, false)
    ensures |now| !in r ==> now == Drained(q, leaves)
    ensures StridesPass(judge, q, leaves, how) ==> now == Drained(q, leaves)
    ensures now == Descent(judge, q, leaves, how)
    ensures exact && Answers(judge, q, leaves) ==> now == OneByOne(judge, q, leaves)
  {
    assert AgreeAt(q, r, |now|);
    if Answers(judge, q, leaves) {
      var n: nat :| now == Batch(q, leaves, n);
      AnswersAfter(judge, q, leaves, n, r);
    }
  }

  /** A processing call that leaves a group at the tree's end has tried every size from some `top`
      down there, and from the first size on if it inserted nothing. */
  lemma {:induction false} EverySizeTried(judge: Judge, q: Queue, leaves: seq<Leaf>, r: Queue, now: seq<Leaf>,
      how: Processing)
    requires TreeProcessed(judge, q, leaves, r, now, how) && |now| in r && Answers(judge, q, leaves)
    ensures exists top: nat :: IsGroupSize(top) && top <= how.size && RejectedUpTo(judge, r, now, top)
    ensures now == leaves ==> RejectedUpTo(judge, r, now, how.size)
  {
    assert AgreeAt(q, r, |now|);
    DescentTriesAll(judge, q, leaves, how);
    forall top: nat
      ensures RejectedUpTo(judge, q, now, top) ==> RejectedUpTo(judge, r, now, top)
    {
      RejectedAgrees(judge, q, r, now, top);
    }
  }

  lemma {:induction false} RejectedAgrees(judge: Judge, q: Queue, r: Queue, now: seq<Leaf>, top: nat)
    requires AgreeFrom(q, r, |now|)
    ensures RejectedUpTo(judge, q, now, top) ==> RejectedUpTo(judge, r, now, top)
  {
    forall size: nat
      ensures Batch(q, now, size) == Batch(r, now, size)
    {
      BatchAgrees(q, r, now, size);
    }
  }

  class Merkletree {
    const scheme: Scheme
    const kind: Kind
    const defaultProcessingSize: nat
    const zeros: seq<Hash>
    var validator: Validator

    var db: Database
    var treeLengths: map<int, nat>
    var writeQueue: map<int, Queue>
    var cachedNodeHashes: map<NodeKey, Hash>
    var invalidMerkleroots: map<int, InvalidMerkleroot>

    /** What it all stands for. */
    ghost var view: View

    /** Opens a tree over what its database holds: a fresh one, or one left by an earlier instance.
        Lengths and markers come from the stored metadata; cache and queue start empty. */
    constructor (scheme: Scheme, kind: Kind, validator: Validator, processingSize: nat, db: Database, ghost view: View,
        ghost markers: map<int, InvalidMerkleroot>)
      requires DatabaseOk(kind, scheme, db, markers, view) && IsGroupSize(processingSize)
      requires kind == TXIDNode ==> processingSize == 1 && AcceptsAll(validator)
      requires kind == UTXO ==> RootsAccepted(scheme, validator, view.skipped, view.forest)
      ensures Valid() && this.view == view && this.db == db && writeQueue == map[]
      ensures this.scheme == scheme && this.kind == kind && this.validator == validator
        && defaultProcessingSize == processingSize
      ensures invalidMerkleroots == markers
    {
      var z: seq<Hash> := [scheme.zero];
      while |z| <= TREE_DEPTH
        invariant 1 <= |z| <= TREE_DEPTH + 1 && forall l :: 0 <= l < |z| ==> z[l] == Zero(scheme, l)
        decreases TREE_DEPTH + 1 - |z|
      {
        z := z + [scheme.hash(z[|z| - 1], z[|z| - 1])];
      }
      MetadataLoaded(db.metadata, markers, view.forest);
      NothingCachedOrQueued(db.nodes, kind);
      this.scheme, this.kind, this.validator, this.defaultProcessingSize, this.zeros := scheme, kind, validator,
        processingSize, z;
      this.db, this.view := db, view;
      this.treeLengths := LoadedLengths(db.metadata);
      this.invalidMerkleroots := LoadedMarkers(db.metadata);
      this.cachedNodeHashes, this.writeQueue := map[], map[];
    }

    ghost predicate Settings()
      reads this
    {
      && ZerosOk(scheme, zeros) && IsGroupSize(defaultProcessingSize)
      && (kind == TXIDNode ==> defaultProcessingSize == 1 && AcceptsAll(validator))
    }

    ghost function Now(): State
      reads this
    {
      State(db, cachedNodeHashes, treeLengths, writeQueue, invalidMerkleroots, view)
    }

    ghost predicate LengthsOk()
      reads this
    {
      DataAgrees(db.data, view.forest) && LengthsAgree(treeLengths, db.metadata, invalidMerkleroots, view.forest)
    }

    ghost predicate Valid()
      reads this
    {
      && Settings() && StateOk(kind, scheme, Now())
      && (kind == UTXO ==> RootsAccepted(scheme, validator, view.skipped, view.forest))
    }

    ghost function Leaves(tree: int): seq<Leaf>
      reads this`view
    {
      LeavesOf(view.forest, tree)
    }

    /** `getNodeHash`: cache, then database, then the zero of the level. */
    method GetNodeHash(tree: int, level: nat, index: int) returns (hash: Hash)
      requires Settings() && CacheAgrees(cachedNodeHashes, db.nodes) && level <= TREE_DEPTH
      modifies this`cachedNodeHashes
      ensures CacheAgrees(cachedNodeHashes, db.nodes)
      ensures hash == Stored(scheme, db.nodes, NodeKey(tree, level, index))
    {
      var key := NodeKey(tree, level, index);
      assert CacheAgreesAt(cachedNodeHashes, db.nodes, key);
      if key in cachedNodeHashes {
        return cachedNodeHashes[key];
      }
      if key in db.nodes {
        CacheFilled(cachedNodeHashes, db.nodes, key);
        cachedNodeHashes := cachedNodeHashes[key := db.nodes[key]];
        return db.nodes[key];
      }
      return zeros[level];
    }

    /** The left or right operand of a pair: the row being written, or else the looked-up node. */
    method Operand(row: Row, tree: int, level: nat, index: int, zerosOnly: bool, ghost base: seq<Leaf>,
        ghost target: seq<Leaf>) returns (hash: Hash)
      requires Settings() && CacheAgrees(cachedNodeHashes, db.nodes) && level < TREE_DEPTH
      requires RowAgrees(scheme, row, base, target, level)
      requires if zerosOnly then base == [] else NodesAgree(scheme, db.nodes, view.forest) && base == Leaves(tree)
      modifies this`cachedNodeHashes
      ensures CacheAgrees(cachedNodeHashes, db.nodes)
      ensures hash == Node(scheme, target, level, index)
    {
      assert RowAgreesAt(scheme, row, base, target, level, index);
      if index in row {
        hash := row[index];
      } else if zerosOnly {
        hash := zeros[level];
        NodeOfEmpty(scheme, level, index);
      } else {
        hash := GetNodeHash(tree, level, index);
        assert NodeAgreesAt(scheme, db.nodes, view.forest, NodeKey(tree, level, index));
      }
    }

    /** `fillHashWriteGroup`: hashes pairs upward from `startIndex`..`endIndex + 1`, level by level.
        `target` is the tree after the first row is written over `base`. */
    method FillHashWriteGroup(firstRow: Row, tree: int, startIndex: int, endIndex: int, zerosOnly: bool,
        ghost base: seq<Leaf>, ghost target: seq<Leaf>) returns (group: seq<Row>)
      requires Settings() && CacheAgrees(cachedNodeHashes, db.nodes)
      requires startIndex <= endIndex + 1
      requires RowAgrees(scheme, firstRow, base, target, 0)
      requires forall i :: i in firstRow ==> startIndex <= i <= endIndex
      requires if zerosOnly then base == [] else NodesAgree(scheme, db.nodes, view.forest) && base == Leaves(tree)
      modifies this`cachedNodeHashes
      ensures CacheAgrees(cachedNodeHashes, db.nodes)
      ensures |group| == TREE_DEPTH + 1 && group[0] == firstRow
      ensures GroupAgrees(scheme, group, base, target) && GroupCovers(group, startIndex, endIndex)
    {
      RowOutside(scheme, firstRow, base, target, startIndex, endIndex);
      group := [firstRow];
      var level := 0;
      var nextLevelStartIndex, nextLevelEndIndex := startIndex, endIndex;
      while level < TREE_DEPTH
        invariant 0 <= level <= TREE_DEPTH && |group| == level + 1 && group[0] == firstRow
        invariant nextLevelStartIndex == Shr(startIndex, level) && nextLevelEndIndex == Shr(endIndex, level)
        invariant nextLevelStartIndex <= nextLevelEndIndex + 1
        invariant CacheAgrees(cachedNodeHashes, db.nodes)
        invariant GroupAgrees(scheme, group, base, target) && GroupCovers(group, startIndex, endIndex)
      {
        assert GroupAgreesAt(scheme, group, base, target, level);
        var row := HashRow(group[level], tree, level, nextLevelStartIndex, nextLevelEndIndex, zerosOnly, base, target);
        GroupExtended(scheme, group, row, base, target, startIndex, endIndex);
        group := group + [row];
        nextLevelStartIndex, nextLevelEndIndex := nextLevelStartIndex / 2, nextLevelEndIndex / 2;
        level := level + 1;
      }
    }

    /** The parent of the pair that holds `index`. */
    method HashPair(row: Row, tree: int, level: nat, index: int, zerosOnly: bool, ghost base: seq<Leaf>,
        ghost target: seq<Leaf>) returns (hash: Hash)
      requires Settings() && CacheAgrees(cachedNodeHashes, db.nodes) && level < TREE_DEPTH
      requires RowAgrees(scheme, row, base, target, level)
      requires if zerosOnly then base == [] else NodesAgree(scheme, db.nodes, view.forest) && base == Leaves(tree)
      modifies this`cachedNodeHashes
      ensures CacheAgrees(cachedNodeHashes, db.nodes)
      ensures hash == Node(scheme, target, level + 1, index / 2)
    {
      NodeParent(scheme, target, level, index);
      var left, right;
      if index % 2 == 0 {
        left := Operand(row, tree, level, index, zerosOnly, base, target);
        right := Operand(row, tree, level, index + 1, zerosOnly, base, target);
      } else {
        left := Operand(row, tree, level, index - 1, zerosOnly, base, target);
        right := Operand(row, tree, level, index, zerosOnly, base, target);
      }
      hash := scheme.hash(left, right);
    }

    /** The inner loop of `fillHashWriteGroup`: the row above `row`. */
    method HashRow(row: Row, tree: int, level: nat, first: int, last: int, zerosOnly: bool, ghost base: seq<Leaf>,
        ghost target: seq<Leaf>) returns (above: Row)
      requires Settings() && CacheAgrees(cachedNodeHashes, db.nodes) && level < TREE_DEPTH
      requires first <= last + 1
      requires RowAgrees(scheme, row, base, target, level)
      requires if zerosOnly then base == [] else NodesAgree(scheme, db.nodes, view.forest) && base == Leaves(tree)
      modifies this`cachedNodeHashes
      ensures CacheAgrees(cachedNodeHashes, db.nodes)
      ensures forall i :: i in above ==> above[i] == Node(scheme, target, level + 1, i)
      ensures forall i :: first / 2 <= i <= last / 2 ==> i in above
      ensures first / 2 in above
    {
      above := map[];
      var index := first;
      while index <= last + 1
        invariant first <= index && CacheAgrees(cachedNodeHashes, db.nodes)
        invariant forall i :: i in above ==> above[i] == Node(scheme, target, level + 1, i)
        invariant forall i :: first / 2 <= i < index / 2 ==> i in above
        invariant index != first ==> first / 2 in above
      {
        var hash := HashPair(row, tree, level, index, zerosOnly, base, target);
        above := above[index / 2 := hash];
        index := index + 2;
      }
    }

    // ---------- lengths and metadata ----------

    /** The length `getTreeLength` finds: in memory, or stored, or counted in the database. */
    ghost function LengthFound(tree: int): nat
      reads this`treeLengths, this`db
    {
      if tree in treeLengths then treeLengths[tree]
      else if tree in db.metadata then db.metadata[tree].scannedHeight
      else DataCount(db.data, tree)
    }

    /** `getTreeLengthFromDBCount`: the number of leaves, if the stored data agrees with them. */
    method GetTreeLengthFromDBCount(tree: int) returns (count: nat)
      ensures DataAgrees(db.data, view.forest) ==> count == |Leaves(tree)|
      ensures count == DataCount(db.data, tree)
    {
      if DataAgrees(db.data, view.forest) {
        CountIsLength(db.data, view.forest, tree);
      }
      count := |set p | p in db.data && p.tree == tree|;
    }

    method GetTreeLength(tree: int) returns (length: nat)
      modifies this`treeLengths, this`db
      ensures length == old(LengthFound(tree)) && treeLengths == old(treeLengths)[tree := length]
      ensures tree in old(treeLengths) ==> treeLengths == old(treeLengths)
      ensures db == if tree !in old(treeLengths) && tree !in old(db).metadata && length > 0
        then StoreMetadata(old(db), tree, TreeMetadata(length, MarkerOf(invalidMerkleroots, tree))) else old(db)
      decreases if tree in treeLengths then 0 else 1, 0
    {
      if tree in treeLengths {
        return treeLengths[tree];
      }
      if tree in db.metadata {
        treeLengths := treeLengths[tree := db.metadata[tree].scannedHeight];
        return treeLengths[tree];
      }
      length := GetTreeLengthFromDBCount(tree);
      treeLengths := treeLengths[tree := length];
      if length > 0 {
        UpdateStoredMerkletreesMetadata(tree);
      }
    }

    method UpdateStoredMerkletreesMetadata(tree: int)
      modifies this`treeLengths, this`db
      ensures treeLengths == old(treeLengths)[tree := old(LengthFound(tree))]
      ensures tree in old(treeLengths) ==> treeLengths == old(treeLengths)
      ensures db == StoreMetadata(old(db), tree,
        TreeMetadata(old(LengthFound(tree)), MarkerOf(invalidMerkleroots, tree)))
      decreases if tree in treeLengths then 0 else 1, 1
    {
      var length := GetTreeLength(tree);
      db := db.(metadata := db.metadata[tree := TreeMetadata(length, MarkerOf(invalidMerkleroots, tree))]);
    }

    method ResetTreeLength(tree: int)
      modifies this`treeLengths, this`db
      ensures treeLengths == old(treeLengths) - {tree} && db == old(db).(metadata := old(db).metadata - {tree})
    {
      treeLengths := treeLengths - {tree};
      db := db.(metadata := db.metadata - {tree});
    }

    /** A restart loses nothing: the database of a valid tree can be opened again for the same forest. */
    lemma {:induction false} CanReopen()
      requires Valid()
      ensures DatabaseOk(kind, scheme, db, invalidMerkleroots, view)
      ensures kind == UTXO ==> RootsAccepted(scheme, validator, view.skipped, view.forest)
    {
      var none: map<int, nat> := map[];
      forall t
        ensures LengthAgreesAt(none, db.metadata, invalidMerkleroots, view.forest, t)
      {
        assert LengthAgreesAt(treeLengths, db.metadata, invalidMerkleroots, view.forest, t);
      }
    }

    /** The current root of a UTXO tree is one the validator accepts for the tree's last index, unless
        it was written with validation skipped. */
    lemma {:induction false} CurrentRootAccepted(tree: int)
      requires Valid() && kind == UTXO && Leaves(tree) != [] && tree !in view.skipped
      ensures VerdictOn(JudgeOf(tree), Leaves(tree)) == Accepted
    {
      assert RootAcceptedAt(scheme, validator, view.skipped, view.forest, tree);
    }

    ghost predicate Marked(tree: int)
      reads this
    {
      MarkedAt(kind, JudgeOf(tree), invalidMerkleroots, QueueAt(tree), Leaves(tree))
    }

    /** In a valid forest the length found, wherever it comes from, is the number of leaves. */
    lemma {:induction false} LengthFoundIsLength(tree: int)
      requires LengthsOk()
      ensures LengthFound(tree) == |Leaves(tree)|
    {
      assert LengthAgreesAt(treeLengths, db.metadata, invalidMerkleroots, view.forest, tree);
      if tree !in treeLengths && tree !in db.metadata {
        CountIsLength(db.data, view.forest, tree);
      }
    }

    /** `getTreeLength` as every caller of a valid forest sees it. */
    method TreeLength(tree: int) returns (length: nat)
      requires Valid()
      modifies this`treeLengths, this`db
      ensures Valid() && length == |Leaves(tree)| && treeLengths == old(treeLengths)[tree := length]
    {
      LengthFoundIsLength(tree);
      LengthsRecalled(treeLengths, db.metadata, invalidMerkleroots, view.forest, tree);
      length := GetTreeLength(tree);
    }

    // ---------- writing ----------

    /** The node batch of `writeTreeToDB`: every row goes to the cache and to the database. */
    method WriteNodes(tree: int, group: seq<Row>)
      requires CacheAgrees(cachedNodeHashes, db.nodes)
      modifies this`db, this`cachedNodeHashes
      ensures CacheAgrees(cachedNodeHashes, db.nodes) && Overlaid(old(db).nodes, db.nodes, tree, group)
      ensures db == old(db).(nodes := db.nodes)
    {
      ghost var cache0, nodes0 := cachedNodeHashes, db.nodes;
      for level := 0 to |group|
        invariant Overlaid(cache0, cachedNodeHashes, tree, group[..level])
        invariant Overlaid(nodes0, db.nodes, tree, group[..level]) && db == old(db).(nodes := db.nodes)
      {
        OverlaidLevel(cache0, cachedNodeHashes, tree, group, level);
        OverlaidLevel(nodes0, db.nodes, tree, group, level);
        cachedNodeHashes := cachedNodeHashes + LevelNodes(tree, level, group[level]);
        db := db.(nodes := db.nodes + LevelNodes(tree, level, group[level]));
      }
      assert group[..|group|] == group;
      CacheOverlaid(cache0, nodes0, cachedNodeHashes, db.nodes, tree, group);
    }

    /** `newTreeLength` is the length of the array `group[0]`. */
    method WriteTreeToDB(tree: int, group: seq<Row>, newTreeLength: nat, dataWriteGroup: map<int, Leaf>)
      requires |group| == TREE_DEPTH + 1 && 0 in group[TREE_DEPTH]
      requires CacheAgrees(cachedNodeHashes, db.nodes)
      modifies this`db, this`cachedNodeHashes, this`treeLengths
      ensures CacheAgrees(cachedNodeHashes, db.nodes) && Overlaid(old(db).nodes, db.nodes, tree, group)
      ensures db.data == old(db).data + Keyed(tree, dataWriteGroup)
      ensures db.metadata == old(db).metadata[tree := TreeMetadata(newTreeLength, MarkerOf(invalidMerkleroots, tree))]
      ensures db.roots == RootsAfter(kind, old(db).roots, tree, newTreeLength, group[TREE_DEPTH][0])
      ensures treeLengths == old(treeLengths)[tree := newTreeLength]
    {
      WriteNodes(tree, group);
      var roots := RootsAfter(kind, db.roots, tree, newTreeLength, group[TREE_DEPTH][0]);
      db := db.(data := db.data + Keyed(tree, dataWriteGroup), roots := roots);
      treeLengths := treeLengths[tree := newTreeLength];
      UpdateStoredMerkletreesMetadata(tree);
    }

    // ---------- the invalid-root marker ----------

    /** `validRootCallback`: in the UTXO tree, forget a marker that is now behind the tree's end. */
    method ValidRootCallback(tree: int, lastValidLeafIndex: int)
      requires kind != UTXO ==> invalidMerkleroots == map[]
      modifies this`invalidMerkleroots, this`treeLengths, this`db
      ensures invalidMerkleroots == MarkersAfterValid(old(invalidMerkleroots), old(invalidMerkleroots), tree,
        lastValidLeafIndex)
      ensures SameExcept(old(treeLengths), treeLengths, tree) && SameExcept(old(db).metadata, db.metadata, tree)
      ensures db == old(db).(metadata := db.metadata)
    {
      if kind == UTXO && tree in invalidMerkleroots && invalidMerkleroots[tree].position <= lastValidLeafIndex {
        invalidMerkleroots := invalidMerkleroots - {tree};
        UpdateStoredMerkletreesMetadata(tree);
      }
    }

    /** `invalidRootCallback`: in the UTXO tree, remember the least failing position. */
    method InvalidRootCallback(tree: int, lastKnownInvalidLeafIndex: int, blockNumber: nat)
      modifies this`invalidMerkleroots, this`view, this`treeLengths, this`db
      ensures view == if kind == UTXO
        then old(view).(failing := old(view).failing[tree := FailingAt(old(view).failing,
        tree) + {lastKnownInvalidLeafIndex}]) else old(view)
      ensures var less := kind == UTXO
        && !(tree in old(invalidMerkleroots) && old(invalidMerkleroots)[tree].position < lastKnownInvalidLeafIndex);
        var marker := InvalidMerkleroot(lastKnownInvalidLeafIndex, blockNumber);
        && invalidMerkleroots == (if less then old(invalidMerkleroots)[tree := marker] else old(invalidMerkleroots))
        && treeLengths == (if less then old(treeLengths)[tree := old(LengthFound(tree))] else old(treeLengths))
        && db == (if less then StoreMetadata(old(db), tree, TreeMetadata(old(LengthFound(tree)), Some(marker)))
          else old(db))
    {
      if kind == UTXO {
        view := view.(failing := view.failing[tree := FailingAt(view.failing, tree) + {lastKnownInvalidLeafIndex}]);
        if tree in invalidMerkleroots && invalidMerkleroots[tree].position < lastKnownInvalidLeafIndex {
          return;
        }
        invalidMerkleroots := invalidMerkleroots[tree := InvalidMerkleroot(lastKnownInvalidLeafIndex, blockNumber)];
        UpdateStoredMerkletreesMetadata(tree);
      }
    }

    // ---------- inserting ----------

    /** The first loop of `insertLeaves`: the leaves' hashes and data at their indices. */
    method PlaceLeaves(startIndex: nat, leaves: seq<Leaf>) returns (row: Row, data: map<int, Leaf>)
      ensures forall i :: i in row <==> startIndex <= i < startIndex + |leaves|
      ensures forall i :: i in row ==> row[i] == leaves[i - startIndex].hash
      ensures Places(data, startIndex, leaves)
    {
      row, data := map[], map[];
      var index: int := startIndex;
      for k := 0 to |leaves|
        invariant index == startIndex + k
        invariant forall i :: i in row <==> startIndex <= i < index
        invariant forall i :: i in row ==> row[i] == leaves[i - startIndex].hash
        invariant Places(data, startIndex, leaves[..k])
      {
        row := row[index := leaves[k].hash];
        data := data[index := leaves[k]];
        index := index + 1;
      }
      assert leaves[..|leaves|] == leaves;
    }

    /** The last two steps of an accepted `insertLeaves`: the callback, then the write. */
    method WriteValidRoot(tree: int, group: seq<Row>, newTreeLength: nat, dataWriteGroup: map<int, Leaf>)
      requires |group| == TREE_DEPTH + 1 && 0 in group[TREE_DEPTH]
      requires CacheAgrees(cachedNodeHashes, db.nodes) && (kind != UTXO ==> invalidMerkleroots == map[])
      modifies this`db, this`cachedNodeHashes, this`treeLengths, this`invalidMerkleroots
      ensures WroteValidRoot(kind, old(Now()), Now(), tree, group, newTreeLength, dataWriteGroup)
    {
      ValidRootCallback(tree, newTreeLength as int - 1);
      WriteTreeToDB(tree, group, newTreeLength, dataWriteGroup);
    }

    /** The accepted end of `insertLeaves` keeps the forest valid and appends the leaves. */
    method CommitLeaves(tree: int, group: seq<Row>, startIndex: nat, leaves: seq<Leaf>, dataWriteGroup: map<int, Leaf>)
      requires Valid() && startIndex == |Leaves(tree)|
      requires startIndex + |leaves| <= TREE_MAX_ITEMS && (kind == TXIDNode ==> |leaves| == 1)
      requires Places(dataWriteGroup, startIndex, leaves)
      requires |group| == TREE_DEPTH + 1 && 0 in group[TREE_DEPTH]
      requires GroupAgrees(scheme, group, Leaves(tree), Leaves(tree) + leaves)
      modifies this`db, this`cachedNodeHashes, this`treeLengths, this`invalidMerkleroots, this`view
      ensures Valid()
      ensures view
        == ViewAfter(old(Now()), tree, leaves, VerdictOn(JudgeOf(tree), old(Leaves(tree)) + leaves))
      ensures invalidMerkleroots
        == MarkersAfterValid(old(invalidMerkleroots), old(invalidMerkleroots), tree, startIndex + |leaves| - 1)
    {
      ghost var before := Now();
      WriteValidRoot(tree, group, startIndex + |leaves|, dataWriteGroup);
      AppendToView(before, tree, group, leaves, dataWriteGroup);
    }

    /** The write stands for the leaves appended. */
    ghost method AppendToView(before: State, tree: int, group: seq<Row>, leaves: seq<Leaf>, data: map<int, Leaf>)
      requires Settings() && StateOk(kind, scheme, before) && (kind == TXIDNode ==> |leaves| == 1)
      requires kind == UTXO ==> RootsAccepted(scheme, validator, before.view.skipped, before.view.forest)
      requires |group| == TREE_DEPTH + 1 && 0 in group[TREE_DEPTH]
      requires var base := LeavesOf(before.view.forest, tree);
        && |base| + |leaves| <= TREE_MAX_ITEMS && Places(data, |base|, leaves)
        && GroupAgrees(scheme, group, base, base + leaves)
        && WroteValidRoot(kind, before, Now(), tree, group, |base| + |leaves|, data)
      modifies this`view
      ensures Valid()
      ensures view == ViewAfter(before, tree, leaves,
        VerdictOn(JudgeOf(tree), LeavesOf(before.view.forest, tree) + leaves))
    {
      var target := LeavesOf(before.view.forest, tree) + leaves;
      var verdict := VerdictOn(JudgeOf(tree), target);
      if kind == UTXO {
        RootsInserted(scheme, validator, before.view.skipped, before.view.forest, tree, target);
      }
      WriteKeepsOk(kind, scheme, before, Now(), tree, leaves, group, data, verdict);
      view := ViewAfter(before, tree, leaves, verdict);
    }

    /** The rejected end of `insertLeaves` keeps the forest as it is. */
    method RejectRoot(tree: int, lastLeafIndex: int, blockNumber: nat)
      requires Valid() && |Leaves(tree)| <= lastLeafIndex
      modifies this`db, this`treeLengths, this`invalidMerkleroots, this`view
      ensures Valid()
      ensures view == old(view).(failing
        := FailingAfter(kind, old(invalidMerkleroots), old(view).failing, tree, lastLeafIndex, InvalidRoot))
      ensures invalidMerkleroots == MarkersAfter(kind, old(invalidMerkleroots), tree,
        InvalidMerkleroot(lastLeafIndex, blockNumber), InvalidRoot)
    {
      LengthFoundIsLength(tree);
      ghost var marker := InvalidMerkleroot(lastLeafIndex, blockNumber);
      MarkersRejected(invalidMerkleroots, view.failing, view.forest, tree, marker);
      LengthsRejected(treeLengths, db.metadata, invalidMerkleroots, view.forest, tree, marker);
      InvalidRootCallback(tree, lastLeafIndex, blockNumber);
    }

    /** `insertLeaves`: hash the batch over the tree, ask the validator about the new root, and
        write only when it may. */
    method InsertLeaves(tree: int, startIndex: nat, leaves: seq<Leaf>, skipValidation: bool)
        returns (outcome: InsertOutcome)
      requires Valid() && startIndex == |Leaves(tree)|
      requires leaves != [] && startIndex + |leaves| <= TREE_MAX_ITEMS && (kind == TXIDNode ==> |leaves| == 1)
      modifies this`db, this`cachedNodeHashes, this`treeLengths, this`invalidMerkleroots, this`view
      ensures Valid()
      ensures outcome == OutcomeOf(VerdictOn(Judge(scheme, validator, tree), old(Leaves(tree)) + leaves),
        skipValidation)
      ensures view.forest == if outcome == Inserted then old(view).forest[tree := old(Leaves(tree)) + leaves]
        else old(view).forest
      ensures view.failing == FailingAfter(kind, old(invalidMerkleroots), old(view).failing, tree,
        startIndex + |leaves| - 1, outcome)
      ensures invalidMerkleroots == MarkersAfter(kind, old(invalidMerkleroots), tree,
        InvalidMerkleroot(startIndex + |leaves| - 1, leaves[|leaves| - 1].blockNumber), outcome)
      ensures forall t :: t in view.skipped <==> if t == tree && outcome == Inserted
        then VerdictOn(JudgeOf(tree), old(Leaves(tree)) + leaves) != Accepted else t in old(view).skipped
      ensures !skipValidation ==> view.skipped <= old(view).skipped
    {
      ghost var base, target := Leaves(tree), Leaves(tree) + leaves;
      var firstRow, dataWriteGroup := PlaceLeaves(startIndex, leaves);
      FirstRowAgrees(scheme, base, leaves, firstRow);
      var group := FillHashWriteGroup(firstRow, tree, startIndex, startIndex + |leaves|, false, base, target);
      var lastLeafIndex := startIndex + |leaves| - 1;
      ShrInTree(startIndex);
      assert GroupCoversAt(group, startIndex, startIndex + |leaves|, TREE_DEPTH);
      var rootNode := group[TREE_DEPTH][0];
      var verdict := validator(tree, lastLeafIndex, rootNode);
      GroupRoot(scheme, group, base, target);
      assert verdict == VerdictOn(Judge(scheme, validator, tree), target);
      outcome := OutcomeOf(verdict, skipValidation);
      if outcome == ValidatorFailed {
        return;
      }
      if outcome == InvalidRoot {
        RejectRoot(tree, lastLeafIndex, leaves[|leaves| - 1].blockNumber);
        return;
      }
      CommitLeaves(tree, group, startIndex, leaves, dataWriteGroup);
    }

    // ---------- the write queue ----------

    ghost function QueueAt(tree: int): Queue
      reads this`writeQueue
    {
      QueueOf(writeQueue, tree)
    }

    ghost function How(skipValidation: bool): Processing {
      Processing(defaultProcessingSize, skipValidation)
    }

    ghost function JudgeOf(tree: int): Judge
      reads this`validator
    {
      Judge(scheme, validator, tree)
    }

    /** Up to `max` contiguous groups queued at the tree's end, put together. */
    method CollectGroups(q: Queue, max: nat, ghost leaves: seq<Leaf>, currentTreeLength: nat)
        returns (indices: seq<nat>, data: seq<Leaf>)
      requires WellFormed(q) && currentTreeLength == |leaves| && |leaves| in q && max >= 1
      ensures leaves + data == Batch(q, leaves, max)
      ensures |indices| > 0 && indices[0] == |leaves|
      ensures max == 1 ==> data == q[|leaves|]
      ensures forall k :: k in indices ==> k in q && k < |leaves| + |data|
      ensures forall k :: k in indices <==> IsInserted(q, leaves, leaves + data, k)
    {
      assert GroupOkAt(q, currentTreeLength);
      indices, data := [currentTreeLength], q[currentTreeLength];
      var nextIndex := currentTreeLength + |data|;
      assert leaves + data == Batch(q, leaves, 1);
      while max > |indices| && nextIndex in q
        invariant 1 <= |indices| <= max && indices[0] == |leaves|
        invariant nextIndex == |leaves| + |data| && leaves + data == Batch(q, leaves, |indices|)
        invariant max == 1 ==> data == q[|leaves|]
        invariant forall k :: k in indices ==> k in q && k < nextIndex
        invariant forall j :: 0 <= j < |indices| ==> indices[j] == |Batch(q, leaves, j)|
        decreases max - |indices|
      {
        assert GroupOkAt(q, nextIndex);
        BatchSplit(q, leaves, |indices|, 1);
        assert Batch(q, leaves + data, 1) == leaves + data + q[nextIndex];
        assert leaves + data + q[nextIndex] == leaves + (data + q[nextIndex]);
        var next := q[nextIndex];
        indices := indices + [nextIndex];
        data := data + next;
        nextIndex := nextIndex + |next|;
      }
      BatchSplit(q, leaves, |indices|, max - |indices|);
      ListedAreInserted(q, leaves, leaves + data, indices);
    }

    /** `processWriteQueue`: insert up to `max` groups as one batch, then delete them from the queue.
        A rejected batch stays queued. */
    method ProcessWriteQueue(tree: int, currentTreeLength: nat, max: nat, skipValidation: bool)
        returns (processedAny: bool, outcome: InsertOutcome)
      requires Valid() && currentTreeLength == |Leaves(tree)| && tree in writeQueue
      requires max >= 1 && (kind == TXIDNode ==> max == 1)
      modifies this`db, this`cachedNodeHashes, this`treeLengths, this`invalidMerkleroots, this`view, this`writeQueue
      ensures Valid()
      ensures BatchProcessed(JudgeOf(tree), old(QueueAt(tree)), old(Leaves(tree)), QueueAt(tree), Leaves(tree), max,
        skipValidation, processedAny, outcome)
      ensures view.forest == if processedAny then old(view).forest[tree := Leaves(tree)] else old(view).forest
      ensures SameLeavesExcept(old(view).forest, view.forest, tree)
        && SameQueuesExcept(old(writeQueue), writeQueue, tree)
      ensures !processedAny ==> writeQueue == old(writeQueue)
      ensures processedAny ==> tree in writeQueue && writeQueue == old(writeQueue)[tree := QueueAt(tree)]
      ensures SameExcept(old(invalidMerkleroots), invalidMerkleroots, tree)
      ensures MarksRejection(kind, invalidMerkleroots, tree, old(QueueAt(tree)), old(Leaves(tree)), max, outcome)
      ensures !skipValidation ==> view.skipped <= old(view).skipped
    {
      var q := writeQueue[tree];
      outcome := Inserted;
      if currentTreeLength !in q {
        return false, Inserted;
      }
      assert QueueOkAt(writeQueue, kind, tree)
        && LengthAgreesAt(treeLengths, db.metadata, invalidMerkleroots, view.forest, tree);
      var indices, data := CollectGroups(q, max, Leaves(tree), currentTreeLength);
      BatchInTree(q, Leaves(tree), max);
      outcome := InsertLeaves(tree, currentTreeLength, data, skipValidation);
      if outcome != Inserted {
        assert MarkerIsLeastAt(invalidMerkleroots, view.failing, view.forest, tree);
        return false, outcome;
      }
      RemoveGroups(tree, indices);
      ListedRemoved(q, QueueAt(tree), old(Leaves(tree)), Leaves(tree), indices);
      processedAny := true;
    }

    /** The end of `processWriteQueue`: the groups inserted leave the queue. */
    method RemoveGroups(tree: int, indices: seq<nat>)
      requires Valid() && tree in writeQueue && indices != [] && indices[0] in QueueAt(tree)
      requires forall k :: k in indices ==> k < |Leaves(tree)|
      modifies this`writeQueue
      ensures Valid() && tree in writeQueue && writeQueue == old(writeQueue)[tree := QueueAt(tree)]
      ensures SameQueuesExcept(old(writeQueue), writeQueue, tree)
      ensures |QueueAt(tree)| < |old(QueueAt(tree))| && SubQueue(QueueAt(tree), old(QueueAt(tree)))
      ensures AgreeFrom(old(QueueAt(tree)), QueueAt(tree), |Leaves(tree)|)
      ensures DeletedFrom(old(QueueAt(tree)), QueueAt(tree), indices)
    {
      var q := writeQueue[tree];
      var rest := DeleteGroups(q, indices);
      GroupsDeleted(q, rest, indices, indices[0], |Leaves(tree)|);
      QueueReplaced(writeQueue, kind, tree, rest);
      writeQueue := writeQueue[tree := rest];
    }

    /** The deletions at the end of `processWriteQueue`. */
    method DeleteGroups(q: Queue, indices: seq<nat>) returns (r: Queue)
      ensures DeletedFrom(q, r, indices)
    {
      r := q;
      assert forall k :: DeletedAt(q, r, [], k);
      for i := 0 to |indices|
        invariant DeletedFrom(q, r, indices[..i])
      {
        var rest := r - {indices[i]};
        var done := indices[..i + 1];
        forall k
          ensures DeletedAt(q, rest, done, k)
        {
          assert DeletedAt(q, r, indices[..i], k);
        }
        r := rest;
      }
      assert indices[..|indices|] == indices;
    }

    /** Drops the groups of a tree that start before its end. */
    method DropAdded(tree: int)
      requires Valid() && tree in writeQueue
      modifies this`db, this`treeLengths, this`writeQueue
      ensures Valid() && SameQueuesExcept(old(writeQueue), writeQueue, tree)
      ensures SubQueue(QueueAt(tree), old(QueueAt(tree)))
        && AgreeFrom(old(QueueAt(tree)), QueueAt(tree), |Leaves(tree)|)
      ensures Remains(old(QueueAt(tree)), Leaves(tree), QueueAt(tree), Leaves(tree))
    {
      var currentTreeLength := TreeLength(tree);
      var q := writeQueue[tree];
      var r: Queue := map k | k in q && k >= currentTreeLength :: q[k];
      assert forall k :: SubAt(r, q, k);
      assert forall k :: currentTreeLength <= k ==> AgreeAt(q, r, k);
      assert forall k :: RemainsAt(q, Leaves(tree), r, Leaves(tree), k);
      QueueReplaced(writeQueue, kind, tree, r);
      writeQueue := writeQueue[tree := r];
    }

    /** Deletes the queue of a tree that has no elements left. */
    method DropEmptyQueue(tree: int)
      requires Valid() && tree in writeQueue
      modifies this`writeQueue
      ensures Valid() && QueueAt(tree) == old(QueueAt(tree)) && SameQueuesExcept(old(writeQueue), writeQueue, tree)
      ensures tree in writeQueue <==> old(QueueAt(tree)) != map[]
    {
      if writeQueue[tree] == map[] {
        QueueDropped(writeQueue, kind, tree);
        writeQueue := writeQueue - {tree};
      }
    }

    /** One round of the loop in `processWriteQueueForTree`; the next size is smaller after an
        invalid root. */
    method ProcessRound(tree: int, currentTreeLength: nat, size: nat, skipValidation: bool, ghost q: Queue,
        ghost leaves: seq<Leaf>, ghost exact: bool) returns (goOn: bool, next: nat)
      requires Valid() && currentTreeLength == |Leaves(tree)| && tree in writeQueue && IsGroupSize(size)
        && (kind == TXIDNode ==> size == 1)
      requires WellFormed(q)
        && LoopStands(JudgeOf(tree), q, leaves, QueueAt(tree), Leaves(tree), exact, How(skipValidation), size, true)
      modifies this`db, this`cachedNodeHashes, this`treeLengths, this`invalidMerkleroots, this`view, this`writeQueue
      ensures Valid() && (kind == TXIDNode ==> next == 1)
      ensures var done := RoundOk(JudgeOf(tree), q, leaves, old(QueueAt(tree)), QueueAt(tree), Leaves(tree), exact,
          How(skipValidation), size, next, goOn, kind, invalidMerkleroots);
        done
      ensures SameExcept(old(invalidMerkleroots), invalidMerkleroots, tree)
      ensures SameLeavesExcept(old(view).forest, view.forest, tree)
        && SameQueuesExcept(old(writeQueue), writeQueue, tree)
      ensures goOn ==> tree in writeQueue
      ensures !skipValidation ==> view.skipped <= old(view).skipped
    {
      ghost var r, now := QueueAt(tree), Leaves(tree);
      var processedAny, outcome := ProcessWriteQueue(tree, currentTreeLength, size, skipValidation);
      RoundDone(JudgeOf(tree), q, leaves, r, now, QueueAt(tree), Leaves(tree), exact, How(skipValidation), size,
        processedAny, outcome, kind, invalidMerkleroots);
      var following := NextRound(size, processedAny, outcome);
      goOn, next := following != 0, if following != 0 then following else size;
    }

    /** The body of the loop: the tree's length, a round, and dropping the queue once it is empty. */
    method RunRound(tree: int, size: nat, skipValidation: bool, ghost q: Queue, ghost leaves: seq<Leaf>,
        ghost exact: bool) returns (goOn: bool, next: nat)
      requires Valid() && tree in writeQueue && IsGroupSize(size) && (kind == TXIDNode ==> size == 1)
      requires WellFormed(q)
        && LoopStands(JudgeOf(tree), q, leaves, QueueAt(tree), Leaves(tree), exact, How(skipValidation), size, true)
      modifies this`db, this`cachedNodeHashes, this`treeLengths, this`invalidMerkleroots, this`view, this`writeQueue
      ensures Valid() && (kind == TXIDNode ==> next == 1)
      ensures RoundOk(JudgeOf(tree), q, leaves, old(QueueAt(tree)), QueueAt(tree), Leaves(tree), exact,
        How(skipValidation), size, next, goOn, kind, invalidMerkleroots)
      ensures SameExcept(old(invalidMerkleroots), invalidMerkleroots, tree)
      ensures SameLeavesExcept(old(view).forest, view.forest, tree)
        && SameQueuesExcept(old(writeQueue), writeQueue, tree)
      ensures !skipValidation ==> view.skipped <= old(view).skipped
    {
      var currentTreeLength := TreeLength(tree);
      goOn, next := ProcessRound(tree, currentTreeLength, size, skipValidation, q, leaves, exact);
      if goOn {
        DropEmptyQueue(tree);
      }
    }

    /** The loop of `processWriteQueueForTree`. */
    method RunQueue(tree: int, skipValidation: bool, ghost q: Queue, ghost leaves: seq<Leaf>, ghost exact: bool)
        returns (ghost size: nat)
      requires Valid() && WellFormed(q)
      requires LoopStands(JudgeOf(tree), q, leaves, QueueAt(tree), Leaves(tree), exact, How(skipValidation),
        defaultProcessingSize, true)
      modifies this`db, this`cachedNodeHashes, this`treeLengths, this`invalidMerkleroots, this`view, this`writeQueue
      ensures Valid()
      ensures LoopStands(JudgeOf(tree), q, leaves, QueueAt(tree), Leaves(tree), exact, How(skipValidation), size, false)
      ensures SameExcept(old(invalidMerkleroots), invalidMerkleroots, tree) && Marked(tree)
      ensures SameLeavesExcept(old(view).forest, view.forest, tree)
        && SameQueuesExcept(old(writeQueue), writeQueue, tree)
      ensures !skipValidation ==> view.skipped <= old(view).skipped
    {
      var processingGroupSize, goOn := defaultProcessingSize, true;
      while goOn && tree in writeQueue
        invariant Valid() && IsGroupSize(processingGroupSize) && (kind == TXIDNode ==> processingGroupSize == 1)
        invariant SameLeavesExcept(old(view).forest, view.forest, tree)
          && SameQueuesExcept(old(writeQueue), writeQueue, tree)
        invariant LoopStands(JudgeOf(tree), q, leaves, QueueAt(tree), Leaves(tree), exact, How(skipValidation),
          processingGroupSize, goOn)
        invariant SameExcept(old(invalidMerkleroots), invalidMerkleroots, tree) && (!goOn ==> Marked(tree))
        invariant !skipValidation ==> view.skipped <= old(view).skipped
        decreases goOn, |QueueAt(tree)|, processingGroupSize
      {
        goOn, processingGroupSize := RunRound(tree, processingGroupSize, skipValidation, q, leaves, exact);
      }
      assert AgreeAt(q, QueueAt(tree), |Leaves(tree)|);
      size := processingGroupSize;
    }

    /** `processWriteQueueForTree`: batches of the default size, stepping down on an invalid root.

        It always stops at a batch boundary of the queue.  If the validator is prefix-closed and
        answers, the result is the one-by-one reference, whatever sizes were tried; and unless a
        group stays queued at the tree's end, everything contiguous was inserted. */
    method ProcessWriteQueueForTree(tree: int, skipValidation: bool)
      requires Valid()
      modifies this`db, this`cachedNodeHashes, this`treeLengths, this`invalidMerkleroots, this`view, this`writeQueue
      ensures Valid()
      ensures SameLeavesExcept(old(view).forest, view.forest, tree)
        && SameQueuesExcept(old(writeQueue), writeQueue, tree)
      ensures TreeProcessed(JudgeOf(tree), old(QueueAt(tree)), old(Leaves(tree)), QueueAt(tree), Leaves(tree),
        How(skipValidation))
      ensures SameExcept(old(invalidMerkleroots), invalidMerkleroots, tree) && Marked(tree)
      ensures !skipValidation ==> view.skipped <= old(view).skipped
    {
      assert QueueOkAt(writeQueue, kind, tree);
      ghost var q, leaves := QueueAt(tree), Leaves(tree);
      ghost var exact := !skipValidation && PrefixClosed(JudgeOf(tree), q, leaves);
      assert leaves == Batch(q, leaves, 0);
      ghost var size := defaultProcessingSize;
      if tree in writeQueue {
        DropAdded(tree);
        size := RunQueue(tree, skipValidation, q, leaves, exact);
      }
      StoppedRun(JudgeOf(tree), q, leaves, QueueAt(tree), Leaves(tree), exact, How(skipValidation), size);
    }

    /** `treeIndicesFromWriteQueue`, in ascending order. */
    method TreeIndicesFromWriteQueue() returns (trees: seq<int>)
      ensures forall t :: t in writeQueue <==> t in trees
      ensures Ascending(trees)
    {
      trees := [];
      var left: set<int> := writeQueue.Keys;
      while left != {}
        invariant left <= writeQueue.Keys && Ascending(trees)
        invariant forall t :: t in writeQueue <==> t in trees || t in left
        invariant forall t, u :: t in trees && u in left ==> t < u
        decreases left
      {
        HasLeast(left);
        var t: int :| t in left && forall u :: u in left ==> t <= u;
        AscendingMore(trees, t);
        trees, left := trees + [t], left - {t};
      }
    }

    /** One more tree: those done stay as they are. */
    method UpdateTree(tree: int, skipValidation: bool, ghost queues: map<int, Queue>, ghost forest: Forest,
        ghost done: seq<int>)
      requires Valid() && tree !in done
      requires Updated(scheme, validator, queues, forest, writeQueue, view.forest, How(skipValidation), done)
      requires forall t :: t in done ==> Marked(t)
      modifies this`db, this`cachedNodeHashes, this`treeLengths, this`invalidMerkleroots, this`view, this`writeQueue
      ensures Valid()
      ensures Updated(scheme, validator, queues, forest, writeQueue, view.forest, How(skipValidation), done + [tree])
      ensures forall t :: t in done + [tree] ==> Marked(t)
      ensures !skipValidation ==> view.skipped <= old(view).skipped
    {
      ghost var queues1, forest1, markers1 := writeQueue, view.forest, invalidMerkleroots;
      ProcessWriteQueueForTree(tree, skipValidation);
      TreeUpdated(scheme, validator, queues, forest, queues1, forest1, writeQueue, view.forest, How(skipValidation),
        done, tree);
      forall t | t in done
        ensures Marked(t)
      {
        assert MarkedAt(kind, JudgeOf(t), markers1, QueueOf(queues1, t), LeavesOf(forest1, t));
      }
    }

    /** `updateTreesFromWriteQueue`: every tree is processed, each on its own. */
    method UpdateTreesFromWriteQueue(skipValidation: bool)
      requires Valid()
      modifies this`db, this`cachedNodeHashes, this`treeLengths, this`invalidMerkleroots, this`view, this`writeQueue
      ensures Valid()
      ensures forall t :: ProcessedAt(scheme, validator, old(writeQueue), old(view).forest, writeQueue, view.forest,
        How(skipValidation), t)
      ensures forall t :: Marked(t)
      ensures !skipValidation ==> view.skipped <= old(view).skipped
    {
      ghost var queues, forest := writeQueue, view.forest;
      var trees := TreeIndicesFromWriteQueue();
      NothingUpdated(scheme, validator, queues, forest, How(skipValidation), trees);
      for i := 0 to |trees|
        invariant Valid() && Updated(scheme, validator, queues, forest, writeQueue, view.forest, How(skipValidation),
          trees[..i])
        invariant forall t :: t in trees[..i] ==> Marked(t)
        invariant !skipValidation ==> view.skipped <= old(view).skipped
      {
        UpdateTree(trees[i], skipValidation, queues, forest, trees[..i]);
        assert trees[..i + 1] == trees[..i] + [trees[i]];
      }
      assert trees[..|trees|] == trees;
      AllUpdated(scheme, validator, queues, forest, writeQueue, view.forest, How(skipValidation), trees);
      forall t
        ensures Marked(t)
      {
        assert t !in trees ==> QueueAt(t) == map[];
      }
    }

    /** A tree without a queue gets an empty one. */
    method OpenQueue(tree: int)
      requires Valid()
      modifies this`writeQueue
      ensures Valid() && tree in writeQueue
      ensures writeQueue == old(writeQueue)[tree := old(QueueAt(tree))]
    {
      if tree !in writeQueue {
        var none: Queue := map[];
        assert forall k :: SubAt(none, none, k);
        QueueReplaced(writeQueue, kind, tree, none);
        writeQueue := writeQueue[tree := none];
      }
    }

    method PutGroup(tree: int, startingIndex: nat, leaves: seq<Leaf>)
      requires Valid() && tree in writeQueue
      requires leaves != [] && startingIndex + |leaves| <= TREE_MAX_ITEMS && (kind == TXIDNode ==> |leaves| == 1)
      modifies this`writeQueue
      ensures Valid()
      ensures writeQueue == old(writeQueue)[tree := old(QueueAt(tree))[startingIndex := leaves]]
    {
      GroupQueued(writeQueue, kind, tree, startingIndex, leaves);
      var q: Queue := writeQueue[tree];
      writeQueue := writeQueue[tree := q[startingIndex := leaves]];
    }

    /** `queueLeaves`: groups behind the tree's end are ignored; a group replaces what was queued
        at its index. */
    method QueueLeaves(tree: int, startingIndex: nat, leaves: seq<Leaf>)
      requires Valid()
      requires leaves != [] && startingIndex + |leaves| <= TREE_MAX_ITEMS && (kind == TXIDNode ==> |leaves| == 1)
      modifies this`db, this`treeLengths, this`writeQueue
      ensures Valid() && SameQueuesExcept(old(writeQueue), writeQueue, tree)
      ensures QueueAt(tree) == if |Leaves(tree)| <= startingIndex then old(QueueAt(tree))[startingIndex := leaves]
        else old(QueueAt(tree))
    {
      var treeLength := TreeLength(tree);
      OpenQueue(tree);
      if treeLength <= startingIndex {
        PutGroup(tree, startingIndex, leaves);
      }
    }

    /** `latestTree`: the last tree before the first empty one, or tree 0. */
    method LatestTree() returns (latest: nat)
      requires Valid()
      modifies this`db, this`treeLengths
      ensures Valid() && IsLatestTree(view.forest, latest)
    {
      var tree: int := 0;
      var length := TreeLength(tree);
      while length > 0
        invariant Valid() && tree >= 0 && length == |Leaves(tree)|
        invariant forall t :: 0 <= t < tree ==> |LeavesOf(view.forest, t)| > 0
        decreases TreesFrom(view.forest, tree), length
      {
        assert tree in TreesFrom(view.forest, tree) && tree !in TreesFrom(view.forest, tree + 1);
        tree := tree + 1;
        length := TreeLength(tree);
      }
      latest := if tree == 0 then 0 else tree - 1;
    }

    /** `getMerkleProof` returns the proof of the abstract tree; inside a tree it verifies, beyond
        it exactly in the case `AnyProofVerifies` gives. */
    method GetMerkleProof(tree: int, index: nat) returns (proof: MerkleProof)
      requires Valid()
      modifies this`cachedNodeHashes
      ensures Valid() && proof == ProofOf(scheme, Leaves(tree), index)
      ensures index < TREE_MAX_ITEMS ==> VerifyMerkleProof(scheme, proof)
      ensures VerifyMerkleProof(scheme, proof)
         <==> Node(scheme, AsSeen(scheme, Leaves(tree), index), TREE_DEPTH, Shr(ToInt32(index), TREE_DEPTH))
              == Root(scheme, Leaves(tree))
    {
      var leaf := NodeHash(tree, 0, index);
      var elementsIndices := ElementsIndices(index);
      var elements: seq<Hash> := [];
      for level := 0 to TREE_DEPTH
        invariant Valid() && |elements| == level && AreSiblings(scheme, Leaves(tree), ToInt32(index), elements)
      {
        var element := NodeHash(tree, level, elementsIndices[level]);
        SiblingAdded(scheme, Leaves(tree), ToInt32(index), elements, element);
        elements := elements + [element];
      }
      SiblingsComplete(scheme, Leaves(tree), ToInt32(index), elements);
      var root := NodeHash(tree, TREE_DEPTH, 0);
      proof := MerkleProof(leaf, elements, index, root);
      assert LengthAgreesAt(treeLengths, db.metadata, invalidMerkleroots, view.forest, tree);
      AnyProofVerifies(scheme, Leaves(tree), index);
      if index < TREE_MAX_ITEMS {
        ProofVerifies(scheme, Leaves(tree), index);
      }
    }

    /** The sibling indices a proof fetches, each from the one below it, in 32 bits. */
    method ElementsIndices(index: nat) returns (r: seq<int>)
      ensures |r| == TREE_DEPTH && forall l :: 0 <= l < TREE_DEPTH ==> r[l] == Flip(Shr(ToInt32(index), l))
    {
      r := [Flip(ToInt32(index))];
      while |r| < TREE_DEPTH
        invariant 1 <= |r| <= TREE_DEPTH
        invariant forall l :: 0 <= l < |r| ==> r[l] == Flip(Shr(ToInt32(index), l))
        decreases TREE_DEPTH - |r|
      {
        assert Flip(Shr(ToInt32(index), |r| - 1)) / 2 == Shr(ToInt32(index), |r|);
        r := r + [Flip(r[|r| - 1] / 2)];
      }
    }

    /** `getNodeHash` as every caller of a valid forest sees it. */
    method NodeHash(tree: int, level: nat, index: int) returns (hash: Hash)
      requires Valid() && level <= TREE_DEPTH
      modifies this`cachedNodeHashes
      ensures Valid() && hash == Node(scheme, Leaves(tree), level, index)
    {
      hash := GetNodeHash(tree, level, index);
      assert NodeAgreesAt(scheme, db.nodes, view.forest, NodeKey(tree, level, index));
    }

    // ---------- clearing and rebuilding ----------

    /** `clearAllNodeHashes`: every level below the root, and the tree's whole cache. */
    method ClearAllNodeHashes(tree: int)
      requires CacheAgrees(cachedNodeHashes, db.nodes)
      modifies this`db, this`cachedNodeHashes
      ensures Cleared(old(db).nodes, db.nodes, tree, TREE_DEPTH) && db == old(db).(nodes := db.nodes)
      ensures CacheAgrees(cachedNodeHashes, db.nodes)
    {
      ghost var nodes0, cache0 := db.nodes, cachedNodeHashes;
      var nodes := db.nodes;
      assert forall key :: ClearedAt(nodes0, nodes, tree, 0, key);
      for level := 0 to TREE_DEPTH
        invariant Cleared(nodes0, nodes, tree, level)
      {
        var rest := map key | key in nodes && !(key.tree == tree && key.level == level) :: nodes[key];
        var above := level + 1;
        forall key
          ensures ClearedAt(nodes0, rest, tree, above, key)
        {
          assert ClearedAt(nodes0, nodes, tree, level, key);
        }
        nodes := rest;
      }
      var cache := map key | key in cachedNodeHashes && key.tree != tree :: cachedNodeHashes[key];
      forall key
        ensures CacheAgreesAt(cache, nodes, key)
      {
        assert ClearedAt(nodes0, nodes, tree, TREE_DEPTH, key) && CacheAgreesAt(cache0, nodes0, key);
      }
      db := db.(nodes := nodes);
      cachedNodeHashes := cache;
    }

    /** `getDataRange`: the leaves of start..end that exist, in index order. */
    method GetDataRange(tree: int, start: nat, end: int) returns (leaves: seq<Leaf>)
      requires DataAgrees(db.data, view.forest)
      ensures leaves == SliceOf(Leaves(tree), start, end + 1)
    {
      leaves := [];
      var index: int := start;
      while index <= end
        invariant start <= index && (index <= end + 1 || index == start)
        invariant leaves == SliceOf(Leaves(tree), start, index)
        decreases end - index
      {
        assert DataAgreesAt(db.data, view.forest, Position(tree, index));
        if Position(tree, index) in db.data {
          leaves := leaves + [db.data[Position(tree, index)]];
        }
        index := index + 1;
      }
    }

    /** `rebuildAndWriteTree`: rehash all the stored leaves of a tree, reading no stored node. */
    method RebuildAndWriteTree(tree: int)
      requires Settings() && CacheAgrees(cachedNodeHashes, db.nodes)
      requires DataAgrees(db.data, view.forest) && ZeroBeyond(scheme, db.nodes, tree, |Leaves(tree)|)
      modifies this`db, this`cachedNodeHashes, this`treeLengths
      ensures CacheAgrees(cachedNodeHashes, db.nodes)
      ensures forall key :: RebuiltAt(scheme, old(db).nodes, db.nodes, tree, Leaves(tree), key)
      ensures db.data == old(db).data
      ensures db.metadata == old(db).metadata[tree := TreeMetadata(|Leaves(tree)|, MarkerOf(invalidMerkleroots, tree))]
      ensures treeLengths == old(treeLengths)[tree := |Leaves(tree)|]
      ensures db.roots == RootsAfter(kind, old(db).roots, tree, |Leaves(tree)|, Root(scheme, Leaves(tree)))
    {
      ghost var nodes0, leaves := db.nodes, Leaves(tree);
      var group, treeLength := HashStoredLeaves(tree);
      RebuiltRoot(scheme, group, leaves);
      KeyedNothing(tree, db.data);
      WriteTreeToDB(tree, group, treeLength, map[]);
      AllRebuilt(scheme, nodes0, db.nodes, tree, leaves, group);
    }

    /** The reading and hashing part of `rebuildAndWriteTree`. */
    method HashStoredLeaves(tree: int) returns (group: seq<Row>, treeLength: nat)
      requires Settings() && CacheAgrees(cachedNodeHashes, db.nodes) && DataAgrees(db.data, view.forest)
      modifies this`cachedNodeHashes
      ensures CacheAgrees(cachedNodeHashes, db.nodes)
      ensures treeLength == |Leaves(tree)| && |group| == TREE_DEPTH + 1
      ensures forall i :: i in group[0] <==> 0 <= i < treeLength
      ensures GroupAgrees(scheme, group, [], Leaves(tree)) && GroupCovers(group, 0, treeLength as int - 1)
    {
      CountIsLength(db.data, view.forest, tree);
      treeLength := GetTreeLengthFromDBCount(tree);
      var leaves := GetDataRange(tree, 0, treeLength as int - 1);
      var firstRow, _ := PlaceLeaves(0, leaves);
      FirstRowAgrees(scheme, [], leaves, firstRow);
      assert [] + leaves == leaves == Leaves(tree);
      group := FillHashWriteGroup(firstRow, tree, 0, treeLength as int - 1, true, [], leaves);
    }
  }
}
