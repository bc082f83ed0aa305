/** The key layout stands for the maps of a `Merkletree`: distinct nodes and leaves have distinct
    keys, and what the store does with a namespace is what the tree does with its maps. */
module DatabaseLayout {
  import opened MerkleSpec
  import opened Merkletrees
  import Keys = DatabaseKeys

  type Path = Keys.Path

  // ---------- keys ----------

  predicate NodeFits(key: NodeKey) {
    key.tree >= 0 && key.index >= 0 && Keys.Fits(key.tree) && Keys.Fits(key.index) && key.level <= TREE_DEPTH
  }

  predicate PositionFits(p: Position) {
    p.tree >= 0 && p.index >= 0 && Keys.Fits(p.tree) && Keys.Fits(p.index)
  }

  lemma {:induction false} DepthFits(level: nat)
    requires level <= TREE_DEPTH
    ensures Keys.Fits(level) && level < Keys.FULL_32_BITS
  {
    Keys.FullFits();
  }

  lemma {:induction false} ElementsDiffer(a: nat, b: nat)
    requires Keys.Fits(a) && Keys.Fits(b)
    ensures Keys.Element(a) == Keys.Element(b) <==> a == b
  {
    Keys.HexOrdered(a, b, Keys.WIDTH);
  }

  /** Paths of three numbers behind a common root are equal, and so are their keys, exactly when the
      numbers are: as a tree's data lies at the level 2^32 - 1, this holds of nodes and data alike. */
  lemma {:induction false} KeysDistinct(root: Path, tree: nat, level: nat, index: nat, tree': nat, level': nat,
      index': nat)
    requires Keys.PathOk(root) && Keys.Fits(tree) && Keys.Fits(level) && Keys.Fits(index)
    requires Keys.Fits(tree') && Keys.Fits(level') && Keys.Fits(index')
    ensures var a, b := Keys.NodePath(root, tree, level, index), Keys.NodePath(root, tree', level', index');
      && (Keys.PathToKey(a) == Keys.PathToKey(b) <==> tree == tree' && level == level' && index == index')
      && (a == b <==> tree == tree' && level == level' && index == index')
  {
    var a, b := Keys.NodePath(root, tree, level, index), Keys.NodePath(root, tree', level', index');
    ElementsDiffer(tree, tree');
    ElementsDiffer(level, level');
    ElementsDiffer(index, index');
    NodePathOk(root, tree, level, index);
    NodePathOk(root, tree', level', index');
    Keys.KeyDetermines(a, b);
    if Keys.IsUnder(a, b) {
      var n := |root|;
      assert Keys.SameElementAt(a, b, n) && Keys.SameElementAt(a, b, n + 1) && Keys.SameElementAt(a, b, n + 2);
    }
  }

  lemma {:induction false} NodePathOk(root: Path, tree: nat, level: nat, index: nat)
    requires Keys.PathOk(root)
    ensures Keys.PathOk(Keys.NodePath(root, tree, level, index))
  {
    var path := Keys.NodePath(root, tree, level, index);
    forall i | 0 <= i < |path|
      ensures Keys.ElementOk(path[i])
    {
      assert i < |root| ==> Keys.ElementOk(root[i]);
    }
  }

  // ---------- what is stored ----------

  /** The paths under which the nodes and the leaves of a tree are stored. */
  ghost function Layout(root: Path, nodes: set<NodeKey>, data: set<Position>): set<Path> {
    NodePaths(root, nodes) + DataPaths(root, data)
  }

  ghost function NodePaths(root: Path, nodes: set<NodeKey>): set<Path> {
    set k | k in nodes && NodeFits(k) :: Keys.NodePath(root, k.tree, k.level, k.index)
  }

  ghost function DataPaths(root: Path, data: set<Position>): set<Path> {
    set p | p in data && PositionFits(p) :: Keys.DataPath(root, p.tree, p.index)
  }

  ghost predicate AllFit(nodes: set<NodeKey>, data: set<Position>) {
    (forall k :: k in nodes ==> NodeFits(k)) && forall p :: p in data ==> PositionFits(p)
  }

  /** Looking a node or a leaf up by its path is looking it up in the map. */
  lemma {:induction false} LookupsRealised(root: Path, nodes: set<NodeKey>, data: set<Position>, key: NodeKey,
      position: Position)
    requires Keys.PathOk(root) && NodeFits(key) && PositionFits(position)
    ensures Keys.NodePath(root, key.tree, key.level, key.index) in Layout(root, nodes, data) <==> key in nodes
    ensures Keys.DataPath(root, position.tree, position.index) in Layout(root, nodes, data) <==> position in data
  {
    var path := Keys.NodePath(root, key.tree, key.level, key.index);
    var full := Keys.FULL_32_BITS;
    Keys.FullFits();
    DepthFits(key.level);
    if path in Layout(root, nodes, data) {
      if path in NodePaths(root, nodes) {
        var k :| k in nodes && NodeFits(k) && Keys.NodePath(root, k.tree, k.level, k.index) == path;
        DepthFits(k.level);
        KeysDistinct(root, key.tree, key.level, key.index, k.tree, k.level, k.index);
      } else {
        var p :| p in data && PositionFits(p) && Keys.DataPath(root, p.tree, p.index) == path;
        KeysDistinct(root, key.tree, key.level, key.index, p.tree, full, p.index);
      }
    }
    var dataPath := Keys.DataPath(root, position.tree, position.index);
    if dataPath in Layout(root, nodes, data) {
      if dataPath in NodePaths(root, nodes) {
        var k :| k in nodes && NodeFits(k) && Keys.NodePath(root, k.tree, k.level, k.index) == dataPath;
        DepthFits(k.level);
        KeysDistinct(root, position.tree, full, position.index, k.tree, k.level, k.index);
      } else {
        var p :| p in data && PositionFits(p) && Keys.DataPath(root, p.tree, p.index) == dataPath;
        KeysDistinct(root, position.tree, full, position.index, p.tree, full, p.index);
      }
    }
  }

  // ---------- namespaces ----------

  /** Of what is stored exactly a tree's data lies under its data prefix. */
  lemma {:induction false} DataUnderPrefix(root: Path, nodes: set<NodeKey>, data: set<Position>, tree: nat)
    requires Keys.Fits(tree)
    ensures (set p | p in Layout(root, nodes, data) && Keys.IsUnder(Keys.DataPrefix(root, tree), p))
         == DataPaths(root, (set p | p in data && p.tree == tree))
  {
    var prefix := Keys.DataPrefix(root, tree);
    var ours := set p | p in data && p.tree == tree;
    forall path
      ensures path in Layout(root, nodes, data) && Keys.IsUnder(prefix, path) <==> path in DataPaths(root, ours)
    {
      if path in NodePaths(root, nodes) {
        var k :| k in nodes && NodeFits(k) && Keys.NodePath(root, k.tree, k.level, k.index) == path;
        DepthFits(k.level);
        Keys.LayoutSeparates(root, tree, k.tree, k.level, k.index);
      }
      if path in DataPaths(root, data) {
        var p :| p in data && PositionFits(p) && Keys.DataPath(root, p.tree, p.index) == path;
        Keys.LayoutSeparates(root, tree, p.tree, 0, p.index);
      }
    }
  }

  /** A set of positions has as many paths as positions. */
  lemma {:induction false} PathsCounted(root: Path, data: set<Position>)
    requires Keys.PathOk(root) && forall p :: p in data ==> PositionFits(p)
    ensures |DataPaths(root, data)| == |data|
  {
    if data != {} {
      var p :| p in data;
      var rest, path := data - {p}, Keys.DataPath(root, p.tree, p.index);
      PathsCounted(root, rest);
      Keys.FullFits();
      assert path !in DataPaths(root, rest) by {
        if path in DataPaths(root, rest) {
          var o :| o in rest && PositionFits(o) && Keys.DataPath(root, o.tree, o.index) == path;
          KeysDistinct(root, p.tree, Keys.FULL_32_BITS, p.index, o.tree, Keys.FULL_32_BITS, o.index);
        }
      }
      assert DataPaths(root, data) == DataPaths(root, rest) + {path};
    }
  }

  /** Counting the data prefix of a tree counts the leaves stored for it. */
  lemma {:induction false} CountRealised(root: Path, nodes: map<NodeKey, Hash>, data: map<Position, Leaf>, tree: nat)
    requires Keys.PathOk(root) && Keys.Fits(tree) && AllFit(nodes.Keys, data.Keys)
    ensures |set p | p in Layout(root, nodes.Keys, data.Keys) && Keys.IsUnder(Keys.DataPrefix(root, tree), p)|
         == DataCount(data, tree)
  {
    var ours := set p | p in data.Keys && p.tree == tree;
    DataUnderPrefix(root, nodes.Keys, data.Keys, tree);
    PathsCounted(root, ours);
    assert ours == set p | p in data && p.tree == tree;
  }

  /** `getNodeHashLevelPath` */
  function LevelPrefix(root: Path, tree: nat, level: nat): Path {
    root + [Keys.Element(tree), Keys.Element(level)]
  }

  lemma {:induction false} NodeUnderLevel(root: Path, tree: nat, level: nat, other: nat, level': nat, index: nat)
    requires Keys.Fits(tree) && Keys.Fits(level) && Keys.Fits(other) && Keys.Fits(level')
    ensures Keys.IsUnder(LevelPrefix(root, tree, level), Keys.NodePath(root, other, level', index))
       <==> tree == other && level == level'
  {
    ElementsDiffer(tree, other);
    ElementsDiffer(level, level');
    Keys.UnderPair(root, Keys.Element(tree), Keys.Element(level), Keys.Element(other), Keys.Element(level'),
      Keys.Element(index));
  }

  /** Clearing the namespace of a level deletes the tree's nodes of that level and nothing else. */
  lemma {:induction false} ClearRealised(root: Path, nodes: set<NodeKey>, data: set<Position>, tree: nat, level: nat)
    requires Keys.PathOk(root) && Keys.Fits(tree) && level <= TREE_DEPTH
    ensures (set p | p in Layout(root, nodes, data) && !Keys.IsUnder(LevelPrefix(root, tree, level), p))
         == Layout(root, (set k | k in nodes && !(k.tree == tree && k.level == level)), data)
  {
    var prefix := LevelPrefix(root, tree, level);
    var rest := set k | k in nodes && !(k.tree == tree && k.level == level);
    DepthFits(level);
    Keys.FullFits();
    forall path
      ensures path in Layout(root, nodes, data) && !Keys.IsUnder(prefix, path) <==> path in Layout(root, rest, data)
    {
      if path in NodePaths(root, nodes) {
        var k :| k in nodes && NodeFits(k) && Keys.NodePath(root, k.tree, k.level, k.index) == path;
        DepthFits(k.level);
        NodeUnderLevel(root, tree, level, k.tree, k.level, k.index);
      }
      if path in DataPaths(root, data) {
        var p :| p in data && PositionFits(p) && Keys.DataPath(root, p.tree, p.index) == path;
        NodeUnderLevel(root, tree, level, p.tree, Keys.FULL_32_BITS, p.index);
      }
      if path in NodePaths(root, rest) {
        var k :| k in rest && NodeFits(k) && Keys.NodePath(root, k.tree, k.level, k.index) == path;
        DepthFits(k.level);
        NodeUnderLevel(root, tree, level, k.tree, k.level, k.index);
      }
    }
  }

  // ---------- range reads ----------

  /** What a valid tree stores is what an exact range read asks for. */
  lemma {:induction false} LeavesRealised(root: Path, nodes: map<NodeKey, Hash>, data: map<Position, Leaf>,
      forest: Forest, tree: nat)
    requires Keys.PathOk(root) && Keys.Fits(tree) && AllFit(nodes.Keys, data.Keys) && DataAgrees(data, forest)
    ensures Keys.HoldsLeaves(Layout(root, nodes.Keys, data.Keys), root, tree, |LeavesOf(forest, tree)|)
  {
    var stored, length := Layout(root, nodes.Keys, data.Keys), |LeavesOf(forest, tree)|;
    forall path | path in stored
      ensures Keys.PathOk(path)
    {
      if path in NodePaths(root, nodes.Keys) {
        var k :| k in nodes.Keys && NodeFits(k) && Keys.NodePath(root, k.tree, k.level, k.index) == path;
        NodePathOk(root, k.tree, k.level, k.index);
      } else {
        var p :| p in data.Keys && PositionFits(p) && Keys.DataPath(root, p.tree, p.index) == path;
        NodePathOk(root, p.tree, Keys.FULL_32_BITS, p.index);
      }
    }
    forall i | 0 <= i < length
      ensures Keys.DataPath(root, tree, i) in stored
    {
      assert DataAgreesAt(data, forest, Position(tree, i)) && PositionFits(Position(tree, i));
    }
    DataUnderPrefix(root, nodes.Keys, data.Keys, tree);
    forall path | path in stored && Keys.IsUnder(Keys.DataPrefix(root, tree), path)
      ensures exists i :: 0 <= i < length && path == Keys.DataPath(root, tree, i)
    {
      assert path in DataPaths(root, (set p | p in data.Keys && p.tree == tree));
      var p :| p in data && p.tree == tree && PositionFits(p) && Keys.DataPath(root, p.tree, p.index) == path;
      assert DataAgreesAt(data, forest, p);
    }
  }
}
