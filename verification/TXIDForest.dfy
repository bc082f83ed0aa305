/** Global positions: how the TXID trees, one after the other, spell one sequence of leaves. */
module TXIDForest {
  import opened Wrappers
  import opened MerkleSpec
  import opened WriteQueue
  import opened Merkletrees

  datatype TreeAndIndex = TreeAndIndex(tree: int, index: int)

  function GetGlobalPosition(tree: int, index: int): int {
    tree * TREE_MAX_ITEMS + index
  }

  /** `Math.floor` of the quotient, and JavaScript's remainder, which takes the dividend's sign. */
  function GetTreeAndIndexFromGlobalPosition(position: int): TreeAndIndex {
    TreeAndIndex(position / TREE_MAX_ITEMS, if position >= 0 then position % TREE_MAX_ITEMS
      else -((-position) % TREE_MAX_ITEMS))
  }

  function NextTreeAndIndex(tree: int, index: int): (r: TreeAndIndex)
    ensures index < TREE_MAX_ITEMS ==> GetGlobalPosition(r.tree, r.index) == GetGlobalPosition(tree, index) + 1
    ensures -1 <= index < TREE_MAX_ITEMS ==> 0 <= r.index < TREE_MAX_ITEMS
  {
    if index + 1 >= TREE_MAX_ITEMS then TreeAndIndex(tree + 1, 0) else TreeAndIndex(tree, index + 1)
  }

  function IsOutOfBounds(tree: int, index: int, maxTxidIndex: Option<int>): bool {
    maxTxidIndex.Some? && GetGlobalPosition(tree, index) > maxTxidIndex.value
  }

  /** How many of `count` transactions may be placed behind `length` ones. */
  function AllowedCount(length: nat, count: nat, maxTxidIndex: Option<int>): (r: nat)
    ensures r <= count
  {
    if maxTxidIndex.None? || maxTxidIndex.value >= length + count - 1 then count
    else if maxTxidIndex.value < length then 0 else maxTxidIndex.value + 1 - length
  }

  /** Those whose position is not beyond `maxTxidIndex`, the one at `maxTxidIndex` included. */
  lemma {:induction false} AllowedIff(length: nat, count: nat, maxTxidIndex: Option<int>, i: nat)
    requires i < count
    ensures i < AllowedCount(length, count, maxTxidIndex) <==> maxTxidIndex.None? || length + i <= maxTxidIndex.value
  {
  }

  /** The part of a flat sequence that tree `tree` holds. */
  function TreeSlice(all: seq<Leaf>, tree: int): (r: seq<Leaf>)
    ensures |r| <= TREE_MAX_ITEMS
  {
    if tree < 0 || |all| <= tree * TREE_MAX_ITEMS then []
    else if |all| <= (tree + 1) * TREE_MAX_ITEMS then all[tree * TREE_MAX_ITEMS..]
    else all[tree * TREE_MAX_ITEMS..(tree + 1) * TREE_MAX_ITEMS]
  }

  /** No tree of the forest lost or changed a leaf. */
  ghost predicate Extends(f: Forest, g: Forest) {
    forall t :: LeavesOf(f, t) <= LeavesOf(g, t)
  }

  ghost predicate PackedAt(forest: Forest, all: seq<Leaf>, tree: int) {
    LeavesOf(forest, tree) == TreeSlice(all, tree)
  }

  /** The forest spells `all`: every tree before the last is full. */
  ghost predicate Packed(forest: Forest, all: seq<Leaf>) {
    forall t :: PackedAt(forest, all, t)
  }

  /** The latest tree's last leaf is the last of the sequence. */
  lemma {:induction false} LatestIsEnd(forest: Forest, all: seq<Leaf>, latest: nat)
    requires Packed(forest, all) && IsLatestTree(forest, latest)
    ensures GetGlobalPosition(latest, |LeavesOf(forest, latest)| - 1) == |all| - 1
  {
    assert PackedAt(forest, all, latest) && PackedAt(forest, all, latest + 1);
  }

  /** A group that starts right behind the sequence and stays in one tree extends that tree only. */
  lemma {:induction false} SliceAppended(all: seq<Leaf>, group: seq<Leaf>, tree: int, start: nat, other: int)
    requires GetGlobalPosition(tree, start) == |all| && group != [] && start + |group| <= TREE_MAX_ITEMS && tree >= 0
    ensures |TreeSlice(all, tree)| == start
    ensures TreeSlice(all + group, other) == if other == tree then TreeSlice(all, tree) + group
      else TreeSlice(all, other)
  {
  }

  // ---------- queued but not yet inserted ----------

  ghost predicate PendingAt(queues: map<int, Queue>, forest: Forest, all: seq<Leaf>, tree: int) {
    var q := QueueOf(queues, tree);
    && WellFormed(q) && Drained(q, LeavesOf(forest, tree)) == TreeSlice(all, tree)
    && forall k :: k in q ==> k < |TreeSlice(all, tree)|
  }

  /** With what is queued inserted, the forest would spell `all`, and nothing more is queued. */
  ghost predicate Pending(queues: map<int, Queue>, forest: Forest, all: seq<Leaf>) {
    forall t :: PendingAt(queues, forest, all, t)
  }

  ghost predicate QuietAt(queues: map<int, Queue>, forest: Forest, tree: int) {
    forall k :: k in QueueOf(queues, tree) ==> k < |LeavesOf(forest, tree)|
  }

  /** Nothing is queued at or beyond the end of any tree. */
  ghost predicate Quiet(queues: map<int, Queue>, forest: Forest) {
    forall t :: QuietAt(queues, forest, t)
  }

  lemma {:induction false} QuietIsPending(queues: map<int, Queue>, kind: Kind, forest: Forest, all: seq<Leaf>)
    requires Packed(forest, all) && Quiet(queues, forest) && QueuesOk(queues, kind)
    ensures Pending(queues, forest, all)
  {
    forall t
      ensures PendingAt(queues, forest, all, t)
    {
      assert PackedAt(forest, all, t) && QuietAt(queues, forest, t) && QueueOkAt(queues, kind, t);
    }
  }

  lemma {:induction false} DrainedExtended(q: Queue, leaves: seq<Leaf>, group: seq<Leaf>, end: nat)
    requires WellFormed(q) && end == |Drained(q, leaves)| && (forall k :: k in q ==> k < end)
    requires group != [] && end + |group| <= TREE_MAX_ITEMS && WellFormed(q[end := group])
    ensures Drained(q[end := group], leaves) == Drained(q, leaves) + group
    decreases TREE_MAX_ITEMS - |leaves|
  {
    var q' := q[end := group];
    assert GroupOkAt(q, |leaves|);
    if |leaves| in q {
      DrainedExtended(q, leaves + q[|leaves|], group, end);
    } else {
      assert |leaves + group| !in q';
      assert Drained(q', leaves + group) == leaves + group;
    }
  }

  /** Queueing the next group extends what is pending by that group. */
  lemma {:induction false} GroupPends(queues: map<int, Queue>, queues': map<int, Queue>, forest: Forest,
      all: seq<Leaf>, group: seq<Leaf>, tree: int, start: nat)
    requires Pending(queues, forest, all)
    requires GetGlobalPosition(tree, start) == |all| && group != [] && start + |group| <= TREE_MAX_ITEMS && tree >= 0
    requires SameQueuesExcept(queues, queues', tree) && QueueOf(queues', tree) == QueueOf(queues, tree)[start := group]
    ensures Pending(queues', forest, all + group)
  {
    forall t
      ensures PendingAt(queues', forest, all + group, t)
    {
      assert PendingAt(queues, forest, all, t);
      SliceAppended(all, group, tree, start, t);
      if t == tree {
        var q := QueueOf(queues, tree);
        var q' := q[start := group];
        forall k
          ensures GroupOkAt(q', k)
        {
          assert GroupOkAt(q, k);
        }
        DrainedExtended(q, LeavesOf(forest, tree), group, start);
      }
    }
  }

  /** Where the group goes the tree has not grown past. */
  lemma {:induction false} PendingStart(queues: map<int, Queue>, forest: Forest, all: seq<Leaf>, tree: int, start: nat)
    requires Pending(queues, forest, all) && GetGlobalPosition(tree, start) == |all| && start < TREE_MAX_ITEMS
      && tree >= 0
    ensures |LeavesOf(forest, tree)| <= start
  {
    assert PendingAt(queues, forest, all, tree);
  }

  /** Processing, whatever the validator says, keeps what is pending; once no group waits at the
      end of a tree, the forest spells it. */
  lemma {:induction false} ProcessedPends(s: Scheme, validator: Validator, queues: map<int, Queue>, forest: Forest,
      queues': map<int, Queue>, forest': Forest, how: Processing, all: seq<Leaf>)
    requires Pending(queues, forest, all)
    requires forall t :: ProcessedAt(s, validator, queues, forest, queues', forest', how, t)
                         && WellFormed(QueueOf(queues', t))
    ensures Pending(queues', forest', all)
    ensures NoneWaits(queues', forest') ==> Packed(forest', all) && Quiet(queues', forest')
  {
    forall t
      ensures PendingAt(queues', forest', all, t)
      ensures |LeavesOf(forest', t)| !in QueueOf(queues', t)
        ==> PackedAt(forest', all, t) && QuietAt(queues', forest', t)
    {
      var q, r := QueueOf(queues, t), QueueOf(queues', t);
      assert PendingAt(queues, forest, all, t)
        && ProcessedAt(s, validator, queues, forest, queues', forest', how, t);
      DrainedAgrees(q, r, LeavesOf(forest', t));
      forall k | k in r
        ensures k < |TreeSlice(all, t)|
      {
        assert SubAt(r, q, k);
      }
    }
    if NoneWaits(queues', forest') {
      forall t
        ensures PackedAt(forest', all, t) && QuietAt(queues', forest', t)
      {
        assert NoneWaitsAt(queues', forest', t);
      }
    }
  }

  ghost predicate NoneWaitsAt(queues: map<int, Queue>, forest: Forest, tree: int) {
    |LeavesOf(forest, tree)| !in QueueOf(queues, tree)
  }

  ghost predicate NoneWaits(queues: map<int, Queue>, forest: Forest) {
    forall t :: NoneWaitsAt(queues, forest, t)
  }

  // ---------- validators that accept what is placed ----------

  ghost predicate PassesAt(s: Scheme, validator: Validator, all: seq<Leaf>, tree: int, n: nat) {
    var slice := TreeSlice(all, tree);
    1 <= n <= |slice| ==> VerdictOn(Judge(s, validator, tree), slice[..n]) == Accepted
  }

  /** The validator accepts the root that each tree has on the way to spelling `all`. */
  ghost predicate AcceptsSpelling(s: Scheme, validator: Validator, all: seq<Leaf>) {
    forall t, n: nat :: PassesAt(s, validator, all, t, n)
  }

  /** What accepts a sequence accepts its prefixes. */
  lemma {:induction false} SpellingShrinks(s: Scheme, validator: Validator, all: seq<Leaf>, prefix: seq<Leaf>)
    requires AcceptsSpelling(s, validator, all) && prefix <= all
    ensures AcceptsSpelling(s, validator, prefix)
  {
    forall t, n: nat
      ensures PassesAt(s, validator, prefix, t, n)
    {
      assert PassesAt(s, validator, all, t, n);
      var slice, longer := TreeSlice(prefix, t), TreeSlice(all, t);
      assert slice <= longer;
      assert n <= |slice| ==> slice[..n] == longer[..n];
    }
  }

  /** Then processing what is pending leaves no group waiting. */
  lemma {:induction false} AcceptedNoneWaits(s: Scheme, validator: Validator, queues: map<int, Queue>, forest: Forest,
      queues': map<int, Queue>, forest': Forest, how: Processing, all: seq<Leaf>)
    requires Pending(queues, forest, all) && AcceptsSpelling(s, validator, all)
    requires forall t :: ProcessedAt(s, validator, queues, forest, queues', forest', how, t)
                         && WellFormed(QueueOf(queues', t))
    ensures NoneWaits(queues', forest')
  {
    ProcessedPends(s, validator, queues, forest, queues', forest', how, all);
    forall t
      ensures NoneWaitsAt(queues', forest', t)
    {
      assert ProcessedAt(s, validator, queues, forest, queues', forest', how, t);
      assert PendingAt(queues', forest', all, t);
      BoundariesPass(s, validator, QueueOf(queues', t), LeavesOf(forest', t), all, t);
    }
  }

  /** Every boundary of a pending queue is a prefix of what its tree will hold. */
  lemma {:induction false} BoundariesPass(s: Scheme, validator: Validator, q: Queue, leaves: seq<Leaf>, all: seq<Leaf>,
      tree: int)
    requires WellFormed(q) && Drained(q, leaves) == TreeSlice(all, tree) && AcceptsSpelling(s, validator, all)
    ensures Answers(Judge(s, validator, tree), q, leaves)
    ensures |leaves| in q ==> VerdictOn(Judge(s, validator, tree), leaves + q[|leaves|]) == Accepted
  {
    var slice := TreeSlice(all, tree);
    forall m: nat
      ensures AnswersAt(Judge(s, validator, tree), q, leaves, m)
      ensures |leaves| in q && 1 <= m ==> VerdictOn(Judge(s, validator, tree), Batch(q, leaves, m)) == Accepted
    {
      BatchThenDrained(q, leaves, m);
      BatchInTree(q, leaves, m);
      assert Batch(q, leaves, m) == slice[..|Batch(q, leaves, m)|];
      assert PassesAt(s, validator, all, tree, |Batch(q, leaves, m)|);
    }
    assert |leaves| in q ==> Batch(q, leaves, 1) == leaves + q[|leaves|];
  }

  // ---------- truncation ----------

  /** The forest with trees first..last cut: the first one to `keep` leaves, the others to none. */
  ghost function CutForest(forest: Forest, first: int, last: int, keep: int): Forest {
    map t | t in forest :: CutLeaves(forest[t], t, first, last, keep)
  }

  function CutLeaves(leaves: seq<Leaf>, tree: int, first: int, last: int, keep: int): seq<Leaf> {
    if first <= tree <= last then
      if tree > first || keep <= 0 then [] else if keep >= |leaves| then leaves else leaves[..keep]
    else leaves
  }

  /** One tree's part of the first k + 1 leaves. */
  lemma {:induction false} SliceCut(all: seq<Leaf>, k: int, latest: nat, tree: int)
    requires k >= -1 && |all| <= (latest + 1) * TREE_MAX_ITEMS
    ensures var at := GetTreeAndIndexFromGlobalPosition(k);
      TreeSlice(if k + 1 >= |all| then all
        else all[..k + 1], tree) == CutLeaves(TreeSlice(all, tree), tree, at.tree, latest, at.index + 1)
  {
    var at := GetTreeAndIndexFromGlobalPosition(k);
    var kept := if k + 1 >= |all| then all else all[..k + 1];
    var start := tree * TREE_MAX_ITEMS;
    assert k == GetGlobalPosition(at.tree, at.index) || k == -1;
    if tree < at.tree {
      assert start + TREE_MAX_ITEMS <= at.tree * TREE_MAX_ITEMS <= k;
      assert TreeSlice(kept, tree) == TreeSlice(all, tree);
    } else if tree == at.tree {
      assert k == -1 || start <= k < start + TREE_MAX_ITEMS;
    } else {
      assert k + 1 <= start;
      assert TreeSlice(kept, tree) == [];
    }
  }

  /** Cutting the trees from that of position `k` to the latest leaves the first k + 1 leaves. */
  lemma {:induction false} CutIsPrefix(forest: Forest, all: seq<Leaf>, latest: nat, k: int)
    requires Packed(forest, all) && IsLatestTree(forest, latest) && k >= -1
    ensures var at := GetTreeAndIndexFromGlobalPosition(k);
      Packed(CutForest(forest, at.tree, latest, at.index + 1), if k + 1 >= |all| then all else all[..k + 1])
  {
    var at := GetTreeAndIndexFromGlobalPosition(k);
    var cut, kept := CutForest(forest, at.tree, latest, at.index + 1), if k + 1 >= |all| then all else all[..k + 1];
    LatestIsEnd(forest, all, latest);
    assert PackedAt(forest, all, latest);
    forall t
      ensures PackedAt(cut, kept, t)
    {
      assert PackedAt(forest, all, t);
      assert LeavesOf(cut, t) == CutLeaves(LeavesOf(forest, t), t, at.tree, latest, at.index + 1);
      SliceCut(all, k, latest, t);
    }
  }
}
