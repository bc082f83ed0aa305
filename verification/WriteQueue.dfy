/** The write queue of one tree, and what processing it must achieve.

    A queue maps a starting index to the group of leaves queued there; groups may
    be missing (out-of-order delivery).  `OneByOne` is the reference: insert the
    group queued at the tree's end for as long as there is one and the validator
    accepts the resulting root.  The engine inserts many groups per validator call
    and steps down on an invalid root; the lemmas say when that comes to the same. */
module WriteQueue {
  import opened MerkleSpec

  type Queue = map<nat, seq<Leaf>>

  /** A validator answers for (tree, last leaf index, root), or its call fails. */
  datatype Verdict = Accepted | Rejected | Unavailable
  type Validator = (int, int, Hash) -> Verdict

  /** Everything a verdict depends on besides the leaves. */
  datatype Judge = Judge(scheme: Scheme, validator: Validator, tree: int)

  function VerdictOn(judge: Judge, leaves: seq<Leaf>): Verdict {
    judge.validator(judge.tree, |leaves| - 1, Root(judge.scheme, leaves))
  }

  /** Groups are non-empty and stay within their tree. */
  ghost predicate WellFormed(q: Queue) {
    forall k :: GroupOkAt(q, k)
  }

  ghost predicate GroupOkAt(q: Queue, k: nat) {
    k in q ==> |q[k]| > 0 && k + |q[k]| <= TREE_MAX_ITEMS
  }

  /** `q` and `r` hold the same groups from position `from` on. */
  ghost predicate AgreeFrom(q: Queue, r: Queue, from: nat) {
    forall k :: from <= k ==> AgreeAt(q, r, k)
  }

  ghost predicate AgreeAt(q: Queue, r: Queue, k: nat) {
    (k in q <==> k in r) && (k in q ==> q[k] == r[k])
  }

  /** `r` holds only groups of `q`. */
  ghost predicate SubQueue(r: Queue, q: Queue) {
    forall k :: SubAt(r, q, k)
  }

  ghost predicate SubAt(r: Queue, q: Queue, k: nat) {
    k in r ==> k in q && r[k] == q[k]
  }

  lemma {:induction false} SubQueueTransitive(a: Queue, b: Queue, c: Queue)
    requires SubQueue(a, b) && SubQueue(b, c)
    ensures SubQueue(a, c)
  {
    forall k
      ensures SubAt(a, c, k)
    {
      assert SubAt(a, b, k) && SubAt(b, c, k);
    }
  }

  lemma {:induction false} AgreeTransitive(a: Queue, b: Queue, c: Queue, from: nat, later: nat)
    requires from <= later && AgreeFrom(a, b, from) && AgreeFrom(b, c, later)
    ensures AgreeFrom(a, c, later)
  {
    forall k | later <= k
      ensures AgreeAt(a, c, k)
    {
      assert AgreeAt(a, b, k) && AgreeAt(b, c, k);
    }
  }

  /** The tree after at most `max` contiguous groups are added. */
  function Batch(q: Queue, leaves: seq<Leaf>, max: nat): (r: seq<Leaf>)
    ensures leaves <= r
    decreases max
  {
    if max == 0 || |leaves| !in q then leaves else Batch(q, leaves + q[|leaves|], max - 1)
  }

  /** A group that starts at `k` is one of those with which `leaves` became `now`. */
  ghost predicate IsInserted(q: Queue, leaves: seq<Leaf>, now: seq<Leaf>, k: nat) {
    k < |now| && exists n: nat :: k == |Batch(q, leaves, n)|
  }

  ghost predicate RemainsAt(q: Queue, leaves: seq<Leaf>, r: Queue, now: seq<Leaf>, k: nat) {
    k in r <==> k in q && |leaves| <= k && !IsInserted(q, leaves, now, k)
  }

  ghost predicate RemovedAt(r: Queue, now: seq<Leaf>, r': Queue, later: seq<Leaf>, k: nat) {
    k in r' <==> k in r && !IsInserted(r, now, later, k)
  }

  /** The groups with which `now` became `later` have left the queue, and no others. */
  ghost predicate Removed(r: Queue, now: seq<Leaf>, r': Queue, later: seq<Leaf>) {
    forall k :: RemovedAt(r, now, r', later, k)
  }

  /** Of the groups of `q`, exactly those are still queued that start at or behind the end `leaves`
      had and were not inserted. */
  ghost predicate Remains(q: Queue, leaves: seq<Leaf>, r: Queue, now: seq<Leaf>) {
    forall k :: RemainsAt(q, leaves, r, now, k)
  }

  lemma {:induction false} BatchMonotone(q: Queue, leaves: seq<Leaf>, m: nat, n: nat)
    requires m <= n
    ensures |Batch(q, leaves, m)| <= |Batch(q, leaves, n)|
  {
    BatchSplit(q, leaves, m, n - m);
  }

  /** What was inserted up to `later`, a batch behind `now`, was inserted up to `now` or from there on. */
  lemma {:induction false} InsertedMore(q: Queue, leaves: seq<Leaf>, n: nat, r: Queue, max: nat, k: nat)
    requires AgreeFrom(q, r, |Batch(q, leaves, n)|)
    ensures var now := Batch(q, leaves, n);
      var later := Batch(r, now, max);
      |leaves| <= k ==>
        (IsInserted(q, leaves, later, k) <==> IsInserted(q, leaves, now, k) || IsInserted(r, now, later, k))
  {
    var now := Batch(q, leaves, n);
    var later := Batch(r, now, max);
    if IsInserted(q, leaves, later, k) && !IsInserted(q, leaves, now, k) {
      var j: nat :| k == |Batch(q, leaves, j)|;
      if j < n {
        BatchMonotone(q, leaves, j, n);
        assert k == |Batch(r, now, 0)|;
      } else {
        BatchSplit(q, leaves, n, j - n);
        BatchAgrees(q, r, now, j - n);
      }
    }
    if IsInserted(r, now, later, k) {
      var j: nat :| k == |Batch(r, now, j)|;
      BatchAgrees(q, r, now, j);
      BatchSplit(q, leaves, n, j);
    }
  }

  lemma {:induction false} RemainsMore(q: Queue, leaves: seq<Leaf>, n: nat, r: Queue, max: nat, r': Queue)
    requires AgreeFrom(q, r, |Batch(q, leaves, n)|)
    requires var now := Batch(q, leaves, n);
      Remains(q, leaves, r, now) && Removed(r, now, r', Batch(r, now, max))
    ensures Remains(q, leaves, r', Batch(r, Batch(q, leaves, n), max))
  {
    var now := Batch(q, leaves, n);
    var later := Batch(r, now, max);
    forall k
      ensures RemainsAt(q, leaves, r', later, k)
    {
      assert RemainsAt(q, leaves, r, now, k) && RemovedAt(r, now, r', later, k);
      InsertedMore(q, leaves, n, r, max, k);
    }
  }

  /** The tree after every contiguous group is added. */
  ghost function Drained(q: Queue, leaves: seq<Leaf>): (r: seq<Leaf>)
    requires WellFormed(q)
    ensures leaves <= r && |r| !in q
    ensures |leaves| <= TREE_MAX_ITEMS ==> |r| <= TREE_MAX_ITEMS
    decreases TREE_MAX_ITEMS - |leaves|
  {
    assert GroupOkAt(q, |leaves|);
    if |leaves| !in q then leaves else Drained(q, leaves + q[|leaves|])
  }

  /** The tree after groups are added one at a time until one is missing or not accepted. */
  ghost function OneByOne(judge: Judge, q: Queue, leaves: seq<Leaf>): (r: seq<Leaf>)
    requires WellFormed(q)
    ensures leaves <= r
    decreases TREE_MAX_ITEMS - |leaves|
  {
    assert GroupOkAt(q, |leaves|);
    if |leaves| in q && VerdictOn(judge, leaves + q[|leaves|]) == Accepted
    then OneByOne(judge, q, leaves + q[|leaves|]) else leaves
  }

  /** No later batch boundary is accepted after an earlier one was not. */
  ghost predicate PrefixClosed(judge: Judge, q: Queue, leaves: seq<Leaf>) {
    forall m: nat :: ClosedAt(judge, q, leaves, m)
  }

  ghost predicate ClosedAt(judge: Judge, q: Queue, leaves: seq<Leaf>, m: nat) {
    1 <= m && VerdictOn(judge, Batch(q, leaves, m + 1)) == Accepted ==>
      VerdictOn(judge, Batch(q, leaves, m)) == Accepted
  }

  /** The validator answers at every batch boundary that can be asked about. */
  ghost predicate Answers(judge: Judge, q: Queue, leaves: seq<Leaf>) {
    forall m: nat :: AnswersAt(judge, q, leaves, m)
  }

  ghost predicate AnswersAt(judge: Judge, q: Queue, leaves: seq<Leaf>, m: nat) {
    |leaves| in q && 1 <= m ==> VerdictOn(judge, Batch(q, leaves, m)) != Unavailable
  }

  lemma {:induction false} BatchSplit(q: Queue, leaves: seq<Leaf>, m: nat, n: nat)
    ensures Batch(q, leaves, m + n) == Batch(q, Batch(q, leaves, m), n)
    decreases m
  {
    if m != 0 && |leaves| in q {
      BatchSplit(q, leaves + q[|leaves|], m - 1, n);
    } else if |leaves| !in q {
      assert Batch(q, leaves, m + n) == leaves;
    }
  }

  lemma {:induction false} BatchInTree(q: Queue, leaves: seq<Leaf>, m: nat)
    requires WellFormed(q) && |leaves| <= TREE_MAX_ITEMS
    ensures |Batch(q, leaves, m)| <= TREE_MAX_ITEMS
    ensures m > 0 && |leaves| in q ==> |leaves| < |Batch(q, leaves, m)|
    decreases m
  {
    assert GroupOkAt(q, |leaves|);
    if m != 0 && |leaves| in q {
      BatchInTree(q, leaves + q[|leaves|], m - 1);
    }
  }

  lemma {:induction false} FirstBoundaryAccepted(judge: Judge, q: Queue, leaves: seq<Leaf>, m: nat)
    requires PrefixClosed(judge, q, leaves) && 1 <= m
    requires VerdictOn(judge, Batch(q, leaves, m)) == Accepted
    ensures VerdictOn(judge, Batch(q, leaves, 1)) == Accepted
  {
    if m > 1 {
      assert ClosedAt(judge, q, leaves, m - 1);
      FirstBoundaryAccepted(judge, q, leaves, m - 1);
    }
  }

  lemma {:induction false} ClosedAfter(judge: Judge, q: Queue, leaves: seq<Leaf>, m: nat)
    requires PrefixClosed(judge, q, leaves)
    ensures PrefixClosed(judge, q, Batch(q, leaves, m))
  {
    var later := Batch(q, leaves, m);
    forall n: nat
      ensures ClosedAt(judge, q, later, n)
    {
      BatchSplit(q, leaves, m, n + 1);
      BatchSplit(q, leaves, m, n);
      assert ClosedAt(judge, q, leaves, m + n);
    }
  }

  /** A boundary further on, and a queue that agrees from there, raise no new questions. */
  lemma {:induction false} AnswersAfter(judge: Judge, q: Queue, leaves: seq<Leaf>, n: nat, r: Queue)
    requires Answers(judge, q, leaves) && AgreeFrom(q, r, |Batch(q, leaves, n)|)
    ensures Answers(judge, r, Batch(q, leaves, n))
  {
    var later := Batch(q, leaves, n);
    forall m: nat
      ensures AnswersAt(judge, r, later, m)
    {
      assert AgreeAt(q, r, |later|);
      BatchAgrees(q, r, later, m);
      BatchSplit(q, leaves, n, m);
      assert AnswersAt(judge, q, leaves, n + m);
    }
  }

  /** An accepted batch is a shortcut for the one-by-one insertion of its groups. */
  lemma {:induction false} BatchIsShortcut(judge: Judge, q: Queue, leaves: seq<Leaf>, m: nat)
    requires WellFormed(q) && PrefixClosed(judge, q, leaves) && 1 <= m
    requires VerdictOn(judge, Batch(q, leaves, m)) == Accepted
    ensures OneByOne(judge, q, leaves) == OneByOne(judge, q, Batch(q, leaves, m))
    decreases m
  {
    if |leaves| in q {
      FirstBoundaryAccepted(judge, q, leaves, m);
      var next := leaves + q[|leaves|];
      assert Batch(q, leaves, 1) == next;
      ClosedAfter(judge, q, leaves, 1);
      if m > 1 {
        BatchIsShortcut(judge, q, next, m - 1);
      }
    }
  }

  /** The one-by-one result is a batch boundary, and under a prefix-closed validator it is the
      longest accepted one. */
  lemma {:induction false} OneByOneIsLongest(judge: Judge, q: Queue, leaves: seq<Leaf>, m: nat)
    requires WellFormed(q) && PrefixClosed(judge, q, leaves)
    ensures OneByOne(judge, q, leaves) == leaves || VerdictOn(judge, OneByOne(judge, q, leaves)) == Accepted
    ensures exists n: nat :: OneByOne(judge, q, leaves) == Batch(q, leaves, n)
    ensures 1 <= m && VerdictOn(judge, Batch(q, leaves, m)) == Accepted
      ==> Batch(q, leaves, m) <= OneByOne(judge, q, leaves)
    decreases TREE_MAX_ITEMS - |leaves|
  {
    assert GroupOkAt(q, |leaves|);
    if |leaves| in q && VerdictOn(judge, leaves + q[|leaves|]) == Accepted {
      var next := leaves + q[|leaves|];
      assert Batch(q, leaves, 1) == next;
      ClosedAfter(judge, q, leaves, 1);
      OneByOneIsLongest(judge, q, next, if m > 0 then m - 1 else 0);
      var n: nat :| OneByOne(judge, q, next) == Batch(q, next, n);
      assert Batch(q, leaves, n + 1) == Batch(q, next, n);
    } else {
      assert Batch(q, leaves, 0) == leaves;
      if 1 <= m && VerdictOn(judge, Batch(q, leaves, m)) == Accepted {
        FirstBoundaryAccepted(judge, q, leaves, m);
      }
    }
  }

  /** Without a rejection the reference drains the queue. */
  lemma {:induction false} AcceptingDrains(judge: Judge, q: Queue, leaves: seq<Leaf>)
    requires WellFormed(q) && forall more :: VerdictOn(judge, more) == Accepted
    ensures OneByOne(judge, q, leaves) == Drained(q, leaves)
    decreases TREE_MAX_ITEMS - |leaves|
  {
    assert GroupOkAt(q, |leaves|);
    if |leaves| in q {
      AcceptingDrains(judge, q, leaves + q[|leaves|]);
    }
  }

  lemma {:induction false} BatchThenDrained(q: Queue, leaves: seq<Leaf>, m: nat)
    requires WellFormed(q)
    ensures Drained(q, Batch(q, leaves, m)) == Drained(q, leaves)
    decreases m
  {
    if m != 0 && |leaves| in q {
      BatchThenDrained(q, leaves + q[|leaves|], m - 1);
    }
  }

  // Only the groups from the tree's end on matter.

  lemma {:induction false} BatchAgrees(q: Queue, r: Queue, leaves: seq<Leaf>, m: nat)
    requires AgreeFrom(q, r, |leaves|)
    ensures Batch(q, leaves, m) == Batch(r, leaves, m)
    decreases m
  {
    assert AgreeAt(q, r, |leaves|);
    if m != 0 && |leaves| in q {
      BatchAgrees(q, r, leaves + q[|leaves|], m - 1);
    }
  }

  lemma {:induction false} DrainedAgrees(q: Queue, r: Queue, leaves: seq<Leaf>)
    requires WellFormed(q) && WellFormed(r) && AgreeFrom(q, r, |leaves|)
    ensures Drained(q, leaves) == Drained(r, leaves)
    decreases TREE_MAX_ITEMS - |leaves|
  {
    assert AgreeAt(q, r, |leaves|);
    assert GroupOkAt(q, |leaves|);
    if |leaves| in q {
      DrainedAgrees(q, r, leaves + q[|leaves|]);
    }
  }

  // ---------- delivery order ----------

  datatype TreeState = TreeState(leaves: seq<Leaf>, queue: Queue)
  datatype Event = Deliver(index: nat) | Process

  /** One `queueLeaves` call with the single commitment of a position, or one processing call
      whose roots are all accepted. */
  ghost predicate Step(commitment: nat -> Leaf, s: TreeState, e: Event, s': TreeState)
    requires WellFormed(s.queue)
  {
    match e
    case Deliver(index) =>
      s' == if |s.leaves| <= index then s.(queue := s.queue[index := [commitment(index)]]) else s
    case Process =>
      s'.leaves == Drained(s.queue, s.leaves) && AgreeFrom(s.queue, s'.queue, |s'.leaves|) && WellFormed(s'.queue)
  }

  /** A run from the empty tree: `states[i + 1]` follows `states[i]` by `events[i]`. */
  ghost predicate IsRun(commitment: nat -> Leaf, events: seq<Event>, states: seq<TreeState>) {
    && |states| == |events| + 1 && states[0] == TreeState([], map[])
    && forall i :: 0 <= i < |events| ==> InTree(events[i]) && WellFormed(states[i].queue)
                                         && Step(commitment, states[i], events[i], states[i + 1])
  }

  predicate InTree(e: Event) {
    e.Deliver? ==> e.index < TREE_MAX_ITEMS
  }

  ghost predicate Delivered(events: seq<Event>, index: nat) {
    Deliver(index) in events
  }

  /** The tree holds exactly the commitments of 0..|leaves|, all of them delivered, and what is
      queued at or beyond its end is what was delivered there. */
  ghost predicate Consistent(commitment: nat -> Leaf, events: seq<Event>, s: TreeState) {
    && (forall i :: 0 <= i < |s.leaves| ==> s.leaves[i] == commitment(i) && Delivered(events, i))
    && WellFormed(s.queue)
    && (forall k: nat :: |s.leaves| <= k ==> (k in s.queue <==> Delivered(events, k)))
    && (forall k: nat :: |s.leaves| <= k && k in s.queue ==> s.queue[k] == [commitment(k)])
  }

  lemma {:induction false} DrainKeepsConsistent(commitment: nat -> Leaf, events: seq<Event>, leaves: seq<Leaf>,
      q: Queue)
    requires Consistent(commitment, events, TreeState(leaves, q))
    ensures Consistent(commitment, events, TreeState(Drained(q, leaves), q))
    decreases TREE_MAX_ITEMS - |leaves|
  {
    assert GroupOkAt(q, |leaves|);
    if |leaves| in q {
      DrainKeepsConsistent(commitment, events, leaves + q[|leaves|], q);
    }
  }

  lemma {:induction false} BatchKeepsConsistent(commitment: nat -> Leaf, events: seq<Event>, leaves: seq<Leaf>,
      q: Queue, max: nat)
    requires Consistent(commitment, events, TreeState(leaves, q))
    ensures Consistent(commitment, events, TreeState(Batch(q, leaves, max), q))
    decreases max
  {
    assert GroupOkAt(q, |leaves|);
    if max != 0 && |leaves| in q {
      BatchKeepsConsistent(commitment, events, leaves + q[|leaves|], q, max - 1);
    }
  }

  lemma {:induction false} RunIsConsistent(commitment: nat -> Leaf, events: seq<Event>, states: seq<TreeState>)
    requires IsRun(commitment, events, states)
    ensures Consistent(commitment, events, states[|events|])
  {
    if events != [] {
      var n := |events| - 1;
      var before := events[..n];
      assert forall i :: 0 <= i < n ==> before[i] == events[i];
      RunIsConsistent(commitment, before, states[..n + 1]);
      assert forall k: nat :: Delivered(events, k) <==> Delivered(before, k) || events[n] == Deliver(k) by {
        assert events == before + [events[n]];
      }
      var s, s' := states[n], states[n + 1];
      match events[n] {
        case Process =>
          DrainKeepsConsistent(commitment, before, s.leaves, s.queue);
          ConsistentAgrees(commitment, before, TreeState(s'.leaves, s.queue), s'.queue);
        case Deliver(index) =>
          forall k
            ensures GroupOkAt(s'.queue, k)
          {
            assert GroupOkAt(s.queue, k);
          }
      }
    }
  }

  lemma {:induction false} ConsistentAgrees(commitment: nat -> Leaf, events: seq<Event>, s: TreeState, r: Queue)
    requires Consistent(commitment, events, s) && AgreeFrom(s.queue, r, |s.leaves|) && WellFormed(r)
    ensures Consistent(commitment, events, TreeState(s.leaves, r))
  {
    forall k | |s.leaves| <= k
      ensures (k in r <==> Delivered(events, k)) && (k in r ==> r[k] == [commitment(k)])
    {
      assert AgreeAt(s.queue, r, k);
    }
  }

  /** Confluence: whatever the order, repetition and interleaving of deliveries and processing,
      once the last event is a processing call the tree holds exactly the delivered commitments
      below the first position never delivered; in particular a gap lets nothing beyond it in,
      and two runs that delivered the same positions end with the same tree. */
  lemma {:induction false} DeliveryOrderIrrelevant(commitment: nat -> Leaf, events: seq<Event>, states: seq<TreeState>,
      gap: nat)
    requires IsRun(commitment, events, states) && events != [] && events[|events| - 1].Process?
    requires !Delivered(events, gap) && forall i: nat :: i < gap ==> Delivered(events, i)
    ensures states[|events|].leaves == seq(gap, i requires 0 <= i < gap => commitment(i))
  {
    RunIsConsistent(commitment, events, states);
    var s := states[|events|];
    var n := |events| - 1;
    assert Step(commitment, states[n], events[n], states[n + 1]);
    assert AgreeAt(states[n].queue, s.queue, |s.leaves|);
    assert |s.leaves| !in s.queue;
  }
}
