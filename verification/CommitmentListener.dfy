/** Commitments as they arrive from the chain: normalising their position, queueing each on its
    own, and why the order of arrival does not matter. */
module CommitmentListener {
  import opened MerkleSpec
  import opened WriteQueue
  import opened Merkletrees
  import opened TXIDForest

  datatype Commitment = Commitment(utxoTree: nat, utxoIndex: nat, leaf: Leaf)

  datatype CommitmentEvent = CommitmentEvent(commitments: seq<Commitment>)

  /** `utxoIndex % 2 ** 16` and `utxoTree + (utxoIndex >> 16)` */
  function Normalized(c: Commitment): TreeAndIndex {
    TreeAndIndex(c.utxoTree + ToInt32(c.utxoIndex) / TREE_MAX_ITEMS, c.utxoIndex % TREE_MAX_ITEMS)
  }

  /** Normalising moves the position into its tree without changing it globally, exactly for
      indices that fit 31 bits. */
  lemma {:induction false} NormalizedKeepsPosition(c: Commitment)
    ensures 0 <= Normalized(c).index < TREE_MAX_ITEMS
    ensures GetGlobalPosition(Normalized(c).tree, Normalized(c).index) == GetGlobalPosition(c.utxoTree, c.utxoIndex)
       <==> c.utxoIndex < 0x8000_0000
  {
  }

  // ---------- runs of one tree ----------

  /** The tree can be in state `s` after the events. */
  ghost predicate Reaches(commitment: nat -> Leaf, events: seq<Event>, s: TreeState) {
    exists states :: IsRun(commitment, events, states) && states[|events|] == s
  }

  lemma {:induction false} ReachesStart(commitment: nat -> Leaf)
    ensures Reaches(commitment, [], TreeState([], map[]))
  {
    assert IsRun(commitment, [], [TreeState([], map[])]);
  }

  lemma {:induction false} ReachesMore(commitment: nat -> Leaf, events: seq<Event>, s: TreeState, e: Event,
      s': TreeState)
    requires Reaches(commitment, events, s) && InTree(e) && WellFormed(s.queue) && Step(commitment, s, e, s')
    ensures Reaches(commitment, events + [e], s')
  {
    var states :| IsRun(commitment, events, states) && states[|events|] == s;
    var events', states' := events + [e], states + [s'];
    forall i | 0 <= i < |events'|
      ensures InTree(events'[i]) && WellFormed(states'[i].queue)
        && Step(commitment, states'[i], events'[i], states'[i + 1])
    {
      if i < |events| {
        assert events'[i] == events[i] && states'[i] == states[i] && states'[i + 1] == states[i + 1];
      }
    }
    assert IsRun(commitment, events', states');
  }

  // ---------- the roots a run asks about ----------

  /** The first position from `from` on that was not delivered. */
  ghost function GapFrom(log: seq<Event>, from: nat): nat
    decreases TREE_MAX_ITEMS - from
  {
    if from < TREE_MAX_ITEMS && Delivered(log, from) then GapFrom(log, from + 1) else from
  }

  /** How many leaves a tree holds that follows the log. */
  ghost function Held(log: seq<Event>): nat {
    if log == [] then 0
    else if log[|log| - 1].Process? then GapFrom(log, 0)
    else Held(log[..|log| - 1])
  }

  lemma {:induction false} GapIsFirst(log: seq<Event>, from: nat)
    requires from <= TREE_MAX_ITEMS && forall e :: e in log ==> InTree(e)
    requires forall i: nat :: i < from ==> Delivered(log, i)
    ensures !Delivered(log, GapFrom(log, from)) && forall i: nat :: i < GapFrom(log, from) ==> Delivered(log, i)
    decreases TREE_MAX_ITEMS - from
  {
    if Delivered(log, from) {
      assert InTree(Deliver(from));
      GapIsFirst(log, from + 1);
    }
  }

  lemma {:induction false} RunBegins(commitment: nat -> Leaf, events: seq<Event>, states: seq<TreeState>, n: nat)
    requires IsRun(commitment, events, states) && n <= |events|
    ensures IsRun(commitment, events[..n], states[..n + 1]) && forall e :: e in events ==> InTree(e)
  {
    var before, states' := events[..n], states[..n + 1];
    forall i | 0 <= i < n
      ensures InTree(before[i]) && WellFormed(states'[i].queue)
        && Step(commitment, states'[i], before[i], states'[i + 1])
    {
      assert before[i] == events[i] && states'[i] == states[i] && states'[i + 1] == states[i + 1];
    }
  }

  lemma {:induction false} HeldIsLength(commitment: nat -> Leaf, events: seq<Event>, states: seq<TreeState>)
    requires IsRun(commitment, events, states)
    ensures |states[|events|].leaves| == Held(events)
  {
    if events != [] {
      var n := |events| - 1;
      RunBegins(commitment, events, states, n);
      if events[n].Process? {
        GapIsFirst(events, 0);
        DeliveryOrderIrrelevant(commitment, events, states, GapFrom(events, 0));
      } else {
        HeldIsLength(commitment, events[..n], states[..n + 1]);
        assert states[..n + 1][n] == states[n] && Step(commitment, states[n], events[n], states[n + 1]);
      }
    }
  }

  /** `n` is a multiple of `size`. */
  predicate WholeBatches(n: nat, size: nat) {
    n == 0 || (0 < size <= n && WholeBatches(n - size, size))
  }

  /** The numbers of leaves at which a processing call may ask for the root: full batches from what
      the tree holds, and everything up to the first gap. */
  ghost predicate IsAsked(log: seq<Event>, size: nat, n: nat) {
    && Held(log) < n && (forall i: nat :: i < n ==> Delivered(log, i))
    && (WholeBatches(n - Held(log), size) || !Delivered(log, n))
  }

  /** The roots asked for, which are those of delivered commitments, get through: the validator
      accepts them, or it answers and validation is skipped. */
  ghost predicate RootsPass(judge: Judge, commitment: nat -> Leaf, log: seq<Event>, how: Processing) {
    forall n: nat :: RootPassesAt(judge, commitment, log, how, n)
  }

  ghost predicate RootPassesAt(judge: Judge, commitment: nat -> Leaf, log: seq<Event>, how: Processing, n: nat) {
    var leaves := seq(n, i requires 0 <= i < n => commitment(i));
    IsAsked(log, how.size, n) ==> OutcomeOf(VerdictOn(judge, leaves), how.skipValidation) == Inserted
  }

  /** In a consistent state every group is a single commitment. */
  lemma {:induction false} BatchCounts(commitment: nat -> Leaf, log: seq<Event>, leaves: seq<Leaf>, q: Queue, m: nat)
    requires Consistent(commitment, log, TreeState(leaves, q))
    ensures |Batch(q, leaves, m)| == |leaves| + m || |Batch(q, leaves, m)| !in q
    decreases m
  {
    if m != 0 && |leaves| in q {
      var next := leaves + q[|leaves|];
      assert Batch(q, leaves, 1) == next;
      BatchKeepsConsistent(commitment, log, leaves, q, 1);
      BatchCounts(commitment, log, next, q, m - 1);
    }
  }

  /** Where a call stands after some full batches. */
  ghost predicate InStride(commitment: nat -> Leaf, log: seq<Event>, now: seq<Leaf>, q: Queue, size: nat) {
    && Consistent(commitment, log, TreeState(now, q)) && Held(log) <= |now|
    && (|now| in q ==> WholeBatches(|now| - Held(log), size))
  }

  lemma {:induction false} NextAsked(commitment: nat -> Leaf, log: seq<Event>, now: seq<Leaf>, q: Queue, size: nat)
    requires InStride(commitment, log, now, q, size) && size > 0
    ensures InStride(commitment, log, Batch(q, now, size), q, size)
    ensures |now| in q ==> IsAsked(log, size, |Batch(q, now, size)|)
  {
    BatchKeepsConsistent(commitment, log, now, q, size);
    BatchCounts(commitment, log, now, q, size);
    if |now| in q {
      BatchGrows(q, now, size);
    }
  }

  /** The root of the next full batch is one asked for. */
  lemma {:induction false} NextPasses(judge: Judge, commitment: nat -> Leaf, log: seq<Event>, now: seq<Leaf>,
      q: Queue, how: Processing)
    requires InStride(commitment, log, now, q, how.size) && RootsPass(judge, commitment, log, how) && how.size > 0
    ensures StridePassesAt(judge, q, now, how, 0)
  {
    if |now| in q {
      var next := Batch(q, now, how.size);
      NextAsked(commitment, log, now, q, how.size);
      assert next == seq(|next|, i requires 0 <= i < |next| => commitment(i));
      assert RootPassesAt(judge, commitment, log, how, |next|);
    }
  }

  lemma {:induction false} StrideAsked(judge: Judge, commitment: nat -> Leaf, log: seq<Event>, now: seq<Leaf>,
      q: Queue, how: Processing, k: nat)
    requires InStride(commitment, log, now, q, how.size) && RootsPass(judge, commitment, log, how) && how.size > 0
    ensures StridePassesAt(judge, q, now, how, k)
    decreases k
  {
    if k == 0 {
      NextPasses(judge, commitment, log, now, q, how);
    } else {
      NextAsked(commitment, log, now, q, how.size);
      StrideAsked(judge, commitment, log, Batch(q, now, how.size), q, how, k - 1);
    }
  }

  lemma {:induction false} BatchGrows(q: Queue, leaves: seq<Leaf>, m: nat)
    requires WellFormed(q) && |leaves| in q && m > 0
    ensures |leaves| < |Batch(q, leaves, m)|
  {
    assert GroupOkAt(q, |leaves|);
  }

  /** A processing call whose roots get through is a `Process` step, whatever the validator says of
      roots not asked for. */
  lemma {:induction false} ProcessedIsStep(commitment: nat -> Leaf, log: seq<Event>, judge: Judge, q: Queue,
      leaves: seq<Leaf>, r: Queue, now: seq<Leaf>, how: Processing)
    requires Consistent(commitment, log, TreeState(leaves, q)) && |leaves| == Held(log) && how.size > 0
    requires TreeProcessed(judge, q, leaves, r, now, how) && RootsPass(judge, commitment, log, how)
    ensures Step(commitment, TreeState(leaves, q), Process, TreeState(now, r))
  {
    forall k: nat
      ensures StridePassesAt(judge, q, leaves, how, k)
    {
      StrideAsked(judge, commitment, log, leaves, q, how, k);
    }
    SubQueueOk(r, q);
  }

  lemma {:induction false} ReachesConsistent(commitment: nat -> Leaf, events: seq<Event>, s: TreeState)
    requires Reaches(commitment, events, s)
    ensures Consistent(commitment, events, s) && |s.leaves| == Held(events)
  {
    var states :| IsRun(commitment, events, states) && states[|events|] == s;
    RunIsConsistent(commitment, events, states);
    HeldIsLength(commitment, events, states);
  }

  /** What the commitments amount to for one tree. */
  function EventsOf(commitments: seq<Commitment>, tree: int): seq<Event> {
    if commitments == [] then []
    else
      var at := Normalized(commitments[|commitments| - 1]);
      var before := EventsOf(commitments[..|commitments| - 1], tree);
      if at.tree == tree then before + [Deliver(at.index)] else before
  }

  function DeliveredBy(events: seq<CommitmentEvent>, tree: int): seq<Event> {
    if events == [] then []
    else DeliveredBy(events[..|events| - 1], tree) + EventsOf(events[|events| - 1].commitments, tree)
  }

  /** The log of a tree after a call of the listener; a call without events does nothing. */
  function LogAfter(log: seq<Event>, events: seq<CommitmentEvent>, tree: int, shouldUpdateTrees: bool): seq<Event> {
    if events == [] then log
    else if shouldUpdateTrees then log + DeliveredBy(events, tree) + [Process]
    else log + DeliveredBy(events, tree)
  }

  ghost predicate Brings(events: seq<CommitmentEvent>, tree: int, index: nat) {
    exists e, c :: e in events && c in e.commitments && Normalized(c) == TreeAndIndex(tree, index)
  }

  /** What a call adds to the log of a tree: exactly the commitments it brings for that tree are
      delivered, and a call that brings events processes, as its last step, exactly if asked. */
  lemma {:induction false} LogAfterIs(log: seq<Event>, events: seq<CommitmentEvent>, tree: int, shouldUpdateTrees: bool,
      index: nat)
    ensures var after := LogAfter(log, events, tree, shouldUpdateTrees);
      && log <= after
      && (Delivered(after, index) <==> Delivered(log, index) || Brings(events, tree, index))
      && (Process in after[|log|..] <==> shouldUpdateTrees && events != [])
      && (shouldUpdateTrees && events != [] ==> after[|after| - 1] == Process)
  {
    DeliveredByIs(events, tree, index);
    var after, delivered := LogAfter(log, events, tree, shouldUpdateTrees), DeliveredBy(events, tree);
    if events != [] {
      assert after[|log|..] == if shouldUpdateTrees then delivered + [Process] else delivered;
      assert after == log + after[|log|..];
    }
  }

  lemma {:induction false} DeliveredByIs(events: seq<CommitmentEvent>, tree: int, index: nat)
    ensures Deliver(index) in DeliveredBy(events, tree) <==> Brings(events, tree, index)
    ensures Process !in DeliveredBy(events, tree)
  {
    if events != [] {
      var n := |events| - 1;
      DeliveredByIs(events[..n], tree, index);
      EventsOfIs(events[n].commitments, tree, index);
      assert events == events[..n] + [events[n]];
      if Brings(events, tree, index) {
        var e, c :| e in events && c in e.commitments && Normalized(c) == TreeAndIndex(tree, index);
        assert e in events[..n] || e == events[n];
      }
    }
  }

  lemma {:induction false} EventsOfIs(commitments: seq<Commitment>, tree: int, index: nat)
    ensures Deliver(index) in EventsOf(commitments, tree)
       <==> exists c :: c in commitments && Normalized(c) == TreeAndIndex(tree, index)
    ensures Process !in EventsOf(commitments, tree)
  {
    if commitments != [] {
      var n := |commitments| - 1;
      EventsOfIs(commitments[..n], tree, index);
      assert commitments == commitments[..n] + [commitments[n]];
    }
  }

  /** The tree is where its log of events leads. */
  ghost predicate TreeFollows(commitments: int -> nat -> Leaf, log: seq<Event>, leaves: seq<Leaf>, q: Queue,
      tree: int) {
    Reaches(commitments(tree), log, TreeState(leaves, q))
  }

  /** Every tree is where the calls of the listener so far lead. */
  ghost predicate Follows(tree: Merkletree, commitments: int -> nat -> Leaf, logs: int -> seq<Event>)
    reads tree
  {
    tree.Valid() && forall t :: TreeFollows(commitments, logs(t), tree.Leaves(t), tree.QueueAt(t), t)
  }

  /** The roots asked for get through in every tree. */
  ghost predicate AllRootsPass(s: Scheme, validator: Validator, commitments: int -> nat -> Leaf,
      logs: int -> seq<Event>, how: Processing) {
    forall t :: RootsPass(Judge(s, validator, t), commitments(t), logs(t), how)
  }

  /** Each position is delivered with its commitment. */
  ghost predicate AsCommitted(events: seq<CommitmentEvent>, commitments: int -> nat -> Leaf) {
    forall e, c :: e in events && c in e.commitments ==> IsCommitted(c, commitments)
  }

  ghost predicate IsCommitted(c: Commitment, commitments: int -> nat -> Leaf) {
    c.leaf == commitments(Normalized(c).tree)(Normalized(c).index)
  }

  /** A tree opened empty has an empty log. */
  lemma {:induction false} FollowsFromStart(tree: Merkletree, commitments: int -> nat -> Leaf)
    requires tree.Valid() && tree.view.forest == map[] && tree.writeQueue == map[]
    ensures Follows(tree, commitments, _ => [])
  {
    var logs: int -> seq<Event> := _ => [];
    forall t
      ensures TreeFollows(commitments, logs(t), tree.Leaves(t), tree.QueueAt(t), t)
    {
      ReachesStart(commitments(t));
    }
  }

  /** `commitmentListener`: each commitment is queued on its own; the trees are brought up to date
      if asked.  If every position is always delivered with the same commitment and the roots asked
      for get through, the trees follow the log of what was delivered and processed. */
  method OnCommitments(tree: Merkletree, events: seq<CommitmentEvent>, shouldUpdateTrees: bool, skipValidation: bool,
      ghost commitments: int -> nat -> Leaf, ghost logs: int -> seq<Event>) returns (ghost logs': int -> seq<Event>)
    requires Follows(tree, commitments, logs) && tree.kind == UTXO && AsCommitted(events, commitments)
    requires shouldUpdateTrees && events != [] ==> AllRootsPass(tree.scheme, tree.validator, commitments,
      t => logs(t) + DeliveredBy(events, t), tree.How(skipValidation))
    modifies tree
    ensures Follows(tree, commitments, logs') && tree.validator == old(tree.validator)
    ensures forall t :: logs'(t) == LogAfter(logs(t), events, t, shouldUpdateTrees)
  {
    logs' := logs;
    if events == [] {
      return;
    }
    assert forall t :: logs(t) + [] == logs(t);
    for i := 0 to |events|
      invariant Follows(tree, commitments, logs') && tree.validator == old(tree.validator)
      invariant forall t :: logs'(t) == logs(t) + DeliveredBy(events[..i], t)
    {
      ghost var before := logs';
      logs' := QueueCommitments(tree, events[i].commitments, commitments, before);
      forall t
        ensures logs'(t) == logs(t) + DeliveredBy(events[..i + 1], t)
      {
        EventDelivered(logs(t), events, i, t);
      }
    }
    assert events[..|events|] == events;
    if shouldUpdateTrees {
      ghost var before := logs';
      assert forall t :: RootsPass(Judge(tree.scheme, tree.validator, t), commitments(t), before(t),
        tree.How(skipValidation));
      logs' := UpdateTrees(tree, skipValidation, commitments, before);
    }
  }

  lemma {:induction false} EventDelivered(log: seq<Event>, events: seq<CommitmentEvent>, i: nat, tree: int)
    requires i < |events|
    ensures log + DeliveredBy(events[..i + 1], tree)
         == log + DeliveredBy(events[..i], tree) + EventsOf(events[i].commitments, tree)
  {
    assert events[..i + 1][..i] == events[..i];
  }

  /** The inner loop of `commitmentListener`: the commitments of one event. */
  method QueueCommitments(tree: Merkletree, queued: seq<Commitment>, ghost commitments: int -> nat -> Leaf,
      ghost logs: int -> seq<Event>) returns (ghost logs': int -> seq<Event>)
    requires Follows(tree, commitments, logs) && tree.kind == UTXO
    requires forall c :: c in queued ==> IsCommitted(c, commitments)
    modifies tree
    ensures Follows(tree, commitments, logs') && tree.validator == old(tree.validator)
    ensures forall t :: logs'(t) == logs(t) + EventsOf(queued, t)
  {
    logs' := logs;
    assert forall t :: logs(t) + [] == logs(t);
    for i := 0 to |queued|
      invariant Follows(tree, commitments, logs') && tree.validator == old(tree.validator)
      invariant forall t :: logs'(t) == logs(t) + EventsOf(queued[..i], t)
    {
      ghost var before := logs';
      logs' := OnCommitment(tree, queued[i], commitments, before);
      forall t
        ensures logs'(t) == logs(t) + EventsOf(queued[..i + 1], t)
      {
        LogGrows(logs(t), queued, i, t);
      }
    }
    assert queued[..|queued|] == queued;
  }

  lemma {:induction false} LogGrows(log: seq<Event>, commitments: seq<Commitment>, i: nat, tree: int)
    requires i < |commitments|
    ensures var at, before := Normalized(commitments[i]), log + EventsOf(commitments[..i], tree);
      log + EventsOf(commitments[..i + 1], tree) == if tree == at.tree then before + [Deliver(at.index)] else before
  {
    assert commitments[..i + 1][..i] == commitments[..i];
  }

  method OnCommitment(tree: Merkletree, c: Commitment, ghost commitments: int -> nat -> Leaf,
      ghost logs: int -> seq<Event>) returns (ghost logs': int -> seq<Event>)
    requires Follows(tree, commitments, logs) && tree.kind == UTXO
    requires IsCommitted(c, commitments)
    modifies tree
    ensures Follows(tree, commitments, logs') && tree.validator == old(tree.validator)
    ensures forall t :: logs'(t) == if t == Normalized(c).tree then logs(t) + [Deliver(Normalized(c).index)]
      else logs(t)
  {
    var at := Normalized(c);
    ghost var queues, forest := tree.writeQueue, tree.view.forest;
    tree.QueueLeaves(at.tree, at.index, [c.leaf]);
    ghost var queues' := tree.writeQueue;
    logs' := t => if t == at.tree then logs(t) + [Deliver(at.index)] else logs(t);
    forall t
      ensures TreeFollows(commitments, logs'(t), LeavesOf(forest, t), QueueOf(queues', t), t)
    {
      assert TreeFollows(commitments, logs(t), LeavesOf(forest, t), QueueOf(queues, t), t);
      if t == at.tree {
        assert QueueOkAt(queues, tree.kind, t);
        ReachesMore(commitments(t), logs(t), TreeState(LeavesOf(forest, t), QueueOf(queues, t)), Deliver(at.index),
          TreeState(LeavesOf(forest, t), QueueOf(queues', t)));
      }
    }
  }

  method UpdateTrees(tree: Merkletree, skipValidation: bool, ghost commitments: int -> nat -> Leaf,
      ghost logs: int -> seq<Event>) returns (ghost logs': int -> seq<Event>)
    requires Follows(tree, commitments, logs)
    requires AllRootsPass(tree.scheme, tree.validator, commitments, logs, tree.How(skipValidation))
    modifies tree
    ensures Follows(tree, commitments, logs') && tree.validator == old(tree.validator)
    ensures forall t :: logs'(t) == logs(t) + [Process]
  {
    ghost var queues, forest := tree.writeQueue, tree.view.forest;
    tree.UpdateTreesFromWriteQueue(skipValidation);
    ghost var queues', forest' := tree.writeQueue, tree.view.forest;
    logs' := t => logs(t) + [Process];
    forall t
      ensures TreeFollows(commitments, logs'(t), LeavesOf(forest', t), QueueOf(queues', t), t)
    {
      var before, after := TreeState(LeavesOf(forest, t), QueueOf(queues, t)),
        TreeState(LeavesOf(forest', t), QueueOf(queues', t));
      assert TreeFollows(commitments, logs(t), LeavesOf(forest, t), QueueOf(queues, t), t);
      assert ProcessedAt(tree.scheme, tree.validator, queues, forest, queues', forest',
        tree.How(skipValidation), t);
      assert RootsPass(Judge(tree.scheme, tree.validator, t), commitments(t), logs(t), tree.How(skipValidation));
      ReachesConsistent(commitments(t), logs(t), before);
      ProcessedIsStep(commitments(t), logs(t), tree.JudgeOf(t), before.queue, before.leaves, after.queue, after.leaves,
        tree.How(skipValidation));
      ReachesMore(commitments(t), logs(t), before, Process, after);
    }
  }

  /** Once a tree has been processed after everything up to a gap was delivered, in any order,
      with any repetition and interleaving, it holds exactly the commitments before the gap. */
  lemma {:induction false} HoldsUpToGap(commitment: nat -> Leaf, events: seq<Event>, s: TreeState, gap: nat)
    requires Reaches(commitment, events, s) && events != [] && events[|events| - 1].Process?
    requires !Delivered(events, gap) && forall i: nat :: i < gap ==> Delivered(events, i)
    ensures s.leaves == seq(gap, i requires 0 <= i < gap => commitment(i))
  {
    var states :| IsRun(commitment, events, states) && states[|events|] == s;
    DeliveryOrderIrrelevant(commitment, events, states, gap);
  }

  // ---------- whole runs of the listener ----------

  datatype ListenerCall = ListenerCall(events: seq<CommitmentEvent>, shouldUpdateTrees: bool, skipValidation: bool)

  /** The log of a tree after several calls. */
  function LogOf(calls: seq<ListenerCall>, tree: int): seq<Event> {
    if calls == [] then []
    else
      var last := calls[|calls| - 1];
      LogAfter(LogOf(calls[..|calls| - 1], tree), last.events, tree, last.shouldUpdateTrees)
  }

  /** Up to the gap everything has been delivered, and a processing call came last. */
  ghost predicate IsGap(log: seq<Event>, gap: nat) {
    && log != [] && log[|log| - 1].Process?
    && !Delivered(log, gap) && forall i: nat :: i < gap ==> Delivered(log, i)
  }

  ghost predicate HeldAt(leaves: seq<Leaf>, log: seq<Event>, commitment: nat -> Leaf, gap: nat) {
    IsGap(log, gap) ==> leaves == seq(gap, i requires 0 <= i < gap => commitment(i))
  }

  lemma {:induction false} FollowersHold(tree: Merkletree, commitments: int -> nat -> Leaf, logs: int -> seq<Event>)
    requires Follows(tree, commitments, logs)
    ensures forall t, gap :: HeldAt(tree.Leaves(t), logs(t), commitments(t), gap)
  {
    forall t, gap: nat
      ensures HeldAt(tree.Leaves(t), logs(t), commitments(t), gap)
    {
      assert TreeFollows(commitments, logs(t), tree.Leaves(t), tree.QueueAt(t), t);
      if IsGap(logs(t), gap) {
        HoldsUpToGap(commitments(t), logs(t), TreeState(tree.Leaves(t), tree.QueueAt(t)), gap);
      }
    }
  }

  /** The call at `i` delivers each position with its commitment, and the roots it asks for get
      through, if it asks for any. */
  ghost predicate CallOk(s: Scheme, validator: Validator, size: nat, commitments: int -> nat -> Leaf,
      calls: seq<ListenerCall>, i: nat)
    requires i < |calls|
  {
    var call := calls[i];
    && AsCommitted(call.events, commitments)
    && (call.shouldUpdateTrees && call.events != [] ==> AllRootsPass(s, validator, commitments,
      t => LogOf(calls[..i], t) + DeliveredBy(call.events, t), Processing(size, call.skipValidation)))
  }

  /** Any calls of the listener on a tree opened empty: the trees follow what was delivered and
      processed, so that every tree whose last event is a processing call holds exactly its
      commitments before the first gap. */
  method Listen(tree: Merkletree, calls: seq<ListenerCall>, ghost commitments: int -> nat -> Leaf)
    requires tree.Valid() && tree.view.forest == map[] && tree.writeQueue == map[] && tree.kind == UTXO
    requires forall i :: 0 <= i < |calls| ==>
      CallOk(tree.scheme, tree.validator, tree.defaultProcessingSize, commitments, calls, i)
    modifies tree
    ensures Follows(tree, commitments, t => LogOf(calls, t)) && tree.validator == old(tree.validator)
    ensures forall t, gap :: HeldAt(tree.Leaves(t), LogOf(calls, t), commitments(t), gap)
  {
    FollowsFromStart(tree, commitments);
    ghost var logs: int -> seq<Event> := _ => [];
    for i := 0 to |calls|
      invariant Follows(tree, commitments, logs) && tree.validator == old(tree.validator)
      invariant forall t :: logs(t) == LogOf(calls[..i], t)
    {
      assert calls[..i + 1][..i] == calls[..i];
      assert CallOk(tree.scheme, tree.validator, tree.defaultProcessingSize, commitments, calls, i);
      ghost var before := logs;
      logs := OnCommitments(tree, calls[i].events, calls[i].shouldUpdateTrees, calls[i].skipValidation, commitments,
        before);
    }
    assert calls[..|calls|] == calls;
    forall t
      ensures TreeFollows(commitments, LogOf(calls, t), tree.Leaves(t), tree.QueueAt(t), t)
    {
      assert TreeFollows(commitments, logs(t), tree.Leaves(t), tree.QueueAt(t), t);
    }
    FollowersHold(tree, commitments, t => LogOf(calls, t));
  }
}
