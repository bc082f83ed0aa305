/** The lock around `processWriteQueueForTree`: each call awaits the promise of the call before it
    on the same tree and leaves its own promise behind; the last one removes it.

    Calls interleave at their waits, so a step is an arrival, the return from the wait, or the end
    of a call. */
module QueueLock {
  import opened Wrappers

  datatype Phase = Awaiting | Inside | Finished

  /** A call and the promise it awaits, named by the call that will resolve it.  None is the
      promise that is resolved already. */
  datatype Call = Call(tree: int, previous: Option<nat>, phase: Phase)

  /** `locks` is the field `processingWriteQueueLock`.  The three logs record, per tree, the calls
      that arrived, entered and left, and steer nothing. */
  datatype State = State(locks: map<int, nat>, calls: map<nat, Call>, arrived: map<int, seq<nat>>,
      entered: map<int, seq<nat>>, left: map<int, seq<nat>>)

  datatype Event = Arrive(tree: int, call: nat) | Enter(call: nat) | Leave(call: nat)

  const INITIAL := State(map[], map[], map[], map[], map[])

  function LogOf(logs: map<int, seq<nat>>, tree: int): seq<nat> {
    if tree in logs then logs[tree] else []
  }

  predicate Enabled(s: State, e: Event) {
    match e
    case Arrive(_, call) => call !in s.calls
    case Enter(call) =>
      call in s.calls && s.calls[call].phase.Awaiting?
      && (s.calls[call].previous.Some?
        ==> s.calls[call].previous.value in s.calls && s.calls[s.calls[call].previous.value].phase.Finished?)
    case Leave(call) => call in s.calls && s.calls[call].phase.Inside?
  }

  function Next(s: State, e: Event): State
    requires Enabled(s, e)
  {
    match e
    case Arrive(tree, call) =>
      var previous := if tree in s.locks then Some(s.locks[tree]) else None;
      s.(locks := s.locks[tree := call], calls := s.calls[call := Call(tree, previous, Awaiting)],
        arrived := s.arrived[tree := LogOf(s.arrived, tree) + [call]])
    case Enter(call) =>
      var tree := s.calls[call].tree;
      s.(calls := s.calls[call := s.calls[call].(phase := Inside)],
        entered := s.entered[tree := LogOf(s.entered, tree) + [call]])
    case Leave(call) =>
      var tree := s.calls[call].tree;
      s.(calls := s.calls[call := s.calls[call].(phase := Finished)],
        left := s.left[tree := LogOf(s.left, tree) + [call]],
        locks := if tree in s.locks && s.locks[tree] == call then s.locks - {tree} else s.locks)
  }

  // ---------- what every run keeps ----------

  function PhaseAt(k: nat, entered: nat, left: nat): Phase {
    if k < left then Finished else if k < entered then Inside else Awaiting
  }

  /** The k-th arrival at a tree: its phase follows from its place, and what it awaits is the call
      before it, unless that one has left already. */
  ghost predicate ArrivalAt(s: State, tree: int, k: nat) {
    var arrived, entered, left := LogOf(s.arrived, tree), LogOf(s.entered, tree), LogOf(s.left, tree);
    k < |arrived| ==>
      && arrived[k] in s.calls
      && s.calls[arrived[k]].tree == tree && s.calls[arrived[k]].phase == PhaseAt(k, |entered|, |left|)
      && (s.calls[arrived[k]].previous.None? ==> k <= |left|)
      && (s.calls[arrived[k]].previous.Some? ==> k > 0 && s.calls[arrived[k]].previous.value == arrived[k - 1])
  }

  /** Calls enter and leave in the order of arrival, one at a time, and the stored promise is the
      last arrival's for as long as that call has not left. */
  ghost predicate TreeOk(s: State, tree: int) {
    var arrived, entered, left := LogOf(s.arrived, tree), LogOf(s.entered, tree), LogOf(s.left, tree);
    && left <= entered <= arrived && |entered| <= |left| + 1
    && (forall k: nat :: ArrivalAt(s, tree, k))
    && (tree in s.locks <==> |left| < |arrived|) && (tree in s.locks ==> s.locks[tree] == arrived[|arrived| - 1])
  }

  /** A call is logged once, as an arrival at its tree. */
  ghost predicate CallOk(s: State, call: nat) {
    call in s.calls ==> exists k: nat :: k < |LogOf(s.arrived, s.calls[call].tree)|
                                         && LogOf(s.arrived, s.calls[call].tree)[k] == call
  }

  ghost predicate OnceAt(s: State, tree: int, j: nat, k: nat) {
    j < k < |LogOf(s.arrived, tree)| ==> LogOf(s.arrived, tree)[j] != LogOf(s.arrived, tree)[k]
  }

  ghost predicate Inv(s: State) {
    && (forall t :: TreeOk(s, t)) && (forall c :: CallOk(s, c)) && (forall t, j, k :: OnceAt(s, t, j, k))
  }

  /** The place of a call among the arrivals at its tree. */
  lemma {:induction false} PlaceOf(s: State, call: nat) returns (k: nat)
    requires Inv(s) && call in s.calls
    ensures var arrived := LogOf(s.arrived, s.calls[call].tree);
      k < |arrived| && arrived[k] == call && ArrivalAt(s, s.calls[call].tree, k)
  {
    assert CallOk(s, call) && TreeOk(s, s.calls[call].tree);
    k :| k < |LogOf(s.arrived, s.calls[call].tree)| && LogOf(s.arrived, s.calls[call].tree)[k] == call;
    assert ArrivalAt(s, s.calls[call].tree, k);
  }

  /** Only the first call that has not left can enter, and only when none is inside. */
  lemma {:induction false} EnterIsNext(s: State, call: nat)
    requires Inv(s) && Enabled(s, Enter(call))
    ensures var tree := s.calls[call].tree;
      var arrived, entered, left := LogOf(s.arrived, tree), LogOf(s.entered, tree), LogOf(s.left, tree);
      |entered| == |left| < |arrived| && arrived[|left|] == call
  {
    var k := PlaceOf(s, call);
    var tree := s.calls[call].tree;
    assert TreeOk(s, tree);
    if s.calls[call].previous.Some? {
      assert ArrivalAt(s, tree, k - 1);
    }
  }

  lemma {:induction false} LeaveIsFirst(s: State, call: nat)
    requires Inv(s) && Enabled(s, Leave(call))
    ensures var tree := s.calls[call].tree;
      var arrived, entered, left := LogOf(s.arrived, tree), LogOf(s.entered, tree), LogOf(s.left, tree);
      |entered| == |left| + 1 <= |arrived| && arrived[|left|] == call
  {
    var k := PlaceOf(s, call);
    assert TreeOk(s, s.calls[call].tree);
  }

  lemma {:induction false} NextKeepsArrival(s: State, e: Event, tree: int, k: nat)
    requires Inv(s) && Enabled(s, e)
    ensures ArrivalAt(Next(s, e), tree, k)
  {
    assert TreeOk(s, tree) && ArrivalAt(s, tree, k);
    match e
    case Arrive(t, call) =>
    case Enter(call) =>
      EnterIsNext(s, call);
      assert OnceAt(s, tree, k, |LogOf(s.left, tree)|) && OnceAt(s, tree, |LogOf(s.left, tree)|, k);
    case Leave(call) =>
      LeaveIsFirst(s, call);
      assert OnceAt(s, tree, k, |LogOf(s.left, tree)|) && OnceAt(s, tree, |LogOf(s.left, tree)|, k);
  }

  lemma {:induction false} ArriveKeepsTree(s: State, t: int, call: nat, tree: int)
    requires Inv(s) && Enabled(s, Arrive(t, call)) && forall k: nat :: ArrivalAt(Next(s, Arrive(t, call)), tree, k)
    ensures TreeOk(Next(s, Arrive(t, call)), tree)
  {
    assert TreeOk(s, tree);
  }

  lemma {:induction false} EnterKeepsTree(s: State, call: nat, tree: int)
    requires Inv(s) && Enabled(s, Enter(call)) && forall k: nat :: ArrivalAt(Next(s, Enter(call)), tree, k)
    ensures TreeOk(Next(s, Enter(call)), tree)
  {
    assert TreeOk(s, tree);
    EnterIsNext(s, call);
  }

  lemma {:induction false} LeaveKeepsTree(s: State, call: nat, tree: int)
    requires Inv(s) && Enabled(s, Leave(call)) && forall k: nat :: ArrivalAt(Next(s, Leave(call)), tree, k)
    ensures TreeOk(Next(s, Leave(call)), tree)
  {
    var t := s.calls[call].tree;
    assert TreeOk(s, tree) && TreeOk(s, t);
    LeaveIsFirst(s, call);
    assert OnceAt(s, t, |LogOf(s.left, t)|, |LogOf(s.arrived, t)| - 1);
  }

  lemma {:induction false} NextKeepsTree(s: State, e: Event, tree: int)
    requires Inv(s) && Enabled(s, e)
    ensures TreeOk(Next(s, e), tree)
  {
    forall k: nat
      ensures ArrivalAt(Next(s, e), tree, k)
    {
      NextKeepsArrival(s, e, tree, k);
    }
    match e
    case Arrive(t, call) => ArriveKeepsTree(s, t, call, tree);
    case Enter(call) => EnterKeepsTree(s, call, tree);
    case Leave(call) => LeaveKeepsTree(s, call, tree);
  }

  lemma {:induction false} NextKeepsLog(s: State, e: Event)
    requires Inv(s) && Enabled(s, e)
    ensures forall c :: CallOk(Next(s, e), c)
    ensures forall t, j, k :: OnceAt(Next(s, e), t, j, k)
  {
    var s' := Next(s, e);
    forall c: nat
      ensures CallOk(s', c)
    {
      assert CallOk(s, c);
      if c in s.calls {
        var k := PlaceOf(s, c);
        assert LogOf(s'.arrived, s.calls[c].tree)[k] == c;
      } else if c in s'.calls {
        assert LogOf(s'.arrived, e.tree)[|LogOf(s.arrived, e.tree)|] == c;
      }
    }
    forall t, j: nat, k: nat
      ensures OnceAt(s', t, j, k)
    {
      assert OnceAt(s, t, j, k) && TreeOk(s, t) && ArrivalAt(s, t, j);
    }
  }

  /** Every step keeps the invariant. */
  lemma {:induction false} NextKeepsInv(s: State, e: Event)
    requires Inv(s) && Enabled(s, e)
    ensures Inv(Next(s, e))
  {
    forall t
      ensures TreeOk(Next(s, e), t)
    {
      NextKeepsTree(s, e, t);
    }
    NextKeepsLog(s, e);
  }

  ghost predicate StepAt(events: seq<Event>, states: seq<State>, i: nat)
    requires i < |events| && |states| == |events| + 1
  {
    Enabled(states[i], events[i]) && states[i + 1] == Next(states[i], events[i])
  }

  /** Any interleaving of calls on any trees. */
  ghost predicate IsRun(events: seq<Event>, states: seq<State>) {
    && |states| == |events| + 1 && states[0] == INITIAL
    && forall i :: 0 <= i < |events| ==> StepAt(events, states, i)
  }

  lemma {:induction false} RunKeepsInv(events: seq<Event>, states: seq<State>, i: nat)
    requires IsRun(events, states) && i <= |events|
    ensures Inv(states[i])
  {
    if i > 0 {
      RunKeepsInv(events, states, i - 1);
      assert StepAt(events, states, i - 1);
      NextKeepsInv(states[i - 1], events[i - 1]);
    }
  }

  /** Mutual exclusion, first come first served, and no call is forgotten: at every point of every
      run two calls on one tree are never inside together, calls entered in the order they
      arrived, and if one is waiting while none is inside, the first of them can enter. */
  lemma {:induction false} FifoMutex(events: seq<Event>, states: seq<State>, i: nat, a: nat, b: nat, tree: int)
    requires IsRun(events, states) && i <= |events|
    ensures var s := states[i];
      && (a in s.calls && b in s.calls && s.calls[a].phase.Inside? && s.calls[b].phase.Inside?
          && s.calls[a].tree == s.calls[b].tree
          ==> a == b)
      && LogOf(s.entered, tree) <= LogOf(s.arrived, tree)
      && (|LogOf(s.left, tree)| == |LogOf(s.entered, tree)| < |LogOf(s.arrived, tree)|
        ==> Enabled(s, Enter(LogOf(s.arrived, tree)[|LogOf(s.left, tree)|])))
  {
    var s := states[i];
    RunKeepsInv(events, states, i);
    assert TreeOk(s, tree);
    if a in s.calls && b in s.calls && s.calls[a].phase.Inside? && s.calls[b].phase.Inside?
      && s.calls[a].tree == s.calls[b].tree {
      LeaveIsFirst(s, a);
      LeaveIsFirst(s, b);
    }
    var left := |LogOf(s.left, tree)|;
    assert ArrivalAt(s, tree, left);
    if left > 0 {
      assert ArrivalAt(s, tree, left - 1);
    }
  }

  // ---------- the field ----------

  class ProcessingWriteQueueLock {
    var processingWriteQueueLock: map<int, nat>
    var calls: map<nat, Call>
    ghost var arrived: map<int, seq<nat>>
    ghost var entered: map<int, seq<nat>>
    ghost var left: map<int, seq<nat>>

    ghost function Now(): State
      reads this
    {
      State(processingWriteQueueLock, calls, arrived, entered, left)
    }

    constructor ()
      ensures Now() == INITIAL
    {
      processingWriteQueueLock, calls, arrived, entered, left := map[], map[], map[], map[], map[];
    }

    /** A call up to its wait. */
    method Acquire(treeIndex: int, call: nat)
      requires Inv(Now()) && Enabled(Now(), Arrive(treeIndex, call))
      modifies this
      ensures Now() == Next(old(Now()), Arrive(treeIndex, call)) && Inv(Now())
    {
      NextKeepsInv(Now(), Arrive(treeIndex, call));
      var previousPromise := None;
      if treeIndex in processingWriteQueueLock {
        previousPromise := Some(processingWriteQueueLock[treeIndex]);
      }
      calls := calls[call := Call(treeIndex, previousPromise, Awaiting)];
      processingWriteQueueLock := processingWriteQueueLock[treeIndex := call];
      arrived := arrived[treeIndex := LogOf(arrived, treeIndex) + [call]];
    }

    /** The promise before has resolved. */
    method Resume(call: nat)
      requires Inv(Now()) && Enabled(Now(), Enter(call))
      modifies this
      ensures Now() == Next(old(Now()), Enter(call)) && Inv(Now())
    {
      NextKeepsInv(Now(), Enter(call));
      entered := entered[calls[call].tree := LogOf(entered, calls[call].tree) + [call]];
      calls := calls[call := calls[call].(phase := Inside)];
    }

    /** The `finally` block: resolve the call's own promise, and remove it if it is still the last. */
    method Release(call: nat)
      requires Inv(Now()) && Enabled(Now(), Leave(call))
      modifies this
      ensures Now() == Next(old(Now()), Leave(call)) && Inv(Now())
    {
      NextKeepsInv(Now(), Leave(call));
      var treeIndex := calls[call].tree;
      calls := calls[call := calls[call].(phase := Finished)];
      if treeIndex in processingWriteQueueLock && processingWriteQueueLock[treeIndex] == call {
        processingWriteQueueLock := processingWriteQueueLock - {treeIndex};
      }
      left := left[treeIndex := LogOf(left, treeIndex) + [call]];
    }
  }
}
