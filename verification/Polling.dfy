/** The batched polling subscriber as a state machine.

    The event loop runs one callback at a time, so a step is what happens between two waits: a
    call to start or stop, the timer firing, or an answer (or error) to the one request the poll
    in flight waits for.  `Next` says what each step does; the class does it with the source's
    fields and is proved equal to it. */
module Polling {
  import opened Wrappers

  const MAX_BATCH_BLOCKS: nat := 500
  const MAX_BACKOFF: nat := 30000
  const NOT_STARTED: int := -2

  datatype Range = Range(fromBlock: int, toBlock: int)

  /** Where the poll in flight waits, if there is one. */
  datatype Waiting = Nowhere | ForHead | ForLogs(range: Range, head: nat)

  /** `pending` are the timers the event loop still holds; `pollTimer` may name one that has fired.
      `fetched` and `firstHead` record the past and steer nothing. */
  datatype State = State(
    running: bool,
    blockNumber: int,
    pollTimer: Option<nat>,
    polling: bool,
    errorBackoff: nat,
    waiting: Waiting,
    pending: set<nat>,
    nextTimer: nat,
    fetched: seq<Range>,
    firstHead: int)

  datatype Event = Start | Stop | TimerFires(timer: nat) | HeadArrives(head: nat) | LogsArrive | RequestFails

  const INITIAL := State(false, NOT_STARTED, None, false, 0, Nowhere, {}, 0, [], NOT_STARTED)

  // ---------- one step ----------

  /** What can happen: a pending timer fires, the awaited answer comes, or a caller calls. */
  predicate Enabled(s: State, e: Event) {
    match e
    case Start => true
    case Stop => true
    case TimerFires(timer) => timer in s.pending
    case HeadArrives(_) => s.waiting.ForHead?
    case LogsArrive => s.waiting.ForLogs?
    case RequestFails => !s.waiting.Nowhere?
  }

  function ClearTimer(s: State): State {
    if s.pollTimer.Some? then s.(pending := s.pending - {s.pollTimer.value}, pollTimer := None) else s
  }

  function Scheduled(s: State): State {
    if !s.running then s
    else
      var t := ClearTimer(s);
      t.(pollTimer := Some(t.nextTimer), pending := t.pending + {t.nextTimer}, nextTimer := t.nextTimer + 1)
  }

  /** `#poll` up to its first wait. */
  function Polled(s: State): State {
    if !s.running then s
    else if s.polling then Scheduled(s)
    else s.(polling := true, waiting := ForHead)
  }

  function Left(s: State): State {
    s.(polling := false, waiting := Nowhere)
  }

  /** The fetch loop from `from`: the next request, or the end of the poll. */
  function Fetching(s: State, from: int, head: nat): State {
    if from <= head && s.running
    then s.(waiting := ForLogs(Range(from, if from + MAX_BATCH_BLOCKS - 1 < head then from + MAX_BATCH_BLOCKS - 1
      else head), head))
    else Scheduled(Left(s.(errorBackoff := 0)))
  }

  function Backoff(errorBackoff: nat, pollingInterval: nat): nat {
    var doubled := 2 * if errorBackoff != 0 then errorBackoff else pollingInterval;
    if doubled < MAX_BACKOFF then doubled else MAX_BACKOFF
  }

  function Next(pollingInterval: nat, s: State, e: Event): State
    requires Enabled(s, e)
  {
    match e
    case Start => if s.running then s else Polled(s.(running := true))
    case Stop => if s.running then ClearTimer(s.(running := false)) else s
    case TimerFires(timer) => Polled(s.(pending := s.pending - {timer}))
    case HeadArrives(head) =>
      if s.blockNumber == NOT_STARTED then Left(Scheduled(s.(blockNumber := head, firstHead := head)))
      else if head <= s.blockNumber then Left(Scheduled(s))
      else Fetching(s, s.blockNumber + 1, head)
    case LogsArrive =>
      var range := s.waiting.range;
      Fetching(s.(blockNumber := range.toBlock, fetched := s.fetched + [range]), range.toBlock + 1, s.waiting.head)
    case RequestFails => Scheduled(Left(s.(errorBackoff := Backoff(s.errorBackoff, pollingInterval))))
  }

  // ---------- what every run keeps ----------

  predicate RangeOk(r: Range) {
    r.fromBlock <= r.toBlock < r.fromBlock + MAX_BATCH_BLOCKS
  }

  /** The range right behind the cursor, of 500 blocks unless the head comes first. */
  predicate IsNextRange(r: Range, cursor: int, head: nat) {
    r.fromBlock == cursor + 1 && r.toBlock == if cursor + 500 < head then cursor + 500 else head
  }

  ghost predicate FollowsAt(fetched: seq<Range>, first: int, k: nat)
    requires k < |fetched|
  {
    RangeOk(fetched[k]) && fetched[k].fromBlock == (if k == 0 then first else fetched[k - 1].toBlock) + 1
  }

  /** The fetched ranges are contiguous, each of 1 to 500 blocks, and tile (first, cursor]. */
  ghost predicate Tiles(fetched: seq<Range>, first: int, cursor: int) {
    && (forall k :: 0 <= k < |fetched| ==> FollowsAt(fetched, first, k))
    && cursor == if fetched == [] then first else fetched[|fetched| - 1].toBlock
  }

  /** At most one timer is pending, and it is the one `pollTimer` names; the flag says whether a
      poll is in flight; while running, one is or a timer is pending, and a stopped subscriber has
      no timer; the request for logs is for the blocks right behind the cursor. */
  ghost predicate Inv(s: State) {
    && (forall t :: t in s.pending ==> s.pollTimer == Some(t) && t < s.nextTimer)
    && (s.polling <==> !s.waiting.Nowhere?)
    && (s.running ==> s.polling || s.pending != {})
    && (!s.running ==> s.pending == {})
    && (if s.firstHead == NOT_STARTED then s.fetched == [] else s.firstHead >= 0)
    && (s.blockNumber == NOT_STARTED <==> s.firstHead == NOT_STARTED)
    && Tiles(s.fetched, s.firstHead, s.blockNumber) && s.blockNumber >= s.firstHead
    && (s.waiting.ForLogs? ==> s.firstHead >= 0
                               && RangeOk(s.waiting.range) && s.waiting.range.toBlock <= s.waiting.head)
    && (s.waiting.ForLogs? ==> IsNextRange(s.waiting.range, s.blockNumber, s.waiting.head))
    && s.errorBackoff <= MAX_BACKOFF
  }

  lemma {:induction false} ScheduledOk(s: State)
    requires forall t :: t in s.pending ==> s.pollTimer == Some(t) && t < s.nextTimer
    ensures var s' := Scheduled(s);
      && (s.running ==> s'.pending == {s.nextTimer}
                        && s'.pollTimer == Some(s.nextTimer) && s'.nextTimer == s.nextTimer + 1)
      && s' == s.(pending := s'.pending, pollTimer := s'.pollTimer, nextTimer := s'.nextTimer)
  {
  }

  lemma {:induction false} TileAdded(fetched: seq<Range>, first: int, cursor: int, range: Range)
    requires Tiles(fetched, first, cursor) && RangeOk(range) && range.fromBlock == cursor + 1
    ensures Tiles(fetched + [range], first, range.toBlock)
  {
    var more := fetched + [range];
    forall k | 0 <= k < |more|
      ensures FollowsAt(more, first, k)
    {
      assert k < |fetched| ==> FollowsAt(fetched, first, k);
    }
  }

  /** Every step keeps the invariant; the cursor never goes back and no fetched range is forgotten
      or repeated. */
  lemma {:induction false} NextKeepsInv(pollingInterval: nat, s: State, e: Event)
    requires Inv(s) && Enabled(s, e)
    ensures var s' := Next(pollingInterval, s, e);
      Inv(s') && s'.blockNumber >= s.blockNumber && s.fetched <= s'.fetched
  {
    match e
    case Start => ScheduledOk(s.(running := true));
    case Stop =>
    case TimerFires(timer) => ScheduledOk(s.(pending := s.pending - {timer}));
    case HeadArrives(head) =>
      ScheduledOk(s);
      ScheduledOk(s.(blockNumber := head, firstHead := head));
      ScheduledOk(Left(s.(errorBackoff := 0)));
    case LogsArrive =>
      var range := s.waiting.range;
      TileAdded(s.fetched, s.firstHead, s.blockNumber, range);
      ScheduledOk(Left(s.(blockNumber := range.toBlock, fetched := s.fetched + [range], errorBackoff := 0)));
    case RequestFails =>
      ScheduledOk(Left(s.(errorBackoff := Backoff(s.errorBackoff, pollingInterval))));
  }

  // ---------- what a step leads to ----------

  /** A poll that runs on, with a head behind which nothing is left to fetch, ends there; otherwise it
      asks for the next range, keeping that head. */
  ghost predicate Progress(s: State, head: nat) {
    match s.waiting
    case Nowhere => s.blockNumber >= head
    case ForHead => false
    case ForLogs(range, target) => target == head && s.blockNumber < head && IsNextRange(range, s.blockNumber, head)
  }

  /** The answer of a poll of a running subscriber moves it towards its head: the first head of all
      is where it begins, an old one changes nothing, and an answered range moves the cursor to the
      range's end.  Back-off ends with a poll that has fetched, and only then. */
  lemma {:induction false} AnswerProgresses(pollingInterval: nat, s: State, e: Event)
    requires Inv(s) && Enabled(s, e) && s.running && (e.HeadArrives? || e.LogsArrive?)
    ensures var s' := Next(pollingInterval, s, e);
      && s'.running && Progress(s', if e.HeadArrives? then e.head else s.waiting.head)
      && (e.LogsArrive? ==> s'.blockNumber == s.waiting.range.toBlock && s'.fetched == s.fetched + [s.waiting.range])
      && (e.HeadArrives? ==>
        s'.fetched == s.fetched && s'.blockNumber == if s.blockNumber == NOT_STARTED then e.head else s.blockNumber)
      && s'.errorBackoff == if e.LogsArrive? && s'.waiting.Nowhere? then 0 else s.errorBackoff
  {
    NextKeepsInv(pollingInterval, s, e);
  }

  /** Starting, or a timer while running, asks for the head; a poll in flight is not disturbed, but
      another one is scheduled. */
  lemma {:induction false} CallPolls(pollingInterval: nat, s: State, e: Event)
    requires Inv(s) && Enabled(s, e) && (e.Start? || e.TimerFires?)
    ensures var s' := Next(pollingInterval, s, e);
      && s'.running == (s.running || e.Start?)
      && (s'.running && s.waiting.Nowhere? && !(e.Start? && s.running) ==> s'.waiting.ForHead?)
      && (!s.waiting.Nowhere? || !s'.running ==> s'.waiting == s.waiting)
      && (s'.running && !s.waiting.Nowhere? && !(e.Start? && s.running) ==> s'.pending == {s.nextTimer})
      && s'.blockNumber == s.blockNumber && s'.fetched == s.fetched && s'.errorBackoff == s.errorBackoff
  {
  }

  /** A stopped subscriber asks for nothing more: what it waits for may still come, and moves the
      cursor by the range in flight at most. */
  lemma {:induction false} StopsAsking(pollingInterval: nat, s: State, e: Event)
    requires Inv(s) && Enabled(s, e) && (e.Stop? || (!s.running && !e.Start?))
    ensures var s' := Next(pollingInterval, s, e);
      && !s'.running && s'.pending == {}
      && (s'.waiting == s.waiting || s'.waiting.Nowhere?)
      && s'.fetched == (if e.LogsArrive? then s.fetched + [s.waiting.range] else s.fetched)
      && s'.blockNumber == if e.LogsArrive? then s.waiting.range.toBlock
         else if e.HeadArrives? && s.blockNumber == NOT_STARTED then e.head else s.blockNumber
  {
    NextKeepsInv(pollingInterval, s, e);
  }

  /** A failure ends the poll, leaves the cursor where it is, so that the range is asked for again,
      and doubles the wait, from the polling interval up to 30 seconds. */
  lemma {:induction false} FailureBacksOff(pollingInterval: nat, s: State, e: Event)
    requires Inv(s) && Enabled(s, e) && e.RequestFails?
    ensures var s' := Next(pollingInterval, s, e);
      var doubled := 2 * if s.errorBackoff == 0 then pollingInterval else s.errorBackoff;
      && s'.waiting.Nowhere? && s'.blockNumber == s.blockNumber && s'.fetched == s.fetched && s'.running == s.running
      && s'.errorBackoff <= 30000 && s'.errorBackoff <= doubled
      && (s'.errorBackoff == 30000 || s'.errorBackoff == doubled)
  {
  }

  ghost predicate StepAt(pollingInterval: nat, events: seq<Event>, states: seq<State>, i: nat)
    requires i < |events| && |states| == |events| + 1
  {
    Enabled(states[i], events[i]) && states[i + 1] == Next(pollingInterval, states[i], events[i])
  }

  /** Any interleaving of calls, timers, answers and errors, from a new subscriber. */
  ghost predicate IsRun(pollingInterval: nat, events: seq<Event>, states: seq<State>) {
    && |states| == |events| + 1 && states[0] == INITIAL
    && forall i :: 0 <= i < |events| ==> StepAt(pollingInterval, events, states, i)
  }

  lemma {:induction false} RunKeepsInv(pollingInterval: nat, events: seq<Event>, states: seq<State>, i: nat)
    requires IsRun(pollingInterval, events, states) && i <= |events|
    ensures Inv(states[i])
  {
    if i > 0 {
      RunKeepsInv(pollingInterval, events, states, i - 1);
      assert StepAt(pollingInterval, events, states, i - 1);
      NextKeepsInv(pollingInterval, states[i - 1], events[i - 1]);
    }
  }

  /** From the answer of a head on, with neither stop nor failure, a run has reached that head or
      still fetches up to it; so a poll that ends has reached its head. */
  lemma {:induction false} PollReachesHead(pollingInterval: nat, events: seq<Event>, states: seq<State>, i: nat,
      j: nat)
    requires IsRun(pollingInterval, events, states) && i < j <= |events|
    requires events[i].HeadArrives? && states[i].running
    requires forall k :: i < k < j ==> !events[k].Stop? && !events[k].RequestFails?
    ensures states[j].running && (states[j].blockNumber >= events[i].head || Progress(states[j], events[i].head))
    ensures states[j].waiting.Nowhere? ==> states[j].blockNumber >= events[i].head
  {
    var k := j - 1;
    RunKeepsInv(pollingInterval, events, states, k);
    assert StepAt(pollingInterval, events, states, k);
    NextKeepsInv(pollingInterval, states[k], events[k]);
    if i < k {
      PollReachesHead(pollingInterval, events, states, i, k);
    }
    match events[k] {
      case HeadArrives(_) => AnswerProgresses(pollingInterval, states[k], events[k]);
      case LogsArrive => AnswerProgresses(pollingInterval, states[k], events[k]);
      case Start => CallPolls(pollingInterval, states[k], events[k]);
      case TimerFires(_) => CallPolls(pollingInterval, states[k], events[k]);
      case Stop =>
      case RequestFails =>
    }
  }

  /** A poll asks for no more ranges than it needs: each answer brings it 500 blocks, or all the rest,
      closer to its head. */
  lemma {:induction false} AnswersNeeded(pollingInterval: nat, s: State, e: Event)
    requires Inv(s) && Enabled(s, e) && s.running && e.LogsArrive?
    ensures var s' := Next(pollingInterval, s, e);
      s.waiting.head - s'.blockNumber == if s.waiting.head - s.blockNumber > 500
        then s.waiting.head - s.blockNumber - 500 else 0
  {
  }

  predicate Holds(r: Range, block: int) {
    r.fromBlock <= block <= r.toBlock
  }

  lemma {:induction false} TilesReach(fetched: seq<Range>, first: int, cursor: int, k: nat)
    requires Tiles(fetched, first, cursor) && k < |fetched|
    ensures first < fetched[k].fromBlock && fetched[k].toBlock <= cursor
    ensures forall j :: k < j < |fetched| ==> fetched[k].toBlock < fetched[j].fromBlock
    decreases |fetched| - k
  {
    assert FollowsAt(fetched, first, k);
    TilesStartAfter(fetched, first, cursor, k);
    if k + 1 < |fetched| {
      assert FollowsAt(fetched, first, k + 1);
      TilesReach(fetched, first, cursor, k + 1);
    }
  }

  lemma {:induction false} TilesStartAfter(fetched: seq<Range>, first: int, cursor: int, k: nat)
    requires Tiles(fetched, first, cursor) && k < |fetched|
    ensures first < fetched[k].fromBlock
  {
    assert FollowsAt(fetched, first, k);
    if k > 0 {
      assert FollowsAt(fetched, first, k - 1);
      TilesStartAfter(fetched, first, cursor, k - 1);
    }
  }

  lemma {:induction false} TilesCover(fetched: seq<Range>, first: int, cursor: int, block: int) returns (k: nat)
    requires Tiles(fetched, first, cursor) && first < block <= cursor
    ensures k < |fetched| && Holds(fetched[k], block)
  {
    k := |fetched| - 1;
    assert FollowsAt(fetched, first, k);
    while block < fetched[k].fromBlock
      invariant k < |fetched| && block <= fetched[k].toBlock && FollowsAt(fetched, first, k)
      decreases k
    {
      assert FollowsAt(fetched, first, k - 1);
      k := k - 1;
    }
  }

  /** Exactly once: at every point of every run a block has been fetched if and only if it lies
      behind the first head seen and not behind the cursor, and then by one range only. */
  lemma {:induction false} ExactlyOnce(pollingInterval: nat, events: seq<Event>, states: seq<State>, i: nat, block: int)
    requires IsRun(pollingInterval, events, states) && i <= |events|
    ensures var s := states[i];
      && ((exists k :: 0 <= k < |s.fetched| && Holds(s.fetched[k], block)) <==> s.firstHead < block <= s.blockNumber)
      && forall j, k :: 0 <= j < k < |s.fetched| ==> !(Holds(s.fetched[j], block) && Holds(s.fetched[k], block))
  {
    var s := states[i];
    RunKeepsInv(pollingInterval, events, states, i);
    forall k | 0 <= k < |s.fetched|
      ensures s.firstHead < s.fetched[k].fromBlock && s.fetched[k].toBlock <= s.blockNumber
      ensures forall j :: k < j < |s.fetched| ==> s.fetched[k].toBlock < s.fetched[j].fromBlock
    {
      TilesReach(s.fetched, s.firstHead, s.blockNumber, k);
    }
    if s.firstHead < block <= s.blockNumber {
      var k := TilesCover(s.fetched, s.firstHead, s.blockNumber, block);
      assert Holds(s.fetched[k], block);
    }
  }

  // ---------- the subscriber ----------

  class BatchedPollingEventSubscriber {
    const pollingInterval: nat
    var running: bool
    var blockNumber: int
    var pollTimer: Option<nat>
    var polling: bool
    var errorBackoff: nat

    // The event loop's side: the wait of the poll in flight, and the timers.
    var waiting: Waiting
    var pending: set<nat>
    var nextTimer: nat

    ghost var fetched: seq<Range>
    ghost var firstHead: int

    ghost function Now(): State
      reads this
    {
      State(running, blockNumber, pollTimer, polling, errorBackoff, waiting, pending, nextTimer, fetched, firstHead)
    }

    constructor (pollingInterval: nat)
      requires pollingInterval > 0
      ensures Now() == INITIAL && Inv(Now()) && this.pollingInterval == pollingInterval
    {
      this.pollingInterval := pollingInterval;
      running, blockNumber, pollTimer, polling, errorBackoff := false, NOT_STARTED, None, false, 0;
      waiting, pending, nextTimer := Nowhere, {}, 0;
      fetched, firstHead := [], NOT_STARTED;
    }

    method ClearPollTimer()
      modifies this`pollTimer, this`pending
      ensures Now() == ClearTimer(old(Now()))
    {
      if pollTimer.Some? {
        pending := pending - {pollTimer.value};
        pollTimer := None;
      }
    }

    method SchedulePoll()
      modifies this`pollTimer, this`pending, this`nextTimer
      ensures Now() == Scheduled(old(Now()))
    {
      if !running {
        return;
      }
      ClearPollTimer();
      pollTimer, pending, nextTimer := Some(nextTimer), pending + {nextTimer}, nextTimer + 1;
    }

    /** `#poll` up to its first wait, which is for the head. */
    method Poll()
      modifies this`polling, this`waiting, this`pollTimer, this`pending, this`nextTimer
      ensures Now() == Polled(old(Now()))
    {
      if !running {
        return;
      }
      if polling {
        SchedulePoll();
        return;
      }
      polling := true;
      waiting := ForHead;
    }

    method StartPolling()
      requires Inv(Now())
      modifies this
      ensures Now() == Next(pollingInterval, old(Now()), Start) && Inv(Now())
    {
      NextKeepsInv(pollingInterval, Now(), Start);
      if running {
        return;
      }
      running := true;
      Poll();
    }

    method StopPolling()
      requires Inv(Now())
      modifies this
      ensures Now() == Next(pollingInterval, old(Now()), Stop) && Inv(Now())
    {
      NextKeepsInv(pollingInterval, Now(), Stop);
      if !running {
        return;
      }
      running := false;
      ClearPollTimer();
    }

    method OnTimer(timer: nat)
      requires Inv(Now()) && timer in pending
      modifies this
      ensures Now() == Next(pollingInterval, old(Now()), TimerFires(timer)) && Inv(Now())
    {
      NextKeepsInv(pollingInterval, Now(), TimerFires(timer));
      pending := pending - {timer};
      Poll();
    }

    /** The rest of `#poll` once the head is known. */
    method OnHead(head: nat)
      requires Inv(Now()) && waiting.ForHead?
      modifies this
      ensures Now() == Next(pollingInterval, old(Now()), HeadArrives(head)) && Inv(Now())
    {
      NextKeepsInv(pollingInterval, Now(), HeadArrives(head));
      if blockNumber == NOT_STARTED {
        blockNumber, firstHead := head, head;
        SchedulePoll();
        polling, waiting := false, Nowhere;
        return;
      }
      if head <= blockNumber {
        SchedulePoll();
        polling, waiting := false, Nowhere;
        return;
      }
      FetchFrom(blockNumber + 1, head);
    }

    /** The head of the fetch loop: request the next range, or leave. */
    method FetchFrom(currentFrom: int, head: nat)
      modifies this`polling, this`waiting, this`errorBackoff, this`pollTimer, this`pending, this`nextTimer
      ensures Now() == Fetching(old(Now()), currentFrom, head)
    {
      if currentFrom <= head && running {
        var currentTo := currentFrom + MAX_BATCH_BLOCKS - 1;
        if head < currentTo {
          currentTo := head;
        }
        waiting := ForLogs(Range(currentFrom, currentTo), head);
        return;
      }
      errorBackoff := 0;
      polling, waiting := false, Nowhere;
      SchedulePoll();
    }

    method OnLogs()
      requires Inv(Now()) && waiting.ForLogs?
      modifies this
      ensures Now() == Next(pollingInterval, old(Now()), LogsArrive) && Inv(Now())
    {
      NextKeepsInv(pollingInterval, Now(), LogsArrive);
      var range, head := waiting.range, waiting.head;
      fetched := fetched + [range];
      blockNumber := range.toBlock;
      FetchFrom(range.toBlock + 1, head);
    }

    /** The request in flight fails: back off. */
    method OnError()
      requires Inv(Now()) && !waiting.Nowhere?
      modifies this
      ensures Now() == Next(pollingInterval, old(Now()), RequestFails) && Inv(Now())
    {
      NextKeepsInv(pollingInterval, Now(), RequestFails);
      errorBackoff := Backoff(errorBackoff, pollingInterval);
      polling, waiting := false, Nowhere;
      SchedulePoll();
    }
  }
}
