/** `QueueingStreamingSocket` (packages/iov-socket/src/queueingstreamingsocket.ts).

    Every activation of `processQueue` that is suspended at its `await` waits for one send, so
    the suspended activations are the pending entries of `sends`, the log of all calls of
    `socket.send`. Resuming an activation is the event that its send succeeds or fails. */
module RequestQueue {
  import opened Sequences
  import opened SendLog

  datatype ConnectionStatus = Unconnected | Connecting | Connected | Disconnected

  datatype State = State(queue: seq<string>, isProcessingQueue: bool, status: ConnectionStatus, sends: seq<Send>)

  datatype Event =
    | QueueRequest(request: string)
    | StatusChange(status: ConnectionStatus)
    | SendSucceeds(send: nat)
    | SendFails(send: nat)

  // ----- The steps between two awaits ---------------------------------------------------------

  /** The loop head: takes the next request and calls `send`; ends on no request and on "". */
  ghost function SendNext(s: State): State {
    if s.queue == [] then s
    else if s.queue[0] == "" then s.(queue := s.queue[1..])
    else s.(queue := s.queue[1..], sends := s.sends + [Send(s.queue[0], Pending)])
  }

  ghost function ProcessQueue(s: State): State {
    if s.isProcessingQueue || s.status != Connected then s else SendNext(s.(isProcessingQueue := true))
  }

  ghost predicate IsPending(s: State, send: nat) {
    send < |s.sends| && s.sends[send].outcome == Pending
  }

  ghost function Resolve(s: State, send: nat, outcome: Outcome): State
    requires IsPending(s, send)
  {
    s.(sends := s.sends[send := s.sends[send].(outcome := outcome)], isProcessingQueue := false)
  }

  /** Only a pending send can succeed or fail. */
  ghost function Step(s: State, e: Event): State {
    match e
    case QueueRequest(request) => ProcessQueue(s.(queue := s.queue + [request]))
    case StatusChange(status) =>
      var t := s.(status := status);
      if status == Connected then ProcessQueue(t) else t
    case SendSucceeds(send) =>
      if IsPending(s, send) then SendNext(Resolve(s, send, Delivered)) else s
    case SendFails(send) =>
      if IsPending(s, send)
      then Resolve(s, send, Failed).(queue := [s.sends[send].request] + s.queue)
      else s
  }

  const INITIAL := State([], false, Unconnected, [])

  ghost function Run(events: seq<Event>): State {
    if events == [] then INITIAL else Step(Run(events[..|events| - 1]), events[|events| - 1])
  }

  // ----- The object -----------------------------------------------------------------------------

  class QueueingStreamingSocket {
    var queue: seq<string>
    var isProcessingQueue: bool
    var connectionStatus: ConnectionStatus
    /** The calls of `send` and what became of the promises they returned. */
    var sends: seq<Send>

    ghost function Abs(): State
      reads this
    {
      State(queue, isProcessingQueue, connectionStatus, sends)
    }

    constructor ()
      ensures Abs() == INITIAL
    {
      queue, isProcessingQueue, connectionStatus, sends := [], false, Unconnected, [];
    }

    method ContinueLoop()
      modifies this`queue, this`sends
      ensures Abs() == SendNext(old(Abs()))
    {
      if queue == [] {
        return;
      }
      var request := queue[0];
      queue := queue[1..];
      if request == "" {
        return;
      }
      sends := sends + [Send(request, Pending)];
    }

    method StartProcessQueue()
      modifies this`queue, this`sends, this`isProcessingQueue
      ensures Abs() == ProcessQueue(old(Abs()))
    {
      if isProcessingQueue || connectionStatus != Connected {
        return;
      }
      isProcessingQueue := true;
      ContinueLoop();
    }

    method Enqueue(request: string)
      modifies this
      ensures Abs() == Step(old(Abs()), QueueRequest(request))
    {
      queue := queue + [request];
      StartProcessQueue();
    }

    /** The status updates of `connect`, `disconnect` and the socket's events. */
    method UpdateStatus(status: ConnectionStatus)
      modifies this
      ensures Abs() == Step(old(Abs()), StatusChange(status))
    {
      connectionStatus := status;
      if status == Connected {
        StartProcessQueue();
      }
    }

    method ResumeAfterSuccess(send: nat)
      requires IsPending(Abs(), send)
      modifies this
      ensures Abs() == Step(old(Abs()), SendSucceeds(send))
    {
      sends := sends[send := sends[send].(outcome := Delivered)];
      isProcessingQueue := false;
      ContinueLoop();
    }

    method ResumeAfterFailure(send: nat)
      requires IsPending(Abs(), send)
      modifies this
      ensures Abs() == Step(old(Abs()), SendFails(send))
    {
      queue := [sends[send].request] + queue;
      sends := sends[send := sends[send].(outcome := Failed)];
      isProcessingQueue := false;
    }
  }

  // ----- Nothing is lost or duplicated -------------------------------------------------------------

  /** The arguments of all calls of `queueRequest`, in order. */
  ghost function Requested(events: seq<Event>): seq<string> {
    if events == [] then []
    else
      var last := events[|events| - 1];
      var before := Requested(events[..|events| - 1]);
      if last.QueueRequest? then before + [last.request] else before
  }

  /** Delivered, in flight and waiting. */
  ghost function Account(s: State, r: string): nat {
    SendCount(s.sends, Delivered, r) + SendCount(s.sends, Pending, r) + multiset(s.queue)[r]
  }

  lemma SendNextKeepsAccount(s: State, r: string)
    requires r != ""
    ensures Account(SendNext(s), r) == Account(s, r)
  {
    if s.queue != [] {
      assert s.queue == [s.queue[0]] + s.queue[1..];
      assert SendNext(s).sends[..|s.sends|] == s.sends;
    }
  }

  lemma ResolveChangesAccount(s: State, send: nat, outcome: Outcome, r: string)
    requires IsPending(s, send) && outcome != Pending
    ensures Account(Resolve(s, send, outcome), r) + One(outcome == Failed && r == s.sends[send].request)
      == Account(s, r)
  {
    var resolved := s.sends[send].(outcome := outcome);
    SendCountUpdated(s.sends, send, resolved, Delivered, r);
    SendCountUpdated(s.sends, send, resolved, Pending, r);
  }

  lemma StepKeepsAccount(s: State, e: Event, r: string)
    requires r != ""
    ensures Account(Step(s, e), r) == Account(s, r) + One(e == QueueRequest(r))
  {
    match e
    case QueueRequest(request) =>
      SendNextKeepsAccount(s.(queue := s.queue + [request], isProcessingQueue := true), r);
    case StatusChange(status) =>
      SendNextKeepsAccount(s.(status := status, isProcessingQueue := true), r);
    case SendSucceeds(send) =>
      if IsPending(s, send) {
        ResolveChangesAccount(s, send, Delivered, r);
        SendNextKeepsAccount(Resolve(s, send, Delivered), r);
      }
    case SendFails(send) =>
      if IsPending(s, send) {
        ResolveChangesAccount(s, send, Failed, r);
      }
  }

  /** For any run of overlapping activations, status changes, successes and failures: each non-empty
      request was queued as often as it has been delivered, is in flight or is waiting. */
  lemma {:induction false} RequestsAreConserved(events: seq<Event>, request: string)
    requires request != ""
    ensures
      var s := Run(events);
      multiset(Requested(events))[request] ==
      SendCount(s.sends, Delivered, request) + SendCount(s.sends, Pending, request) + multiset(s.queue)[request]
  {
    if events != [] {
      var before, last := events[..|events| - 1], events[|events| - 1];
      RequestsAreConserved(before, request);
      StepKeepsAccount(Run(before), last, request);
    }
  }

  // ----- The order of requests -----------------------------------------------------------------------

  /** Requests reach the socket in queue order: those handed over come first, then those waiting. */
  ghost predicate InOrder(events: seq<Event>) {
    Live(Run(events).sends) + NonEmpty(Run(events).queue) == NonEmpty(Requested(events))
  }

  /** A send fails only if every later send has failed before. */
  ghost predicate OnlyNewestFails(events: seq<Event>) {
    events == [] ||
    var before, last := events[..|events| - 1], events[|events| - 1];
    && OnlyNewestFails(before)
    && (last.SendFails? && IsPending(Run(before), last.send) ==> IsNewest(Run(before).sends, last.send))
  }

  ghost function Order(s: State): seq<string> {
    Live(s.sends) + NonEmpty(s.queue)
  }

  lemma SendNextKeepsOrder(s: State)
    ensures Order(SendNext(s)) == Order(s)
  {
    if s.queue != [] {
      NonEmptyFront(s.queue);
      LiveAppend(s.sends, Send(s.queue[0], Pending));
    }
  }

  lemma {:induction false} SendsAreNonEmpty(events: seq<Event>)
    ensures forall i | 0 <= i < |Run(events).sends| :: Run(events).sends[i].request != ""
  {
    if events != [] {
      SendsAreNonEmpty(events[..|events| - 1]);
    }
  }

  lemma FailureOrder(s: State, send: nat)
    requires IsPending(s, send) && s.sends[send].request != ""
    ensures
      var a, b, r := Live(s.sends[..send]), Live(s.sends[send + 1..]), s.sends[send].request;
      && Order(s) == a + [r] + b + NonEmpty(s.queue)
      && Order(Step(s, SendFails(send))) == a + b + ([r] + NonEmpty(s.queue))
      && (b == [] <==> IsNewest(s.sends, send))
  {
    var r := s.sends[send].request;
    ResolveSplits(s.sends, send, s.sends[send].(outcome := Failed));
    NonEmptyFront([r] + s.queue);
    assert ([r] + s.queue)[1..] == s.queue;
    NewestIffNothingLater(s.sends, send);
  }

  lemma SuccessOrder(s: State, send: nat)
    requires IsPending(s, send)
    ensures Order(Step(s, SendSucceeds(send))) == Order(s)
  {
    ResolveSplits(s.sends, send, s.sends[send].(outcome := Delivered));
    SendNextKeepsOrder(Resolve(s, send, Delivered));
  }

  lemma ProcessQueueKeepsOrder(s: State)
    ensures Order(ProcessQueue(s)) == Order(s)
  {
    SendNextKeepsOrder(s.(isProcessingQueue := true));
  }

  lemma QueueRequestOrder(s: State, request: string)
    ensures Order(Step(s, QueueRequest(request))) == AppendIf(request != "", Order(s), request)
  {
    var queued := s.(queue := s.queue + [request]);
    ProcessQueueKeepsOrder(queued);
    assert Order(queued) == Live(s.sends) + NonEmpty(queued.queue);
    NonEmptyAppend(s.queue, request);
  }

  lemma StatusChangeOrder(s: State, status: ConnectionStatus)
    ensures Order(Step(s, StatusChange(status))) == Order(s)
  {
    ProcessQueueKeepsOrder(s.(status := status));
  }

  /** Only the failure of a send that is not the newest changes the order. */
  lemma StepOrder(s: State, e: Event)
    requires forall i | 0 <= i < |s.sends| :: s.sends[i].request != ""
    requires e.SendFails? && IsPending(s, e.send) ==> IsNewest(s.sends, e.send)
    ensures Order(Step(s, e)) == if e.QueueRequest? then AppendIf(e.request != "", Order(s), e.request) else Order(s)
  {
    match e
    case QueueRequest(request) =>
      QueueRequestOrder(s, request);
    case StatusChange(status) =>
      StatusChangeOrder(s, status);
    case SendSucceeds(send) =>
      if IsPending(s, send) {
        SuccessOrder(s, send);
      }
    case SendFails(send) =>
      if IsPending(s, send) {
        NewestFailureOrder(s, send);
      }
  }

  lemma NewestFailureOrder(s: State, send: nat)
    requires IsPending(s, send) && s.sends[send].request != "" && IsNewest(s.sends, send)
    ensures Order(Step(s, SendFails(send))) == Order(s)
  {
    FailureOrder(s, send);
  }

  lemma RequestedStep(events: seq<Event>)
    requires events != []
    ensures
      var last := events[|events| - 1];
      var before := NonEmpty(Requested(events[..|events| - 1]));
      NonEmpty(Requested(events)) ==
        if last.QueueRequest? then AppendIf(last.request != "", before, last.request) else before
  {
    var before, last := events[..|events| - 1], events[|events| - 1];
    if last.QueueRequest? {
      NonEmptyAppend(Requested(before), last.request);
    } else {
      assert Requested(events) == Requested(before);
    }
  }

  /** Without failures, or with failures of the newest send only, requests reach the socket in
      the order in which they were queued. */
  lemma {:induction false} KeepsQueueOrder(events: seq<Event>)
    requires OnlyNewestFails(events)
    ensures InOrder(events)
  {
    if events != [] {
      var before, last := events[..|events| - 1], events[|events| - 1];
      KeepsQueueOrder(before);
      SendsAreNonEmpty(before);
      StepOrder(Run(before), last);
      RequestedStep(events);
    }
  }

  lemma OutOfOrderFailure(before: seq<Event>, send: nat)
    requires InOrder(before) && NoDuplicates(NonEmpty(Requested(before)))
    requires IsPending(Run(before), send) && !IsNewest(Run(before).sends, send)
    ensures !InOrder(before + [SendFails(send)])
  {
    var s, events := Run(before), before + [SendFails(send)];
    assert events[..|before|] == before;
    SendsAreNonEmpty(before);
    FailureOrder(s, send);
    RequestedStep(events);
    Displaced(Live(s.sends[..send]), s.sends[send].request, Live(s.sends[send + 1..]), NonEmpty(s.queue));
  }

  lemma DistinctBefore(events: seq<Event>)
    requires events != [] && NoDuplicates(NonEmpty(Requested(events)))
    ensures NoDuplicates(NonEmpty(Requested(events[..|events| - 1])))
  {
    RequestedStep(events);
    var a, b := NonEmpty(Requested(events[..|events| - 1])), NonEmpty(Requested(events));
    assert a <= b;
  }

  /** The queue order holds after every event of the run. */
  ghost predicate AlwaysInOrder(events: seq<Event>) {
    InOrder(events) && (events == [] || AlwaysInOrder(events[..|events| - 1]))
  }

  /** For distinct requests, the queue order holds at every moment of a run if and only if no send
      fails while a later one is in flight or delivered. */
  lemma {:induction false} KeepsQueueOrderIff(events: seq<Event>)
    requires NoDuplicates(NonEmpty(Requested(events)))
    ensures AlwaysInOrder(events) <==> OnlyNewestFails(events)
  {
    if events != [] {
      var before, last := events[..|events| - 1], events[|events| - 1];
      assert events == before + [last];
      DistinctBefore(events);
      KeepsQueueOrderIff(before);
      if OnlyNewestFails(events) {
        KeepsQueueOrder(events);
      } else if OnlyNewestFails(before) {
        KeepsQueueOrder(before);
        OutOfOrderFailure(before, last.send);
      }
    } else {
      KeepsQueueOrder(events);
    }
  }

  lemma RunAppend(before: seq<Event>, e: Event)
    ensures Run(before + [e]) == Step(Run(before), e)
    ensures Requested(before + [e]) == if e.QueueRequest? then Requested(before) + [e.request] else Requested(before)
  {
    assert (before + [e])[..|before|] == before;
  }

  const OVERLAP := [QueueRequest("a"), StatusChange(Connected), QueueRequest("b"), SendSucceeds(0), QueueRequest("c")]

  const ONE_SEND := [QueueRequest("a"), StatusChange(Connected), QueueRequest("b")]

  lemma FirstRequestIsSent()
    ensures Run(ONE_SEND) == State(["b"], true, Connected, [Send("a", Pending)]) && Requested(ONE_SEND) == ["a", "b"]
  {
    var e1 := [QueueRequest("a")];
    var e2 := e1 + [StatusChange(Connected)];
    assert ONE_SEND == e2 + [QueueRequest("b")] && e1 == [] + [QueueRequest("a")];
    RunAppend([], QueueRequest("a"));
    RunAppend(e1, StatusChange(Connected));
    RunAppend(e2, QueueRequest("b"));
    assert Run(e1) == State(["a"], false, Unconnected, []);
    assert Run(e2) == State([], true, Connected, [Send("a", Pending)]);
  }

  /** The flag is released with every delivery, so that two activations wait for the sends of b and c. */
  lemma TwoActivationsOverlap()
    ensures Run(OVERLAP)
         == State([], true, Connected, [Send("a", Delivered), Send("b", Pending), Send("c", Pending)])
    ensures Requested(OVERLAP) == ["a", "b", "c"]
  {
    FirstRequestIsSent();
    var e4 := ONE_SEND + [SendSucceeds(0)];
    assert OVERLAP == e4 + [QueueRequest("c")];
    RunAppend(ONE_SEND, SendSucceeds(0));
    RunAppend(e4, QueueRequest("c"));
    assert Run(e4) == State([], false, Connected, [Send("a", Delivered), Send("b", Pending)]);
  }

  /** A run that breaks the queue order: when b then fails, it waits behind c, which has been sent. */
  lemma OverlapBreaksOrder()
    ensures
      var events := OVERLAP + [SendFails(1)];
      && Requested(events) == ["a", "b", "c"]
      && Run(events) == State(["b"], false, Connected, [Send("a", Delivered), Send("b", Failed), Send("c", Pending)])
      && InOrder(OVERLAP) && !InOrder(events)
  {
    TwoActivationsOverlap();
    OverlapInOrder();
    OutOfOrderFailure(OVERLAP, 1);
    SecondSendFails();
  }

  lemma SecondSendFails()
    ensures
      var events := OVERLAP + [SendFails(1)];
      && Requested(events) == ["a", "b", "c"]
      && Run(events) == State(["b"], false, Connected, [Send("a", Delivered), Send("b", Failed), Send("c", Pending)])
  {
    TwoActivationsOverlap();
    RunAppend(OVERLAP, SendFails(1));
  }

  lemma OverlapInOrder()
    ensures InOrder(OVERLAP) && NonEmpty(Requested(OVERLAP)) == ["a", "b", "c"]
  {
    TwoActivationsOverlap();
    LiveWithoutFailures([Send("a", Delivered), Send("b", Pending), Send("c", Pending)], ["a", "b", "c"]);
    AllNonEmpty(["a", "b", "c"]);
    AppendNothing(["a", "b", "c"]);
  }

  // ----- When the queue stalls -----------------------------------------------------------------------

  /** The flag is set, but no activation is left that would clear it. */
  ghost predicate Stalled(s: State) {
    s.isProcessingQueue && forall i | 0 <= i < |s.sends| :: s.sends[i].outcome != Pending
  }

  ghost function RunFrom(s: State, events: seq<Event>): State {
    if events == [] then s else Step(RunFrom(s, events[..|events| - 1]), events[|events| - 1])
  }

  /** A stalled queue never sends again, whatever is queued and however often it reconnects. */
  lemma {:induction false} StalledForever(s: State, events: seq<Event>)
    requires Stalled(s)
    ensures Stalled(RunFrom(s, events)) && RunFrom(s, events).sends == s.sends
    ensures RunFrom(s, events).queue == s.queue + Requested(events)
  {
    if events != [] {
      StalledForever(s, events[..|events| - 1]);
    }
  }

  /** The queue stalls exactly when an activation starts on an empty queue, or on one whose first
      request is empty, while no send is in flight. */
  lemma StallsIff(s: State, e: Event)
    requires !Stalled(s)
    ensures
      var queue := if e.QueueRequest? then s.queue + [e.request] else s.queue;
      var activates := (e.QueueRequest? && s.status == Connected) || e == StatusChange(Connected);
      Stalled(Step(s, e)) <==>
        && activates && !s.isProcessingQueue
        && (queue == [] || queue[0] == "")
        && (forall i | 0 <= i < |s.sends| :: s.sends[i].outcome != Pending)
  {
    var t := Step(s, e);
    if |t.sends| > |s.sends| {
      assert t.sends[|s.sends|].outcome == Pending;
    }
    if e.SendSucceeds? || e.SendFails? {
      assert IsPending(s, e.send) ==> !t.isProcessingQueue;
    }
  }

  /** An empty request ends the activation that takes it. It is gone, and when no send is in flight the requests
      behind it wait for ever. */
  lemma {:induction false} EmptyRequestStalls(s: State, events: seq<Event>)
    requires s.queue != [] && s.queue[0] == "" && !s.isProcessingQueue
    requires forall i | 0 <= i < |s.sends| :: s.sends[i].outcome != Pending
    ensures
      var t := RunFrom(Step(s, StatusChange(Connected)), events);
      t.sends == s.sends && t.queue == s.queue[1..] + Requested(events)
  {
    StalledForever(Step(s, StatusChange(Connected)), events);
  }

  /** Connecting before the first request stalls the queue: nothing is ever sent. */
  lemma ConnectingWithoutRequestsStalls(events: seq<Event>)
    ensures RunFrom(Run([StatusChange(Connecting), StatusChange(Connected)]), events).sends == []
  {
    var connecting, connected := [StatusChange(Connecting)], [StatusChange(Connecting), StatusChange(Connected)];
    assert connecting[..0] == [] && connected[..1] == connecting;
    assert Run(connecting) == State([], false, Connecting, []);
    assert Run(connected) == State([], true, Connected, []);
    StalledForever(Run(connected), events);
  }
}

/** The log of all calls of `socket.send`, and the requests in it. */
module SendLog {
  import opened Sequences

  datatype Outcome = Pending | Delivered | Failed

  datatype Send = Send(request: string, outcome: Outcome)

  ghost function One(condition: bool): nat {
    if condition then 1 else 0
  }

  /** How many sends of a request had the given outcome. */
  ghost function SendCount(sends: seq<Send>, outcome: Outcome, request: string): nat {
    if sends == [] then 0
    else SendCount(sends[..|sends| - 1], outcome, request) + One(sends[|sends| - 1] == Send(request, outcome))
  }

  lemma {:induction false} SendCountUpdated(sends: seq<Send>, i: nat, send: Send, o: Outcome, r: string)
    requires i < |sends|
    ensures SendCount(sends[i := send], o, r) + One(sends[i] == Send(r, o))
         == SendCount(sends, o, r) + One(send == Send(r, o))
  {
    var updated, n := sends[i := send], |sends| - 1;
    if i == n {
      assert updated[..n] == sends[..n];
    } else {
      assert updated[..n] == sends[..n][i := send];
      SendCountUpdated(sends[..n], i, send, o, r);
    }
  }

  ghost function NonEmpty(requests: seq<string>): seq<string> {
    if requests == [] then []
    else
      var last := requests[|requests| - 1];
      AppendIf(last != "", NonEmpty(requests[..|requests| - 1]), last)
  }

  /** The requests that were handed to the socket and not given back, in the order of the calls. */
  ghost function Live(sends: seq<Send>): seq<string> {
    if sends == [] then []
    else
      var last := sends[|sends| - 1];
      AppendIf(last.outcome != Failed, Live(sends[..|sends| - 1]), last.request)
  }

  ghost predicate IsNewest(sends: seq<Send>, send: nat) {
    forall i | send < i < |sends| :: sends[i].outcome == Failed
  }

  lemma {:induction false} NonEmptyConcatenation(a: seq<string>, b: seq<string>)
    ensures NonEmpty(a + b) == NonEmpty(a) + NonEmpty(b)
  {
    if b == [] {
      assert a + b == a;
    } else {
      assert (a + b)[..|a + b| - 1] == a + b[..|b| - 1];
      NonEmptyConcatenation(a, b[..|b| - 1]);
    }
  }

  lemma NonEmptyAppend(requests: seq<string>, request: string)
    ensures NonEmpty(requests + [request]) == AppendIf(request != "", NonEmpty(requests), request)
  {
    assert (requests + [request])[..|requests|] == requests;
  }

  lemma NonEmptyFront(queue: seq<string>)
    requires queue != []
    ensures NonEmpty(queue) == (if queue[0] == "" then [] else [queue[0]]) + NonEmpty(queue[1..])
  {
    NonEmptyConcatenation([queue[0]], queue[1..]);
    assert [queue[0]] + queue[1..] == queue;
    NonEmptyAppend([], queue[0]);
    assert [] + [queue[0]] == [queue[0]];
  }

  lemma LiveAppend(sends: seq<Send>, send: Send)
    ensures Live(sends + [send]) == Live(sends) + if send.outcome == Failed then [] else [send.request]
  {
    assert (sends + [send])[..|sends|] == sends;
  }

  lemma {:induction false} LiveConcatenation(a: seq<Send>, b: seq<Send>)
    ensures Live(a + b) == Live(a) + Live(b)
  {
    if b == [] {
      AppendNothing(a);
      AppendNothing(Live(a));
    } else {
      var before, last := b[..|b| - 1], b[|b| - 1];
      assert (a + b)[..|a + b| - 1] == a + before;
      LiveConcatenation(a, before);
    }
  }

  lemma LiveBetween(before: seq<Send>, send: Send, after: seq<Send>)
    ensures Live(before + [send] + after) == AppendIf(send.outcome != Failed, Live(before), send.request) + Live(after)
  {
    LiveConcatenation(before + [send], after);
    LiveAppend(before, send);
  }

  lemma SplitAround<T>(s: seq<T>, i: nat)
    requires i < |s|
    ensures s == s[..i] + [s[i]] + s[i + 1..]
  {
  }

  lemma {:induction false} LiveOfFailed(sends: seq<Send>)
    ensures Live(sends) == [] <==> forall i | 0 <= i < |sends| :: sends[i].outcome == Failed
  {
    if sends != [] {
      var before, last := sends[..|sends| - 1], sends[|sends| - 1];
      LiveOfFailed(before);
      LiveAppend(before, last);
      assert sends == before + [last];
    }
  }

  lemma NewestIffNothingLater(sends: seq<Send>, i: nat)
    requires i < |sends|
    ensures Live(sends[i + 1..]) == [] <==> IsNewest(sends, i)
  {
    var later := sends[i + 1..];
    LiveOfFailed(later);
    assert forall k | 0 <= k < |later| :: later[k] == sends[i + 1 + k];
    if forall k | 0 <= k < |later| :: later[k].outcome == Failed {
      forall k | i < k < |sends|
        ensures sends[k].outcome == Failed
      {
        assert later[k - i - 1] == sends[k];
      }
    }
  }

  lemma Displaced(a: seq<string>, r: string, b: seq<string>, c: seq<string>)
    requires b != [] && NoDuplicates(a + [r] + b + c)
    ensures a + b + ([r] + c) != a + [r] + b + c
  {
    var before, after := a + [r] + b + c, a + b + ([r] + c);
    assert before[|a|] == r && before[|a| + 1] == b[0];
    assert after[|a|] == b[0];
  }

  lemma {:induction false} LiveWithoutFailures(sends: seq<Send>, requests: seq<string>)
    requires |requests| == |sends|
    requires forall i | 0 <= i < |sends| :: sends[i].outcome != Failed && sends[i].request == requests[i]
    ensures Live(sends) == requests
  {
    if sends != [] {
      var n := |sends| - 1;
      LiveWithoutFailures(sends[..n], requests[..n]);
      assert requests == requests[..n] + [requests[n]];
    }
  }

  lemma {:induction false} AllNonEmpty(requests: seq<string>)
    requires forall i | 0 <= i < |requests| :: requests[i] != ""
    ensures NonEmpty(requests) == requests
  {
    if requests != [] {
      var n := |requests| - 1;
      AllNonEmpty(requests[..n]);
      assert requests == requests[..n] + [requests[n]];
    }
  }

  /** Resolving a send keeps its request where it is, or takes it out. */
  lemma ResolveSplits(sends: seq<Send>, i: nat, resolved: Send)
    requires i < |sends| && sends[i].outcome == Pending && resolved.request == sends[i].request
    ensures
      var a, b, r := Live(sends[..i]), Live(sends[i + 1..]), sends[i].request;
      && Live(sends) == a + [r] + b
      && Live(sends[i := resolved]) == if resolved.outcome == Failed then a + b else a + [r] + b
  {
    SplitAround(sends, i);
    SplitAround(sends[i := resolved], i);
    LiveBetween(sends[..i], sends[i], sends[i + 1..]);
    LiveBetween(sends[..i], resolved, sends[i + 1..]);
  }
}
