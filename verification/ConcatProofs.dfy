/** Every interleaving of the source streams gives the listener of `concat` the
    concatenation of what the streams sent, in stream order. */
module ConcatProofs {
  import opened Sequences
  import opened ConcatStream

  ghost predicate AllDefined<T>(queue: seq<Value<T>>) {
    forall i | 0 <= i < |queue| :: queue[i].Defined?
  }

  lemma {:induction false} DrainOfDefined<T>(queue: seq<Value<T>>)
    requires AllDefined(queue)
    ensures DrainEmitted(queue) == queue && DrainRest(queue) == []
  {
    if queue != [] {
      DrainOfDefined(queue[1..]);
    }
  }

  /** Draining takes out the values before the first `undefined` and that `undefined`; what is behind it stays. */
  lemma {:induction false} DrainStopsAtUndefined<T>(values: seq<Value<T>>, rest: seq<Value<T>>)
    requires AllDefined(values)
    ensures DrainEmitted(values + [Undefined] + rest) == values
    ensures DrainRest(values + [Undefined] + rest) == rest
  {
    var queue := values + [Undefined] + rest;
    if values != [] {
      assert queue[1..] == values[1..] + [Undefined] + rest;
      DrainStopsAtUndefined(values[1..], rest);
    }
  }

  ghost predicate AllIn(n: nat, completed: set<nat>) {
    forall i: nat | i < n :: i in completed
  }

  /** What the first k streams have sent, stream by stream. */
  ghost function Below<T>(received: seq<seq<Value<T>>>, k: nat): seq<Value<T>>
    requires k <= |received|
  {
    if k == 0 then [] else Below(received, k - 1) + received[k - 1]
  }

  /** The queues of the streams after the active one hold all those streams have sent. */
  ghost predicate Buffered<T>(s: State<T>, received: seq<seq<Value<T>>>, from: nat)
    requires |received| == |s.queues|
  {
    forall i | from <= i < |s.queues| :: s.queues[i] == received[i] && AllDefined(s.queues[i])
  }

  /** The state in terms of which streams have completed and what each has sent. */
  ghost predicate Invariant<T>(n: nat, s: State<T>, completed: set<nat>, received: seq<seq<Value<T>>>) {
    && Consistent(n, s) && |received| == n
    && s.completed == completed
    && s.active == FirstOpen(n, completed, 0)
    && s.emitted == Below(received, if s.active < n then s.active + 1 else n)
    && (s.active < n ==> s.queues[s.active] == [])
    && Buffered(s, received, s.active + 1)
    && s.completions == if s.active == n then 1 else 0
  }

  /** During the loop of the `complete` handler the queue of the active stream is still to be emitted. */
  ghost predicate Advancing<T>(n: nat, s: State<T>, received: seq<seq<Value<T>>>) {
    && Consistent(n, s) && |received| == n
    && (s.active < n ==> AllDefined(s.queues[s.active]))
    && (s.active < n ==> s.emitted + s.queues[s.active] == Below(received, s.active + 1))
    && (s.active == n ==> s.emitted == Below(received, n))
    && Buffered(s, received, s.active + 1)
  }

  lemma OneTurn<T>(n: nat, s: State<T>, received: seq<seq<Value<T>>>)
    requires Advancing(n, s, received) && s.active < n
    ensures Advancing(n, Drained(s, s.active).(active := s.active + 1), received)
  {
    DrainOfDefined(s.queues[s.active]);
  }

  /** One turn of the loop empties one queue behind what has been emitted. */
  lemma {:induction false} AdvanceEmits<T>(n: nat, s: State<T>, received: seq<seq<Value<T>>>)
    requires Advancing(n, s, received)
    ensures
      var a := Advance(n, s);
      && Advancing(n, a, received)
      && a.completed == s.completed && a.completions == s.completions
      && a.active == FirstOpen(n, s.completed, s.active)
    decreases n - s.active
  {
    if s.active in s.completed {
      OneTurn(n, s, received);
      AdvanceEmits(n, Drained(s, s.active).(active := s.active + 1), received);
    }
  }

  lemma {:induction false} BelowUpdate<T>(received: seq<seq<Value<T>>>, i: nat, sent: seq<Value<T>>, k: nat)
    requires k <= i < |received|
    ensures Below(received[i := sent], k) == Below(received, k)
  {
    if k > 0 {
      BelowUpdate(received, i, sent, k - 1);
    }
  }

  lemma NextOfActive<T>(n: nat, s: State<T>, completed: set<nat>, received: seq<seq<Value<T>>>, value: Value<T>)
    requires Invariant(n, s, completed, received) && s.active < n
    ensures
      var i := s.active;
      Invariant(n, OnNext(s, i, value), completed, received[i := received[i] + [value]])
  {
    var i := s.active;
    BelowUpdate(received, i, received[i] + [value], i);
  }

  lemma NextOfOther<T>(n: nat, s: State<T>, completed: set<nat>, received: seq<seq<Value<T>>>, i: nat, value: Value<T>)
    requires Invariant(n, s, completed, received) && s.active < i < n && value.Defined?
    ensures Invariant(n, OnNext(s, i, value), completed, received[i := received[i] + [value]])
  {
    BelowUpdate(received, i, received[i] + [value], s.active + 1);
  }

  lemma CompleteKeepsInvariant<T>(n: nat, s: State<T>, completed: set<nat>, received: seq<seq<Value<T>>>, i: nat)
    requires Invariant(n, s, completed, received) && i < n && i !in completed
    ensures Invariant(n, OnComplete(n, s, i), completed + {i}, received)
  {
    CompleteAdvances(n, s, completed, received, i);
    var a := Advance(n, s.(completed := s.completed + {i}));
    if a.active < n {
      DrainOfDefined(a.queues[a.active]);
    }
  }

  /** Where the loop of the `complete` handler stops. */
  lemma CompleteAdvances<T>(n: nat, s: State<T>, completed: set<nat>, received: seq<seq<Value<T>>>, i: nat)
    requires Invariant(n, s, completed, received) && i < n && i !in completed
    ensures
      var a := Advance(n, s.(completed := s.completed + {i}));
      && Advancing(n, a, received) && a.completed == completed + {i} && a.completions == 0
      && a.active == FirstOpen(n, completed + {i}, 0)
  {
    var marked := s.(completed := s.completed + {i});
    AppendNothing(s.emitted);
    AdvanceEmits(n, marked, received);
  }

  // ----- From what was received to the events -------------------------------------------------

  ghost function AllReceived<T>(n: nat, events: seq<Event<T>>): (received: seq<seq<Value<T>>>)
    ensures |received| == n
  {
    seq(n, i requires 0 <= i < n => Received(events, i))
  }

  lemma ReceivedAppend<T>(before: seq<Event<T>>, e: Event<T>, i: nat)
    ensures CompletedIn(before + [e]) == if e.Complete? then CompletedIn(before) + {e.stream} else CompletedIn(before)
    ensures Received(before + [e], i) ==
      if e.Next? && e.stream == i then Received(before, i) + [e.value] else Received(before, i)
  {
    FrontOfAppend(before, e);
  }

  lemma AllReceivedAppend<T>(n: nat, before: seq<Event<T>>, e: Event<T>)
    requires e.stream < n
    ensures
      var received := AllReceived(n, before);
      AllReceived(n, before + [e]) ==
        if e.Next? then received[e.stream := received[e.stream] + [e.value]] else received
  {
    forall i: nat | i < n { ReceivedAppend(before, e, i); }
  }

  lemma {:induction false} BelowIsReceivedBelow<T>(n: nat, events: seq<Event<T>>, k: nat)
    requires k <= n
    ensures Below(AllReceived(n, events), k) == ReceivedBelow(events, k)
  {
    if k == 1 {
      AppendNothing(Received(events, 0));
    } else if k > 1 {
      BelowIsReceivedBelow(n, events, k - 1);
    }
  }

  lemma StepKeepsInvariant<T>(n: nat, before: seq<Event<T>>, last: Event<T>)
    requires WellFormed(n, before + [last]) && !last.Fail? && NeverBuffersUndefined(n, before + [last])
    requires WellFormed(n, before) && !Failed(before)
      && Invariant(n, Run(n, before), CompletedIn(before), AllReceived(n, before))
    ensures
      var events := before + [last];
      Invariant(n, Run(n, events), CompletedIn(events), AllReceived(n, events))
  {
    FrontOfAppend(before, last);
    ReceivedAppend(before, last, 0);
    AllReceivedAppend(n, before, last);
    var s, completed, received := Run(n, before), CompletedIn(before), AllReceived(n, before);
    match last
    case Next(i, value) =>
      if i == s.active {
        NextOfActive(n, s, completed, received, value);
      } else {
        NextOfOther(n, s, completed, received, i, value);
      }
    case Complete(i) => CompleteKeepsInvariant(n, s, completed, received, i);
  }

  lemma {:induction false} RunKeepsInvariant<T>(n: nat, events: seq<Event<T>>)
    requires WellFormed(n, events) && !Failed(events) && NeverBuffersUndefined(n, events)
    ensures Invariant(n, Run(n, events), CompletedIn(events), AllReceived(n, events))
  {
    if events == [] {
      assert AllReceived(n, events) == seq(n, _ => []);
    } else {
      var before, last := events[..|events| - 1], events[|events| - 1];
      assert events == before + [last];
      RunKeepsInvariant(n, before);
      StepKeepsInvariant(n, before, last);
    }
  }

  /** At every moment of every run the listener has seen everything sent by the streams before
      the first one still open, then everything sent by that one; completion has been signalled
      once if all streams have completed and not at all otherwise. */
  lemma EmitsInStreamOrder<T>(n: nat, events: seq<Event<T>>)
    requires WellFormed(n, events) && !Failed(events) && NeverBuffersUndefined(n, events)
    ensures
      var s, open := Run(n, events), FirstOpen(n, CompletedIn(events), 0);
      && s.emitted == ReceivedBelow(events, if open < n then open + 1 else n)
      && s.completions == (if AllIn(n, CompletedIn(events)) then 1 else 0)
      && s.failures == 0
  {
    RunKeepsInvariant(n, events);
    NoFailures(n, events);
    var open := FirstOpen(n, CompletedIn(events), 0);
    BelowIsReceivedBelow(n, events, if open < n then open + 1 else n);
  }

  lemma {:induction false} AdvanceKeepsLog<T>(n: nat, s: State<T>)
    requires Consistent(n, s)
    ensures Advance(n, s).failures == s.failures && Advance(n, s).completions == s.completions
    decreases n - s.active
  {
    if s.active in s.completed {
      AdvanceKeepsLog(n, Drained(s, s.active).(active := s.active + 1));
    }
  }

  lemma {:induction false} NoFailures<T>(n: nat, events: seq<Event<T>>)
    requires WellFormed(n, events) && !Failed(events)
    ensures Run(n, events).failures == 0
  {
    if events != [] {
      var before, last := events[..|events| - 1], events[|events| - 1];
      NoFailures(n, before);
      if last.Complete? {
        var s := Run(n, before);
        AdvanceKeepsLog(n, s.(completed := s.completed + {last.stream}));
      }
    }
  }

  // ----- Exactly which complete runs lose values --------------------------------------------

  ghost function DefinedIn<T>(queue: seq<Value<T>>): nat {
    if queue == [] then 0 else (if queue[0].Defined? then 1 else 0) + DefinedIn(queue[1..])
  }

  ghost function DefinedInAll<T>(queues: seq<seq<Value<T>>>): nat {
    if queues == [] then 0 else DefinedIn(queues[0]) + DefinedInAll(queues[1..])
  }

  ghost function NextCount<T>(events: seq<Event<T>>): nat {
    if events == [] then 0
    else NextCount(events[..|events| - 1]) + if events[|events| - 1].Next? then 1 else 0
  }

  /** How many times an `undefined` arrived out of turn. */
  ghost function BufferedUndefined<T>(n: nat, events: seq<Event<T>>): (r: nat)
    ensures r == 0 <==> NeverBuffersUndefined(n, events)
  {
    if events == [] then 0
    else
      var before, last := events[..|events| - 1], events[|events| - 1];
      BufferedUndefined(n, before) +
      if last.Next? && last.value.Undefined? && last.stream != FirstOpen(n, CompletedIn(before), 0) then 1 else 0
  }

  lemma {:induction false} DefinedAppend<T>(queue: seq<Value<T>>, v: Value<T>)
    ensures DefinedIn(queue + [v]) == DefinedIn(queue) + if v.Defined? then 1 else 0
  {
    if queue != [] {
      assert (queue + [v])[1..] == queue[1..] + [v];
      DefinedAppend(queue[1..], v);
    }
  }

  lemma {:induction false} DefinedUpdate<T>(queues: seq<seq<Value<T>>>, i: nat, queue: seq<Value<T>>)
    requires i < |queues|
    ensures DefinedInAll(queues[i := queue]) == DefinedInAll(queues) - DefinedIn(queues[i]) + DefinedIn(queue)
  {
    if i > 0 {
      assert queues[i := queue][1..] == queues[1..][i - 1 := queue];
      DefinedUpdate(queues[1..], i - 1, queue);
    } else {
      assert queues[i := queue][1..] == queues[1..];
    }
  }

  lemma {:induction false} DrainCounts<T>(queue: seq<Value<T>>)
    ensures |DrainEmitted(queue)| + DefinedIn(DrainRest(queue)) == DefinedIn(queue)
  {
    if queue != [] && queue[0].Defined? {
      DrainCounts(queue[1..]);
    }
  }

  /** Emitted values plus values that can still be emitted. */
  ghost function Accounted<T>(s: State<T>): nat {
    |s.emitted| + DefinedInAll(s.queues)
  }

  lemma DrainedAccounts<T>(s: State<T>, i: nat)
    requires i < |s.queues|
    ensures Accounted(Drained(s, i)) == Accounted(s)
  {
    DrainCounts(s.queues[i]);
    DefinedUpdate(s.queues, i, DrainRest(s.queues[i]));
  }

  lemma {:induction false} AdvanceAccounts<T>(n: nat, s: State<T>)
    requires Consistent(n, s)
    ensures
      var a := Advance(n, s);
      Accounted(a) == Accounted(s) && a.completed == s.completed && a.active == FirstOpen(n, s.completed, s.active)
    decreases n - s.active
  {
    if s.active in s.completed {
      DrainedAccounts(s, s.active);
      AdvanceAccounts(n, Drained(s, s.active).(active := s.active + 1));
    }
  }

  lemma {:induction false} InitialAccounts<T>(n: nat)
    ensures DefinedInAll<T>(seq(n, _ => [])) == 0
  {
    if n > 0 {
      assert seq<seq<Value<T>>>(n, _ => [])[1..] == seq<seq<Value<T>>>(n - 1, _ => []);
      InitialAccounts<T>(n - 1);
    }
  }

  lemma NextAccounts<T>(s: State<T>, i: nat, value: Value<T>)
    requires i < |s.queues|
    ensures
      var lost := i != s.active && value.Undefined?;
      Accounted(OnNext(s, i, value)) == if lost then Accounted(s) else Accounted(s) + 1
  {
    DefinedAppend(s.queues[i], value);
    DefinedUpdate(s.queues, i, s.queues[i] + [value]);
  }

  lemma CompleteAccounts<T>(n: nat, s: State<T>, i: nat)
    requires Consistent(n, s) && i < n && s.active == FirstOpen(n, s.completed, 0)
    ensures
      var r := OnComplete(n, s, i);
      && Accounted(r) == Accounted(s) && r.completed == s.completed + {i}
      && r.active == FirstOpen(n, s.completed + {i}, 0)
  {
    var marked := s.(completed := s.completed + {i});
    AdvanceAccounts(n, marked);
    var a := Advance(n, marked);
    if a.active < n {
      DrainedAccounts(a, a.active);
    }
  }

  /** Every value received is emitted, or can still be emitted, or is an `undefined` that arrived
      out of turn. */
  lemma {:induction false} ValuesAreAccountedFor<T>(n: nat, events: seq<Event<T>>)
    requires WellFormed(n, events) && !Failed(events)
    ensures
      var s := Run(n, events);
      && Accounted(s) + BufferedUndefined(n, events) == NextCount(events)
      && s.completed == CompletedIn(events)
      && s.active == FirstOpen(n, CompletedIn(events), 0)
  {
    if events == [] {
      InitialAccounts<T>(n);
    } else {
      var before, last := events[..|events| - 1], events[|events| - 1];
      ValuesAreAccountedFor(n, before);
      match last
      case Next(i, value) => NextAccounts(Run(n, before), i, value);
      case Complete(i) => CompleteAccounts(n, Run(n, before), i);
    }
  }

  lemma CompleteSignals<T>(n: nat, s: State<T>, i: nat)
    requires Consistent(n, s) && i < n
    ensures
      var r := OnComplete(n, s, i);
      r.completions == s.completions + if r.active == n then 1 else 0
  {
    AdvanceKeepsLog(n, s.(completed := s.completed + {i}));
  }

  /** Whatever the streams carry, completion is signalled once, by the event with which the last of
      them completes. */
  lemma {:induction false} CompletesOnce<T>(n: nat, events: seq<Event<T>>)
    requires WellFormed(n, events) && !Failed(events)
    ensures Run(n, events).completions == if AllIn(n, CompletedIn(events)) then 1 else 0
  {
    if events == [] {
      assert n > 0 ==> 0 !in CompletedIn(events);
    } else {
      var before, last := events[..|events| - 1], events[|events| - 1];
      assert last.stream !in CompletedIn(before);
      CompletesOnce(n, before);
      ValuesAreAccountedFor(n, events);
      assert FirstOpen(n, CompletedIn(events), 0) == n <==> AllIn(n, CompletedIn(events));
      if last.Complete? {
        CompleteSignals(n, Run(n, before), last.stream);
        assert !AllIn(n, CompletedIn(before));
        assert Run(n, events) == OnComplete(n, Run(n, before), last.stream);
      } else {
        assert CompletedIn(events) == CompletedIn(before);
      }
    }
  }

  /** A failing stream passes its failure on once; nothing is emitted for it and completion has
      not been and will not be signalled. */
  lemma FailureEndsTheRun<T>(n: nat, events: seq<Event<T>>)
    requires WellFormed(n, events) && Failed(events)
    ensures
      var s, before := Run(n, events), events[..|events| - 1];
      && s.emitted == Run(n, before).emitted && s.failures == 1 && s.completions == 0
      && s.queues == [] && s.completed == {} && s.active == 0
  {
    var before := events[..|events| - 1];
    CompletesOnce(n, before);
    NoFailures(n, before);
    assert events[|events| - 1].stream !in CompletedIn(before);
  }

  /** How many values the first k streams have sent. */
  ghost function CountBelow<T>(events: seq<Event<T>>, k: nat): nat {
    if k == 0 then 0 else CountBelow(events, k - 1) + |Received(events, k - 1)|
  }

  lemma {:induction false} CountIsLength<T>(events: seq<Event<T>>, k: nat)
    ensures CountBelow(events, k) == |ReceivedBelow(events, k)|
  {
    if k > 0 {
      CountIsLength(events, k - 1);
    }
  }

  lemma {:induction false} CountAppend<T>(before: seq<Event<T>>, e: Event<T>, k: nat)
    ensures CountBelow(before + [e], k) == CountBelow(before, k) + if e.Next? && e.stream < k then 1 else 0
  {
    if k > 0 {
      ReceivedAppend(before, e, k - 1);
      CountAppend(before, e, k - 1);
    }
  }

  lemma {:induction false} CountOfNothing<T>(k: nat)
    ensures CountBelow<T>([], k) == 0
  {
    if k > 0 {
      CountOfNothing<T>(k - 1);
    }
  }

  lemma {:induction false} ReceivedCount<T>(n: nat, events: seq<Event<T>>)
    requires WellFormed(n, events)
    ensures CountBelow(events, n) == NextCount(events)
  {
    if events == [] {
      CountOfNothing<T>(n);
    } else {
      var before, last := events[..|events| - 1], events[|events| - 1];
      assert events == before + [last];
      ReceivedCount(n, before);
      CountAppend(before, last, n);
    }
  }

  /** Once all streams have completed, the output is the full concatenation if and only if no
      `undefined` arrived from a stream whose turn had not come. */
  lemma CompleteRunIsFullConcatenationIff<T>(n: nat, events: seq<Event<T>>)
    requires WellFormed(n, events) && !Failed(events)
    requires AllIn(n, CompletedIn(events))
    ensures Run(n, events).emitted == ReceivedBelow(events, n) <==> NeverBuffersUndefined(n, events)
  {
    ValuesAreAccountedFor(n, events);
    ReceivedCount(n, events);
    CountIsLength(events, n);
    if NeverBuffersUndefined(n, events) {
      RunKeepsInvariant(n, events);
      BelowIsReceivedBelow(n, events, n);
    }
  }

  lemma RunAppend<T>(n: nat, before: seq<Event<T>>, e: Event<T>)
    requires WellFormed(n, before) && !Failed(before) && e.stream < n && e.stream !in CompletedIn(before) && !e.Fail?
    ensures WellFormed(n, before + [e]) && !Failed(before + [e])
    ensures Run(n, before + [e]) ==
      if e.Next? then OnNext(Run(n, before), e.stream, e.value) else OnComplete(n, Run(n, before), e.stream)
  {
    FrontOfAppend(before, e);
  }

  /** The second of two streams sends `undefined` and then a value, and completes. */
  lemma SecondStreamEnds(v: int)
    ensures
      var events := [] + [Next(1, Undefined)] + [Next(1, Defined(v))] + [Complete(1)];
      && WellFormed(2, events) && !Failed(events) && CompletedIn(events) == {1}
      && Run(2, events) == State([[], [Undefined, Defined(v)]], {1}, 0, [], 0, 0)
      && Received(events, 1) == [Undefined, Defined(v)]
  {
    var e0: seq<Event<int>> := [];
    var e1 := e0 + [Next(1, Undefined)];
    var e2 := e1 + [Next(1, Defined(v))];
    RunAppend(2, e0, Next(1, Undefined));
    ReceivedAppend(e0, Next(1, Undefined), 1);
    var none: seq<Value<int>>, one: seq<Value<int>>, both := [], [Undefined], [Undefined, Defined(v)];
    assert Initial<int>(2).queues == [none, none];
    assert none + [Undefined] == one && [none, none][1 := one] == [none, one];
    assert one + [Defined(v)] == both && [none, one][1 := both] == [none, both];
    assert Run(2, e0) == State([none, none], {}, 0, [], 0, 0);
    assert Run(2, e1) == State([none, one], {}, 0, [], 0, 0);
    RunAppend(2, e1, Next(1, Defined(v)));
    ReceivedAppend(e1, Next(1, Defined(v)), 1);
    var s := State([[], [Undefined, Defined(v)]], {}, 0, [], 0, 0);
    assert Run(2, e2) == s;
    RunAppend(2, e2, Complete(1));
    ReceivedAppend(e2, Complete(1), 1);
    assert {} + {1} == {1};
    assert DrainEmitted<int>([]) == [] && s.queues[0 := []] == s.queues;
    assert OnComplete(2, s, 1) == s.(completed := {1});
  }

  /** Completing the first stream then empties the queue of the second up to the `undefined` only. */
  lemma FirstStreamEnds(v: int)
    ensures
      var s := State([[], [Undefined, Defined(v)]], {1}, 0, [], 0, 0);
      OnComplete(2, s, 0).emitted == [] && OnComplete(2, s, 0).completions == 1
  {
    var s := State([[], [Undefined, Defined(v)]], {0, 1}, 0, [], 0, 0);
    assert {1} + {0} == {0, 1};
    var t := Drained(s, 0).(active := 1);
    var u := Drained(t, 1).(active := 2);
    assert Advance(2, s) == Advance(2, t) == Advance(2, u) == u;
  }

  /** The smallest run that loses values: neither of the two values reaches the listener. */
  lemma UndefinedOutOfTurnLosesValues(v: int)
    ensures
      var events := [Next(1, Undefined), Next(1, Defined(v)), Complete(1), Complete(0)];
      && WellFormed(2, events)
      && Run(2, events).completions == 1
      && Run(2, events).emitted == []
      && Received(events, 1) == [Undefined, Defined(v)]
  {
    var before := [] + [Next(1, Undefined)] + [Next(1, Defined(v))] + [Complete(1)];
    SecondStreamEnds(v);
    FirstStreamEnds(v);
    RunAppend(2, before, Complete(0));
    ReceivedAppend(before, Complete(0), 1);
    assert [Next(1, Undefined), Next(1, Defined(v)), Complete(1), Complete(0)] == before + [Complete(0)];
  }
}
