/** The buffering `concat` of n live streams (packages/iov-stream/src/concat.ts).

    `Concat` is the producer object with its event handlers. `Run` replays a whole
    event sequence on the values the handlers update, so that statements can range
    over every interleaving of the source streams. */
module ConcatStream {

  /** A JavaScript value of element type T, which may be `undefined`. */
  datatype Value<T> = Undefined | Defined(value: T)

  datatype Event<T> =
    | Next(stream: nat, value: Value<T>)
    | Complete(stream: nat)
    | Fail(stream: nat)

  /** `emitted`, `completions` and `failures` record the calls made to the listener. */
  datatype State<T> = State(
    queues: seq<seq<Value<T>>>,
    completed: set<nat>,
    active: nat,
    emitted: seq<Value<T>>,
    completions: nat,
    failures: nat)

  ghost predicate Consistent<T>(n: nat, s: State<T>) {
    && |s.queues| == n
    && s.active <= n
    && (forall i <- s.completed :: i < n)
  }

  // ----- What the handlers do ------------------------------------------------------------

  /** What one call of `emitAllQueuesEvents` takes from a queue: everything up to the first
      `undefined`, which is removed and ends the loop. */
  ghost function DrainEmitted<T>(queue: seq<Value<T>>): seq<Value<T>> {
    if queue == [] || queue[0].Undefined? then []
    else [queue[0]] + DrainEmitted(queue[1..])
  }

  ghost function DrainRest<T>(queue: seq<Value<T>>): seq<Value<T>> {
    if queue == [] then []
    else if queue[0].Undefined? then queue[1..]
    else DrainRest(queue[1..])
  }

  ghost function Drained<T>(s: State<T>, i: nat): State<T>
    requires i < |s.queues|
  {
    s.(queues := s.queues[i := DrainRest(s.queues[i])],
       emitted := s.emitted + DrainEmitted(s.queues[i]))
  }

  ghost function Advance<T>(n: nat, s: State<T>): (r: State<T>)
    requires Consistent(n, s)
    ensures Consistent(n, r)
    ensures r.active !in r.completed
    decreases n - s.active
  {
    if s.active in s.completed then Advance(n, Drained(s, s.active).(active := s.active + 1)) else s
  }

  ghost function Initial<T>(n: nat): State<T> {
    State(seq(n, _ => []), {}, 0, [], if n == 0 then 1 else 0, 0)
  }

  ghost function OnNext<T>(s: State<T>, i: nat, value: Value<T>): State<T>
    requires i < |s.queues|
  {
    if i == s.active then s.(emitted := s.emitted + [value])
    else s.(queues := s.queues[i := s.queues[i] + [value]])
  }

  ghost function OnComplete<T>(n: nat, s: State<T>, i: nat): State<T>
    requires Consistent(n, s) && i < n
  {
    var a := Advance(n, s.(completed := s.completed + {i}));
    if a.active >= n then a.(completions := a.completions + 1) else Drained(a, a.active)
  }

  /** `reset` forgets the queues, the completed streams and the position. */
  ghost function OnFail<T>(s: State<T>): State<T> {
    State([], {}, 0, s.emitted, s.completions, s.failures + 1)
  }

  // ----- Runs ----------------------------------------------------------------------------

  ghost function CompletedIn<T>(events: seq<Event<T>>): set<nat> {
    if events == [] then {}
    else
      var before, last := CompletedIn(events[..|events| - 1]), events[|events| - 1];
      if last.Complete? then before + {last.stream} else before
  }

  /** A source stream sends nothing after it has completed, and the failure of one stream
      unsubscribes from all of them. */
  ghost predicate WellFormed<T>(n: nat, events: seq<Event<T>>) {
    events == [] ||
    var before, last := events[..|events| - 1], events[|events| - 1];
    && WellFormed(n, before)
    && (before == [] || !before[|before| - 1].Fail?)
    && last.stream < n
    && last.stream !in CompletedIn(before)
  }

  ghost predicate Failed<T>(events: seq<Event<T>>) {
    events != [] && events[|events| - 1].Fail?
  }

  ghost function Run<T>(n: nat, events: seq<Event<T>>): (s: State<T>)
    requires WellFormed(n, events)
    ensures Failed(events) || Consistent(n, s)
  {
    if events == [] then Initial(n)
    else
      var s, last := Run(n, events[..|events| - 1]), events[|events| - 1];
      match last
      case Next(i, value) => OnNext(s, i, value)
      case Complete(i) => OnComplete(n, s, i)
      case Fail(_) => OnFail(s)
  }

  // ----- What a listener should see, from the events alone --------------------------------

  /** Everything stream i has sent. */
  ghost function Received<T>(events: seq<Event<T>>, i: nat): seq<Value<T>> {
    if events == [] then []
    else
      var before, last := Received(events[..|events| - 1], i), events[|events| - 1];
      if last.Next? && last.stream == i then before + [last.value] else before
  }

  /** Everything streams 0, 1, ..., k-1 have sent, stream by stream. */
  ghost function ReceivedBelow<T>(events: seq<Event<T>>, k: nat): seq<Value<T>> {
    if k == 0 then []
    else if k == 1 then Received(events, 0)
    else ReceivedBelow(events, k - 1) + Received(events, k - 1)
  }

  /** The first of the streams from, from+1, ..., n-1 that has not completed; n if there is none. */
  ghost function FirstOpen(n: nat, completed: set<nat>, from: nat): (r: nat)
    requires from <= n
    ensures from <= r <= n
    ensures forall i | from <= i < r :: i in completed
    ensures r < n ==> r !in completed
    decreases n - from
  {
    if from < n && from in completed then FirstOpen(n, completed, from + 1) else from
  }

  /** No `undefined` arrives from a stream whose turn has not come. */
  ghost predicate NeverBuffersUndefined<T>(n: nat, events: seq<Event<T>>) {
    events == [] ||
    var before, last := events[..|events| - 1], events[|events| - 1];
    && NeverBuffersUndefined(n, before)
    && (last.Next? && last.value.Undefined? ==> last.stream == FirstOpen(n, CompletedIn(before), 0))
  }

  // ----- The producer object --------------------------------------------------------------

  class Concat<T> {
    const n: nat
    var queues: seq<seq<Value<T>>>
    var completedStreams: set<nat>
    var activeStreamIndex: nat
    /** The listener's log. */
    var emitted: seq<Value<T>>
    var completions: nat
    var failures: nat

    ghost function Abs(): State<T>
      reads this
    {
      State(queues, completedStreams, activeStreamIndex, emitted, completions, failures)
    }

    constructor (n: nat)
      ensures this.n == n && Abs() == Initial(n)
    {
      this.n := n;
      queues := seq(n, _ => []);
      completedStreams, activeStreamIndex, emitted, failures := {}, 0, [], 0;
      completions := if n == 0 then 1 else 0;
    }

    method EmitAllQueuesEvents(streamIndex: nat)
      requires streamIndex < |queues|
      modifies this`queues, this`emitted
      ensures Abs() == Drained(old(Abs()), streamIndex)
    {
      while true
        invariant |queues| == |old(queues)|
        invariant queues == old(queues)[streamIndex := queues[streamIndex]]
        invariant emitted + DrainEmitted(queues[streamIndex])
               == old(emitted) + DrainEmitted(old(queues)[streamIndex])
        invariant DrainRest(queues[streamIndex]) == DrainRest(old(queues)[streamIndex])
        decreases |queues[streamIndex]|
      {
        if queues[streamIndex] == [] {
          return;
        }
        var element := queues[streamIndex][0];
        queues := queues[streamIndex := queues[streamIndex][1..]];
        if element.Undefined? {
          return;
        }
        emitted := emitted + [element];
      }
    }

    method Next(index: nat, value: Value<T>)
      requires Consistent(n, Abs()) && index < n
      modifies this`queues, this`emitted
      ensures Abs() == OnNext(old(Abs()), index, value)
    {
      if index == activeStreamIndex {
        emitted := emitted + [value];
      } else {
        queues := queues[index := queues[index] + [value]];
      }
    }

    method Complete(index: nat)
      requires Consistent(n, Abs()) && index < n
      modifies this
      ensures Abs() == OnComplete(n, old(Abs()), index)
    {
      completedStreams := completedStreams + {index};
      ghost var start := Abs();
      while activeStreamIndex in completedStreams
        invariant Consistent(n, Abs())
        invariant Advance(n, Abs()) == Advance(n, start)
        decreases n - activeStreamIndex
      {
        EmitAllQueuesEvents(activeStreamIndex);
        activeStreamIndex := activeStreamIndex + 1;
      }
      if activeStreamIndex >= n {
        completions := completions + 1;
      } else {
        EmitAllQueuesEvents(activeStreamIndex);
      }
    }

    method Fail()
      modifies this
      ensures Abs() == OnFail(old(Abs()))
    {
      failures := failures + 1;
      queues, completedStreams, activeStreamIndex := [], {}, 0;
    }
  }
}
