/** `liveTx` of the BNS connection (packages/iov-bns/src/bnsconnection.ts): the search results
    and the live updates through `concat`, then through `dropDuplicates` by transaction ID. */
module LiveTransactions {
  import opened Sequences
  import opened ConcatStream
  import opened DropDuplicatesStream
  import ConcatProofs

  const HISTORY: nat := 0
  const UPDATES: nat := 1

  ghost function Unwrapped<T>(values: seq<Value<T>>): (r: seq<T>)
    requires ConcatProofs.AllDefined(values)
    ensures |r| == |values|
  {
    seq(|values|, i requires 0 <= i < |values| => values[i].value)
  }

  /** The two source streams carry transactions, never `undefined`. */
  ghost predicate CarriesTransactions<T>(events: seq<Event<T>>) {
    forall i | 0 <= i < |events| :: events[i].Next? ==> events[i].value.Defined?
  }

  lemma {:induction false} ReceivedDefined<T>(events: seq<Event<T>>, i: nat)
    requires CarriesTransactions(events)
    ensures ConcatProofs.AllDefined(Received(events, i))
  {
    if events != [] {
      ReceivedDefined(events[..|events| - 1], i);
    }
  }

  lemma {:induction false} NothingUndefined<T>(n: nat, events: seq<Event<T>>)
    requires CarriesTransactions(events)
    ensures NeverBuffersUndefined(n, events)
  {
    if events != [] {
      NothingUndefined(n, events[..|events| - 1]);
    }
  }

  ghost function Transactions<T>(events: seq<Event<T>>, stream: nat): seq<T>
    requires CarriesTransactions(events)
  {
    ReceivedDefined(events, stream);
    Unwrapped(Received(events, stream))
  }

  ghost predicate LiveRun<T>(events: seq<Event<T>>) {
    WellFormed(2, events) && !Failed(events) && CarriesTransactions(events)
  }

  lemma CombinedStream<T>(events: seq<Event<T>>)
    requires LiveRun(events)
    ensures
      var emitted, history := Run(2, events).emitted, Received(events, HISTORY);
      && ConcatProofs.AllDefined(emitted)
      && emitted == if HISTORY in CompletedIn(events) then history + Received(events, UPDATES) else history
  {
    EmitsHistoryFirst(events);
    ReceivedDefined(events, HISTORY);
    ReceivedDefined(events, UPDATES);
    DefinedConcatenation(Received(events, HISTORY), Received(events, UPDATES));
  }

  lemma DefinedConcatenation<T>(a: seq<Value<T>>, b: seq<Value<T>>)
    requires ConcatProofs.AllDefined(a) && ConcatProofs.AllDefined(b)
    ensures ConcatProofs.AllDefined(a + b)
  {
  }

  lemma EmitsHistoryFirst<T>(events: seq<Event<T>>)
    requires LiveRun(events)
    ensures
      var history := Received(events, HISTORY);
      Run(2, events).emitted == if HISTORY in CompletedIn(events) then history + Received(events, UPDATES) else history
  {
    var open := FirstOpen(2, CompletedIn(events), 0);
    NothingUndefined(2, events);
    ConcatProofs.EmitsInStreamOrder(2, events);
    ReceivedFromTwo(events, if open < 2 then open + 1 else 2);
  }

  lemma ReceivedFromTwo<T>(events: seq<Event<T>>, k: nat)
    requires k == if HISTORY in CompletedIn(events) then 2 else 1
    ensures
      var history := Received(events, HISTORY);
      ReceivedBelow(events, k) ==
        if HISTORY in CompletedIn(events) then history + Received(events, UPDATES) else history
  {
    assert ReceivedBelow(events, 0) == [];
    assert ReceivedBelow(events, 1) == Received(events, HISTORY);
    assert ReceivedBelow(events, 2) == Received(events, HISTORY) + Received(events, UPDATES);
  }

  /** What the subscriber of `liveTx` has been given. */
  ghost function Delivered<T>(id: T -> string, events: seq<Event<T>>): seq<T>
    requires LiveRun(events)
  {
    CombinedStream(events);
    FirstOccurrences(id, Unwrapped(Run(2, events).emitted), {})
  }

  /** Whatever the overlap and interleaving of history and updates: no transaction ID is delivered
      twice; while the search is pending exactly the IDs found so far have been delivered, and
      afterwards exactly those found or sent as updates; the transactions of the history come
      first, followed by those that only the updates contain. */
  lemma DeliversEachTransactionOnce<T>(id: T -> string, events: seq<Event<T>>)
    requires LiveRun(events)
    ensures
      var history, updates := Transactions(events, HISTORY), Transactions(events, UPDATES);
      var found := HISTORY in CompletedIn(events);
      var delivered, first := Delivered(id, events), FirstOccurrences(id, history, {});
      && DistinctKeys(id, delivered)
      && Keys(id, delivered) == (if found then Keys(id, history) + Keys(id, updates) else Keys(id, history))
      && first <= delivered
      && AreNew(id, delivered[|first|..], history, updates)
  {
    var history, updates := Transactions(events, HISTORY), Transactions(events, UPDATES);
    UnwrappedStream(events);
    if HISTORY in CompletedIn(events) {
      CombinedDelivery(id, history, updates);
    } else {
      EachKeyPassesOnce(id, history, {});
    }
  }

  lemma UnwrappedStream<T>(events: seq<Event<T>>)
    requires LiveRun(events)
    ensures ConcatProofs.AllDefined(Run(2, events).emitted)
    ensures Unwrapped(Run(2, events).emitted) ==
      var history, updates := Transactions(events, HISTORY), Transactions(events, UPDATES);
      if HISTORY in CompletedIn(events) then history + updates else history
  {
    CombinedStream(events);
  }

  /** The members of b have keys of the updates that the history does not have. */
  ghost predicate AreNew<T>(id: T -> string, b: seq<T>, history: seq<T>, updates: seq<T>) {
    forall i | 0 <= i < |b| :: id(b[i]) in Keys(id, updates) && id(b[i]) !in Keys(id, history)
  }

  lemma NewAfter<T>(id: T -> string, history: seq<T>, updates: seq<T>)
    ensures AreNew(id, FirstOccurrences(id, updates, Keys(id, history)), history, updates)
  {
    var unseen := FirstOccurrences(id, updates, Keys(id, history));
    EachKeyPassesOnce(id, updates, Keys(id, history));
    forall i | 0 <= i < |unseen|
      ensures id(unseen[i]) in Keys(id, updates) && id(unseen[i]) !in Keys(id, history)
    {
      KeysContain(id, unseen, i);
    }
  }

  lemma CombinedDelivery<T>(id: T -> string, history: seq<T>, updates: seq<T>)
    ensures
      var delivered, first := FirstOccurrences(id, history + updates, {}), FirstOccurrences(id, history, {});
      && DistinctKeys(id, delivered)
      && Keys(id, delivered) == Keys(id, history) + Keys(id, updates)
      && first <= delivered
      && AreNew(id, delivered[|first|..], history, updates)
  {
    EachKeyPassesOnce(id, history + updates, {});
    KeysOfConcatenation(id, history, updates);
    FirstOccurrencesOfConcatenation(id, history, updates, {});
    assert {} + Keys(id, history) == Keys(id, history);
    NewAfter(id, history, updates);
    TailOfAppend(FirstOccurrences(id, history, {}), FirstOccurrences(id, updates, Keys(id, history)));
  }

  lemma PrefixIsLiveRun<T>(events: seq<Event<T>>)
    requires LiveRun(events) && events != []
    ensures LiveRun(events[..|events| - 1])
  {
  }

  /** What `concat` emits is extended by each event. */
  lemma StreamOnlyGrows<T>(events: seq<Event<T>>)
    requires LiveRun(events) && events != []
    ensures Run(2, events[..|events| - 1]).emitted <= Run(2, events).emitted
  {
    var before, last := events[..|events| - 1], events[|events| - 1];
    EmitsHistoryFirst(before);
    EmitsHistoryFirst(events);
  }

  lemma UnwrappedPrefix<T>(a: seq<Value<T>>, b: seq<Value<T>>)
    requires ConcatProofs.AllDefined(a) && ConcatProofs.AllDefined(b) && a <= b
    ensures Unwrapped(a) <= Unwrapped(b)
  {
  }

  lemma FirstOccurrencesOfPrefix<T>(id: T -> string, a: seq<T>, b: seq<T>)
    requires a <= b
    ensures FirstOccurrences(id, a, {}) <= FirstOccurrences(id, b, {})
  {
    assert b == a + b[|a|..];
    FirstOccurrencesOfConcatenation(id, a, b[|a|..], {});
  }

  /** Delivery is incremental: a later event never takes back or reorders what was delivered. */
  lemma DeliveryOnlyGrows<T>(id: T -> string, events: seq<Event<T>>)
    requires LiveRun(events) && events != []
    ensures
      var before := events[..|events| - 1];
      LiveRun(before) && Delivered(id, before) <= Delivered(id, events)
  {
    var before := events[..|events| - 1];
    PrefixIsLiveRun(events);
    CombinedStream(before);
    CombinedStream(events);
    StreamOnlyGrows(events);
    UnwrappedPrefix(Run(2, before).emitted, Run(2, events).emitted);
    FirstOccurrencesOfPrefix(id, Unwrapped(Run(2, before).emitted), Unwrapped(Run(2, events).emitted));
  }
}
