/** `watchSwaps` of the BNS connection (packages/iov-bns/src/bnsconnection.ts): two `liveTx` streams, one of
    transactions that set a swap and one of transactions that delete one, feed one merger as they arrive. */
module SwapWatching {
  import opened Results
  import opened Sequences
  import opened Swaps
  import opened SwapMerger
  import opened MergerInputs
  import opened SwapReconstruction
  import opened EventCounts
  import opened ReportForms
  import opened DropDuplicatesStream
  import ConcatStream
  import LiveTransactions

  datatype Source = SetTxs | DelTxs

  /** `OtherTx` stands for failed transactions and other kinds, which the filters drop. */
  datatype Content = OfferTx(data: SwapData) | ReleaseTx(settlement: Settlement) | OtherTx

  datatype Tx = Tx(id: string, content: Content)

  datatype Arrival = Arrival(source: Source, tx: Tx)

  function TxId(tx: Tx): string { tx.id }

  /** Offers are taken from the one stream, releases from both. */
  function EventOf(a: Arrival): Option<SwapEvent> {
    match a.tx.content
    case OfferTx(data) => if a.source == SetTxs then Some(Offer(data)) else None
    case ReleaseTx(settlement) => Some(Settle(settlement))
    case OtherTx => None
  }

  // ----- The stream ------------------------------------------------------------------------------------

  /** An exception in `process` is an error of the stream, which ends it. */
  datatype State = State(pools: Pools, emitted: seq<AtomicSwap>, failed: bool)

  ghost function Observe(s: State, event: SwapEvent): State {
    if s.failed then s
    else
      var (pools, outcome) := Processed(s.pools, event);
      match outcome
      case Err(_) => s.(failed := true)
      case Ok(None) => s.(pools := pools)
      case Ok(Some(swap)) => State(pools, s.emitted + [swap], false)
  }

  ghost function AfterArrival(s: State, a: Arrival): State {
    match EventOf(a)
    case None => s
    case Some(event) => Observe(s, event)
  }

  const INITIAL := State(Pools([], []), [], false)

  ghost function Watch(arrivals: seq<Arrival>): State {
    if arrivals == [] then INITIAL
    else AfterArrival(Watch(arrivals[..|arrivals| - 1]), arrivals[|arrivals| - 1])
  }

  class SwapWatcher {
    const merger: AtomicSwapMerger
    var emitted: seq<AtomicSwap>
    var failed: bool

    ghost function Abs(): State
      reads this, merger
    {
      State(merger.Abs(), emitted, failed)
    }

    constructor ()
      ensures Abs() == INITIAL && fresh(merger)
    {
      merger := new AtomicSwapMerger();
      emitted, failed := [], false;
    }

    method Next(arrival: Arrival)
      modifies this, merger
      ensures Abs() == AfterArrival(old(Abs()), arrival)
    {
      var event := EventOf(arrival);
      if failed || event.None? {
        return;
      }
      ghost var before := merger.Abs();
      var outcome := merger.Process(event.value);
      if outcome.Err? {
        FailureChangesNothing(before, event.value);
        failed := true;
      } else if outcome.value.Some? {
        emitted := emitted + [outcome.value.value];
      }
    }
  }

  lemma FailureChangesNothing(pools: Pools, event: SwapEvent)
    ensures Processed(pools, event).1.Err? ==> Processed(pools, event).0 == pools
  {
  }

  // ----- As a run of the merger ---------------------------------------------------------------------------

  ghost function Events(arrivals: seq<Arrival>): seq<SwapEvent> {
    if arrivals == [] then []
    else
      var before, event := Events(arrivals[..|arrivals| - 1]), EventOf(arrivals[|arrivals| - 1]);
      if event.Some? then before + [event.value] else before
  }

  ghost predicate IsRun(s: State, events: seq<SwapEvent>) {
    && (s.failed <==> !NeverThrows(events))
    && (!s.failed ==> s.pools == RunPools(events))
  }

  lemma ObserveRuns(s: State, events: seq<SwapEvent>, event: SwapEvent)
    requires IsRun(s, events)
    ensures IsRun(Observe(s, event), events + [event])
  {
    FrontOfAppend(events, event);
  }

  lemma {:induction false} WatchIsRun(arrivals: seq<Arrival>)
    ensures IsRun(Watch(arrivals), Events(arrivals))
  {
    if arrivals != [] {
      var before, last := arrivals[..|arrivals| - 1], arrivals[|arrivals| - 1];
      WatchIsRun(before);
      match EventOf(last) {
        case None =>
        case Some(event) => ObserveRuns(Watch(before), Events(before), event);
      }
    }
  }

  // ----- When the stream fails -------------------------------------------------------------------------------

  /** With at most one offer per ID, feeding the merger in any order throws if and only if at some moment an
      ID has been released twice without an offer or three times with one. */
  lemma {:induction false} NeverThrowsIffReleasesFollow(events: seq<SwapEvent>)
    requires OfferedOnce(events)
    ensures NeverThrows(events) <==> ReleasesFollow(events)
  {
    NeverThrowsIff(events);
    if events == [] {
      NothingFollows();
    } else {
      var before, last := events[..|events| - 1], events[|events| - 1];
      assert events == before + [last];
      OfferedOnceBefore(before, last);
      NeverThrowsIff(before);
      NeverThrowsIffReleasesFollow(before);
      if ReleasesFollow(before) {
        OneMoreFollows(before, last);
      }
    }
  }

  // ----- In terms of what arrives -------------------------------------------------------------------------------

  ghost predicate SameDelivery(arrivals: seq<Arrival>, i: nat, j: nat)
    requires i < |arrivals| && j < |arrivals|
  {
    arrivals[i].source == arrivals[j].source && arrivals[i].tx.id == arrivals[j].tx.id
  }

  /** Each of the two streams delivers a transaction once. */
  ghost predicate DeliveredOnce(arrivals: seq<Arrival>) {
    forall i: nat, j: nat | i < j < |arrivals| :: !SameDelivery(arrivals, i, j)
  }

  predicate SameRole(c: Content, d: Content) {
    || (c.OfferTx? && d.OfferTx? && c.data.id == d.data.id)
    || (c.ReleaseTx? && d.ReleaseTx? && c.settlement.swapId == d.settlement.swapId)
  }

  ghost predicate OneTransaction(arrivals: seq<Arrival>, i: nat, j: nat)
    requires i < |arrivals| && j < |arrivals|
  {
    SameRole(arrivals[i].tx.content, arrivals[j].tx.content) ==> arrivals[i].tx == arrivals[j].tx
  }

  /** On the chain a swap is offered by one transaction and released by one. */
  ghost predicate OneChain(arrivals: seq<Arrival>) {
    forall i: nat, j: nat | i < j < |arrivals| :: OneTransaction(arrivals, i, j)
  }

  ghost predicate Realistic(arrivals: seq<Arrival>) {
    DeliveredOnce(arrivals) && OneChain(arrivals)
  }

  /** Position by position: no stream repeats a transaction ID, and two offers of one swap, or two releases, are
      the same transaction. */
  lemma {:induction false} RealisticIff(arrivals: seq<Arrival>)
    ensures Realistic(arrivals) <==> forall i: nat, j: nat | i < j < |arrivals| ::
      var a, b := arrivals[i], arrivals[j];
      && (a.source == b.source ==> a.tx.id != b.tx.id)
      && (a.tx != b.tx && a.tx.content.OfferTx? && b.tx.content.OfferTx? ==>
          a.tx.content.data.id != b.tx.content.data.id)
      && (a.tx != b.tx && a.tx.content.ReleaseTx? && b.tx.content.ReleaseTx? ==>
          a.tx.content.settlement.swapId != b.tx.content.settlement.swapId)
  {
    if Realistic(arrivals) {
      forall i: nat, j: nat | i < j < |arrivals|
        ensures arrivals[i].source == arrivals[j].source ==> arrivals[i].tx.id != arrivals[j].tx.id
        ensures SameRole(arrivals[i].tx.content, arrivals[j].tx.content) ==> arrivals[i].tx == arrivals[j].tx
      {
        assert !SameDelivery(arrivals, i, j) && OneTransaction(arrivals, i, j);
      }
    } else {
      var i: nat, j: nat :|
        i < j < |arrivals| && (SameDelivery(arrivals, i, j) || !OneTransaction(arrivals, i, j));
    }
  }

  lemma RealisticPrefix(before: seq<Arrival>, last: Arrival)
    requires Realistic(before + [last])
    ensures Realistic(before)
  {
    var arrivals := before + [last];
    forall i: nat, j: nat | i < j < |before|
      ensures !SameDelivery(before, i, j) && OneTransaction(before, i, j)
    {
      assert !SameDelivery(arrivals, i, j) && OneTransaction(arrivals, i, j);
    }
  }

  predicate IsOffer(a: Arrival, id: SwapId) {
    a.source == SetTxs && a.tx.content.OfferTx? && a.tx.content.data.id == id
  }

  predicate IsRelease(a: Arrival, source: Source, id: SwapId) {
    a.source == source && a.tx.content.ReleaseTx? && a.tx.content.settlement.swapId == id
  }

  ghost predicate Offered(arrivals: seq<Arrival>, id: SwapId) {
    exists i | 0 <= i < |arrivals| :: IsOffer(arrivals[i], id)
  }

  ghost predicate ReleasedFrom(arrivals: seq<Arrival>, source: Source, id: SwapId) {
    exists i | 0 <= i < |arrivals| :: IsRelease(arrivals[i], source, id)
  }

  lemma SeenAppend(before: seq<Arrival>, last: Arrival, source: Source, id: SwapId)
    ensures Offered(before + [last], id) <==> Offered(before, id) || IsOffer(last, id)
    ensures ReleasedFrom(before + [last], source, id)
       <==> ReleasedFrom(before, source, id) || IsRelease(last, source, id)
  {
    var arrivals := before + [last];
    assert arrivals[|before|] == last;
    if Offered(before, id) {
      var i :| 0 <= i < |before| && IsOffer(before[i], id);
      assert arrivals[i] == before[i];
    }
    if ReleasedFrom(before, source, id) {
      var i :| 0 <= i < |before| && IsRelease(before[i], source, id);
      assert arrivals[i] == before[i];
    }
  }

  /** The same stream does not bring a second offer or release for an ID. */
  lemma LastIsNew(before: seq<Arrival>, last: Arrival, id: SwapId)
    requires Realistic(before + [last])
    ensures IsOffer(last, id) ==> !Offered(before, id)
    ensures IsRelease(last, last.source, id) ==> !ReleasedFrom(before, last.source, id)
  {
    var arrivals, n := before + [last], |before|;
    forall i: nat | i < n && (IsOffer(last, id) || IsRelease(last, last.source, id))
      ensures !(IsOffer(last, id) && IsOffer(before[i], id))
      ensures !(IsRelease(last, last.source, id) && IsRelease(before[i], last.source, id))
    {
      assert arrivals[i] == before[i] && arrivals[n] == last;
      assert !SameDelivery(arrivals, i, n) && OneTransaction(arrivals, i, n);
    }
  }

  lemma EventsAppend(before: seq<Arrival>, last: Arrival)
    ensures Events(before + [last]) ==
      if EventOf(last).Some? then Events(before) + [EventOf(last).value] else Events(before)
  {
    FrontOfAppend(before, last);
  }

  /** The events of an ID are its offer and its releases from the two streams. */
  ghost predicate CountsMatch(events: seq<SwapEvent>, arrivals: seq<Arrival>, id: SwapId) {
    && OffersOf(events, id) == One(Offered(arrivals, id))
    && ReleasesOf(events, id)
    == One(ReleasedFrom(arrivals, SetTxs, id)) + One(ReleasedFrom(arrivals, DelTxs, id))
  }

  lemma {:induction false} CountsOfArrivals(arrivals: seq<Arrival>, id: SwapId)
    requires Realistic(arrivals)
    ensures CountsMatch(Events(arrivals), arrivals, id)
  {
    if arrivals != [] {
      var before, last := arrivals[..|arrivals| - 1], arrivals[|arrivals| - 1];
      assert arrivals == before + [last];
      RealisticPrefix(before, last);
      CountsOfArrivals(before, id);
      CountsStep(Events(before), before, last, id);
    }
  }

  /** An arrival is seen for the first time. */
  lemma SeenOnce(before: seq<Arrival>, last: Arrival, id: SwapId)
    requires Realistic(before + [last])
    ensures
      var arrivals := before + [last];
      && One(Offered(arrivals, id)) == One(Offered(before, id)) + One(IsOffer(last, id))
      && (forall source :: One(ReleasedFrom(arrivals, source, id))
                        == One(ReleasedFrom(before, source, id)) + One(IsRelease(last, source, id)))
  {
    LastIsNew(before, last, id);
    forall source { SeenAppend(before, last, source, id); }
  }

  lemma CountsStep(events: seq<SwapEvent>, before: seq<Arrival>, last: Arrival, id: SwapId)
    requires Realistic(before + [last]) && CountsMatch(events, before, id)
    ensures CountsMatch(
      if EventOf(last).Some? then events + [EventOf(last).value] else events, before + [last], id)
  {
    SeenOnce(before, last, id);
    EventIsCounted(events, last, id);
  }

  lemma EventIsCounted(events: seq<SwapEvent>, last: Arrival, id: SwapId)
    ensures
      var more := if EventOf(last).Some? then events + [EventOf(last).value] else events;
      && OffersOf(more, id) == OffersOf(events, id) + One(IsOffer(last, id))
      && ReleasesOf(more, id)
      == ReleasesOf(events, id) + One(IsRelease(last, SetTxs, id)) + One(IsRelease(last, DelTxs, id))
  {
    if EventOf(last).Some? {
      CountsAppend(events, EventOf(last).value, id);
    }
  }

  /** Both streams have brought the release of a swap, and its offer has not come. */
  ghost predicate BothReleasedFirst(arrivals: seq<Arrival>, id: SwapId) {
    ReleasedFrom(arrivals, SetTxs, id) && ReleasedFrom(arrivals, DelTxs, id) && !Offered(arrivals, id)
  }

  /** At some moment this is the case for some swap. */
  ghost predicate ReleasedTwiceFirst(arrivals: seq<Arrival>) {
    exists k: nat, id :: k <= |arrivals| && BothReleasedFirst(arrivals[..k], id)
  }

  lemma TwiceFirstAppend(before: seq<Arrival>, last: Arrival)
    ensures ReleasedTwiceFirst(before + [last])
       <==> ReleasedTwiceFirst(before) || exists id :: BothReleasedFirst(before + [last], id)
  {
    var arrivals := before + [last];
    if ReleasedTwiceFirst(arrivals) {
      var k: nat, id :| k <= |arrivals| && BothReleasedFirst(arrivals[..k], id);
      if k <= |before| {
        assert arrivals[..k] == before[..k];
      } else {
        assert arrivals[..k] == arrivals;
      }
    }
    if ReleasedTwiceFirst(before) {
      var k: nat, id :| k <= |before| && BothReleasedFirst(before[..k], id);
      assert arrivals[..k] == before[..k];
    }
    if id :| BothReleasedFirst(arrivals, id) {
      assert arrivals[..|arrivals|] == arrivals;
    }
  }

  lemma AllFollowIff(arrivals: seq<Arrival>)
    requires Realistic(arrivals)
    ensures AllFollow(Events(arrivals)) <==> !exists id :: BothReleasedFirst(arrivals, id)
  {
    forall id
      ensures Follows(Events(arrivals), id) <==> !BothReleasedFirst(arrivals, id)
    {
      CountsOfArrivals(arrivals, id);
    }
  }

  lemma FollowStep(before: seq<Arrival>, last: Arrival)
    requires Realistic(before + [last])
    requires ReleasesFollow(Events(before)) <==> !ReleasedTwiceFirst(before)
    ensures ReleasesFollow(Events(before + [last])) <==> !ReleasedTwiceFirst(before + [last])
  {
    TwiceFirstAppend(before, last);
    AllFollowIff(before + [last]);
    EventsAppend(before, last);
    if EventOf(last).Some? {
      FrontOfAppend(Events(before), EventOf(last).value);
    }
  }

  lemma {:induction false} ReleasesFollowIff(arrivals: seq<Arrival>)
    requires Realistic(arrivals)
    ensures ReleasesFollow(Events(arrivals)) <==> !ReleasedTwiceFirst(arrivals)
  {
    if arrivals == [] {
      NothingFollows();
    } else {
      var before, last := arrivals[..|arrivals| - 1], arrivals[|arrivals| - 1];
      assert arrivals == before + [last];
      RealisticPrefix(before, last);
      ReleasesFollowIff(before);
      FollowStep(before, last);
    }
  }

  lemma RealisticOffersOnce(arrivals: seq<Arrival>)
    requires Realistic(arrivals)
    ensures OfferedOnce(Events(arrivals))
  {
    forall id
      ensures OffersOf(Events(arrivals), id) <= 1
    {
      CountsOfArrivals(arrivals, id);
    }
  }

  /** Under every interleaving the stream fails if and only if at some moment both streams have brought the
      release of a swap whose offer has not come. */
  lemma WatchFailsIff(arrivals: seq<Arrival>)
    requires Realistic(arrivals)
    ensures Watch(arrivals).failed <==> ReleasedTwiceFirst(arrivals)
  {
    WatchIsRun(arrivals);
    RealisticOffersOnce(arrivals);
    NeverThrowsIffReleasesFollow(Events(arrivals));
    ReleasesFollowIff(arrivals);
  }

  /** If on the first stream releases come after their offers, as they do on the chain, the stream never fails,
      however the second stream is interleaved. */
  lemma ChainOrderNeverFails(arrivals: seq<Arrival>)
    requires Realistic(arrivals)
    requires forall k: nat, id |
      k <= |arrivals| && ReleasedFrom(arrivals[..k], SetTxs, id) :: Offered(arrivals[..k], id)
    ensures !Watch(arrivals).failed
  {
    WatchFailsIff(arrivals);
  }

  /** The shortest run that fails: both streams bring a release; its offer would come next. */
  lemma DoubleReleaseFails(tx: Tx)
    requires tx.content.ReleaseTx?
    ensures
      var arrivals := [Arrival(SetTxs, tx), Arrival(DelTxs, tx)];
      Realistic(arrivals) && Watch(arrivals).failed
  {
    var arrivals, id := [Arrival(SetTxs, tx), Arrival(DelTxs, tx)], tx.content.settlement.swapId;
    assert IsRelease(arrivals[0], SetTxs, id) && IsRelease(arrivals[1], DelTxs, id);
    assert arrivals[..2] == arrivals && BothReleasedFirst(arrivals, id);
    assert Realistic(arrivals);
    WatchFailsIff(arrivals);
  }

  // ----- That each stream delivers once -----------------------------------------------------------------------

  ghost function FromSource(arrivals: seq<Arrival>, source: Source): seq<Tx> {
    if arrivals == [] then []
    else
      var last := arrivals[|arrivals| - 1];
      AppendIf(last.source == source, FromSource(arrivals[..|arrivals| - 1], source), last.tx)
  }

  lemma {:induction false} ArrivalIsFromSource(arrivals: seq<Arrival>, i: nat)
    requires i < |arrivals|
    ensures arrivals[i].tx.id in Keys(TxId, FromSource(arrivals, arrivals[i].source))
  {
    var n := |arrivals| - 1;
    var before, last := arrivals[..n], arrivals[n];
    var source := arrivals[i].source;
    if last.source == source {
      KeysOfConcatenation(TxId, FromSource(before, source), [last.tx]);
      assert [last.tx][1..] == [];
    }
    if i < n {
      ArrivalIsFromSource(before, i);
    }
  }

  lemma DistinctFront(values: seq<Tx>, last: Tx)
    requires DistinctKeys(TxId, values + [last])
    ensures DistinctKeys(TxId, values) && last.id !in Keys(TxId, values)
  {
    var more := values + [last];
    forall i: nat, j: nat | i < j < |values|
      ensures KeysDiffer(TxId, values, i, j)
    {
      assert KeysDiffer(TxId, more, i, j);
    }
    KeysHave(TxId, values, last.id);
    forall i: nat | i < |values|
      ensures TxId(values[i]) != last.id
    {
      assert KeysDiffer(TxId, more, i, |values|);
    }
  }

  /** Streams that deliver distinct transaction IDs, in any interleaving. */
  lemma {:induction false} DistinctStreamsDeliverOnce(arrivals: seq<Arrival>)
    requires forall source :: DistinctKeys(TxId, FromSource(arrivals, source))
    ensures DeliveredOnce(arrivals)
  {
    if arrivals != [] {
      var n := |arrivals| - 1;
      var before, last := arrivals[..n], arrivals[n];
      forall source
        ensures DistinctKeys(TxId, FromSource(before, source))
      {
        assert DistinctKeys(TxId, FromSource(arrivals, source));
        if source == last.source {
          DistinctFront(FromSource(before, source), last.tx);
        }
      }
      DistinctStreamsDeliverOnce(before);
      assert DistinctKeys(TxId, FromSource(arrivals, last.source));
      DistinctFront(FromSource(before, last.source), last.tx);
      forall i: nat, j: nat | i < j < |arrivals|
        ensures !SameDelivery(arrivals, i, j)
      {
        if j < n {
          assert !SameDelivery(before, i, j);
        } else if arrivals[i].source == last.source {
          ArrivalIsFromSource(before, i);
        }
      }
    }
  }

  /** What two `liveTx` streams deliver, in any interleaving. */
  ghost predicate FromLiveStreams(
    arrivals: seq<Arrival>, setEvents: seq<ConcatStream.Event<Tx>>, delEvents: seq<ConcatStream.Event<Tx>>)
  {
    && LiveTransactions.LiveRun(setEvents) && LiveTransactions.LiveRun(delEvents)
    && FromSource(arrivals, SetTxs) == LiveTransactions.Delivered(TxId, setEvents)
    && FromSource(arrivals, DelTxs) == LiveTransactions.Delivered(TxId, delEvents)
  }

  lemma LiveStreamsDeliverOnce(
    arrivals: seq<Arrival>, setEvents: seq<ConcatStream.Event<Tx>>, delEvents: seq<ConcatStream.Event<Tx>>)
    requires FromLiveStreams(arrivals, setEvents, delEvents)
    ensures DeliveredOnce(arrivals)
  {
    LiveTransactions.DeliversEachTransactionOnce(TxId, setEvents);
    LiveTransactions.DeliversEachTransactionOnce(TxId, delEvents);
    forall source
      ensures DistinctKeys(TxId, FromSource(arrivals, source))
    {
      assert source == SetTxs || source == DelTxs;
    }
    DistinctStreamsDeliverOnce(arrivals);
  }

  // ----- What the stream says ------------------------------------------------------------------------------------

  ghost predicate Form(s: State, offers: seq<SwapData>, releases: seq<Settlement>) {
    && Valid(s.pools)
    && OpenForm(s.pools.open, offers, releases)
    && SettlingForm(s.pools.settling, offers, releases)
    && LastForm(s.emitted, offers, releases)
  }

  lemma OfferStep(s: State, offers: seq<SwapData>, releases: seq<Settlement>, d: SwapData)
    requires !s.failed && Form(s, offers, releases) && d.id !in OpenIds(offers)
    ensures var t := Observe(s, Offer(d)); !t.failed ==> Form(t, offers + [d], releases)
  {
    var t, settling := Observe(s, Offer(d)), s.pools.settling;
    ProcessedPools(s.pools, Offer(d), d.id);
    OfferFindsRelease(settling, offers, releases, d.id);
    OfferOpens(s.pools.open, offers, releases, d);
    OfferIsReported(s.emitted, offers, releases, d);
    var i := IndexOfId(SettlingIds(settling), d.id);
    if i < |settling| {
      assert settling[i] in settling;
      DistinctSettling(settling);
      forall r: Settlement { RemoveAtMembers(settling, i, r); }
    }
    OfferTakesRelease(settling, t.pools.settling, offers, releases, d);
  }

  lemma ReleaseStepOpen(s: State, offers: seq<SwapData>, releases: seq<Settlement>, r: Settlement)
    requires !s.failed && Form(s, offers, releases) && NoDuplicates(OpenIds(offers))
    requires r.swapId in OpenIds(s.pools.open)
    ensures var t := Observe(s, Settle(r)); !t.failed && Form(t, offers, releases + [r])
  {
    var i := IndexOfId(OpenIds(s.pools.open), r.swapId);
    var d := s.pools.open[i];
    assert d in s.pools.open;
    ProcessedPools(s.pools, Settle(r), r.swapId);
    ReleaseCloses(s.pools.open, i, offers, releases, r);
    ReleaseIsReported(s.emitted, offers, releases, d, r);
    OfferedId(offers, d);
    OfferedReleaseKeepsSettling(s.pools.settling, offers, releases, r);
  }

  lemma ReleaseStepOther(s: State, offers: seq<SwapData>, releases: seq<Settlement>, r: Settlement)
    requires !s.failed && Form(s, offers, releases) && r.swapId !in OpenIds(s.pools.open)
    ensures var t := Observe(s, Settle(r)); !t.failed ==> Form(t, offers, releases + [r])
  {
    ProcessedPools(s.pools, Settle(r), r.swapId);
    forall w { OtherReleaseSaysNothing(s.pools.open, offers, releases, r, w); }
    if r.swapId !in SettlingIds(s.pools.settling) {
      ReleaseIsKept(s.pools.settling, offers, releases, r);
    }
  }

  lemma NothingSaid()
    ensures Form(INITIAL, [], [])
  {
    assert OpenIds([]) == [] && SettlingIds([]) == [];
  }

  lemma EventStep(s: State, before: seq<SwapEvent>, last: SwapEvent)
    requires !s.failed && Form(s, OffersIn(before), ReleasesIn(before)) && OfferedOnce(before + [last])
    requires !Observe(s, last).failed
    ensures Form(Observe(s, last), OffersIn(before + [last]), ReleasesIn(before + [last]))
  {
    var offers, releases := OffersIn(before), ReleasesIn(before);
    FrontOfAppend(before, last);
    OfferedOnceBefore(before, last);
    OfferedOnceIsDistinct(before);
    match last
    case Offer(d) =>
      OfferIsNew(before, d);
      OfferStep(s, offers, releases, d);
    case Settle(r) =>
      if r.swapId in OpenIds(s.pools.open) {
        ReleaseStepOpen(s, offers, releases, r);
      } else {
        ReleaseStepOther(s, offers, releases, r);
      }
  }

  lemma {:induction false} WatchHasForm(arrivals: seq<Arrival>)
    requires OfferedOnce(Events(arrivals)) && !Watch(arrivals).failed
    ensures Form(Watch(arrivals), OffersIn(Events(arrivals)), ReleasesIn(Events(arrivals)))
  {
    if arrivals == [] {
      NothingSaid();
    } else {
      var before, last := arrivals[..|arrivals| - 1], arrivals[|arrivals| - 1];
      match EventOf(last) {
        case None => WatchHasForm(before);
        case Some(event) =>
          OfferedOnceBefore(Events(before), event);
          WatchHasForm(before);
          EventStep(Watch(before), Events(before), event);
      }
    }
  }

  /** Under every interleaving in which the stream does not fail, its last word on an ID is the state in which the
      first release leaves the swap that was offered with it, and it says nothing about other IDs. */
  lemma LastWordIsFirstRelease(arrivals: seq<Arrival>, w: AtomicSwap)
    requires Realistic(arrivals) && !ReleasedTwiceFirst(arrivals)
    ensures LastAbout(Watch(arrivals).emitted, w.data.id) == Some(w)
       <==> Says(OffersIn(Events(arrivals)), ReleasesIn(Events(arrivals)), w)
  {
    WatchFailsIff(arrivals);
    RealisticOffersOnce(arrivals);
    WatchHasForm(arrivals);
  }
}

/** How often IDs have been offered and released. */
module EventCounts {
  import opened Sequences
  import opened Swaps
  import opened SwapMerger
  import opened MergerInputs
  import opened SwapReconstruction

  function One(condition: bool): nat {
    if condition then 1 else 0
  }

  /** How often an ID has been offered, and released. */
  ghost function OffersOf(events: seq<SwapEvent>, id: SwapId): nat {
    if events == [] then 0
    else
      var last := events[|events| - 1];
      OffersOf(events[..|events| - 1], id) + One(last.Offer? && IdOf(last) == id)
  }

  ghost function ReleasesOf(events: seq<SwapEvent>, id: SwapId): nat {
    if events == [] then 0
    else
      var last := events[|events| - 1];
      ReleasesOf(events[..|events| - 1], id) + One(last.Settle? && IdOf(last) == id)
  }

  lemma CountsAppend(before: seq<SwapEvent>, last: SwapEvent, id: SwapId)
    ensures OffersOf(before + [last], id) == OffersOf(before, id) + One(last.Offer? && IdOf(last) == id)
    ensures ReleasesOf(before + [last], id) == ReleasesOf(before, id) + One(last.Settle? && IdOf(last) == id)
  {
    FrontOfAppend(before, last);
  }

  lemma {:induction false} BalanceCounts(events: seq<SwapEvent>, id: SwapId)
    ensures Balance(events, id) == OffersOf(events, id) - ReleasesOf(events, id)
  {
    if events != [] {
      var before, last := events[..|events| - 1], events[|events| - 1];
      assert events == before + [last];
      BalanceCounts(before, id);
      CountsAppend(before, last, id);
    }
  }

  ghost predicate OfferedOnce(events: seq<SwapEvent>) {
    forall id :: OffersOf(events, id) <= 1
  }

  lemma OfferedOnceBefore(before: seq<SwapEvent>, last: SwapEvent)
    requires OfferedOnce(before + [last])
    ensures OfferedOnce(before)
    ensures last.Offer? ==> OffersOf(before, IdOf(last)) == 0
  {
    forall id
      ensures OffersOf(before, id) <= 1
      ensures last.Offer? && id == IdOf(last) ==> OffersOf(before, id) == 0
    {
      CountsAppend(before, last, id);
      assert OffersOf(before + [last], id) <= 1;
    }
  }

  lemma {:induction false} OfferIsCounted(events: seq<SwapEvent>, d: SwapData)
    requires d in OffersIn(events)
    ensures OffersOf(events, d.id) >= 1
  {
    var before, last := events[..|events| - 1], events[|events| - 1];
    if d in OffersIn(before) {
      OfferIsCounted(before, d);
    }
  }

  /** An ID that is offered now has not been offered before. */
  lemma OfferIsNew(before: seq<SwapEvent>, d: SwapData)
    requires OfferedOnce(before + [Offer(d)])
    ensures d.id !in OpenIds(OffersIn(before))
  {
    OfferedOnceBefore(before, Offer(d));
    OpenPoolHas(OffersIn(before), d.id);
    if e :| e in OffersIn(before) && e.id == d.id {
      OfferIsCounted(before, e);
    }
  }

  lemma {:induction false} OfferedOnceIsDistinct(events: seq<SwapEvent>)
    requires OfferedOnce(events)
    ensures NoDuplicates(OpenIds(OffersIn(events)))
  {
    if events != [] {
      var before, last := events[..|events| - 1], events[|events| - 1];
      assert events == before + [last];
      OfferedOnceBefore(before, last);
      OfferedOnceIsDistinct(before);
      if last.Offer? {
        OfferIsNew(before, last.data);
        assert OpenIds(OffersIn(events)) == OpenIds(OffersIn(before)) + [last.data.id];
      }
    }
  }

  ghost predicate Follows(events: seq<SwapEvent>, id: SwapId) {
    ReleasesOf(events, id) <= 1 + OffersOf(events, id)
  }

  /** Each ID has been released at most once more often than it has been offered. */
  ghost predicate AllFollow(events: seq<SwapEvent>) {
    forall id :: Follows(events, id)
  }

  /** This holds at every moment. */
  ghost predicate ReleasesFollow(events: seq<SwapEvent>) {
    AllFollow(events) && (events == [] || ReleasesFollow(events[..|events| - 1]))
  }

  /** One more event leaves all but its own counts as they are. */
  lemma OneMoreFollows(before: seq<SwapEvent>, last: SwapEvent)
    requires OfferedOnce(before + [last]) && AllFollow(before)
    ensures AllFollow(before + [last]) <==> -1 <= Balance(before + [last], IdOf(last)) <= 1
  {
    var events, x := before + [last], IdOf(last);
    BalanceCounts(events, x);
    assert OffersOf(events, x) <= 1;
    assert Follows(events, x) <==> -1 <= Balance(events, x);
    forall id | id != x
      ensures Follows(events, id)
    {
      CountsAppend(before, last, id);
      assert Follows(before, id);
    }
  }

  lemma NothingFollows()
    ensures AllFollow([])
  {
  }
}

/** The pools of the merger and the last reports of a stream, in terms of the offers and releases so far. */
module ReportForms {
  import opened Results
  import opened Sequences
  import opened Swaps
  import opened SwapMerger
  import opened MergerInputs

  /** The last word on an ID. */
  ghost function LastAbout(emitted: seq<AtomicSwap>, id: SwapId): Option<AtomicSwap> {
    if emitted == [] then None
    else
      var last := emitted[|emitted| - 1];
      if last.data.id == id then Some(last) else LastAbout(emitted[..|emitted| - 1], id)
  }

  lemma LastAboutAppend(emitted: seq<AtomicSwap>, swap: AtomicSwap, id: SwapId)
    ensures LastAbout(emitted + [swap], id) == if swap.data.id == id then Some(swap) else LastAbout(emitted, id)
  {
    FrontOfAppend(emitted, swap);
  }

  ghost predicate OpenForm(open: seq<SwapData>, offers: seq<SwapData>, releases: seq<Settlement>) {
    forall d :: d in open <==> Says(offers, releases, Open(d))
  }

  /** Of an ID without an offer the first release is kept. */
  ghost predicate SettlingForm(settling: seq<Settlement>, offers: seq<SwapData>, releases: seq<Settlement>) {
    forall r: Settlement | r.swapId !in OpenIds(offers) ::
      r in settling <==> FirstRelease(releases, r.swapId) == Some(r)
  }

  ghost predicate LastForm(emitted: seq<AtomicSwap>, offers: seq<SwapData>, releases: seq<Settlement>) {
    forall w: AtomicSwap :: LastAbout(emitted, w.data.id) == Some(w) <==> Says(offers, releases, w)
  }

  lemma {:induction false} FirstReleaseHasId(releases: seq<Settlement>, id: SwapId)
    ensures FirstRelease(releases, id).Some? ==> FirstRelease(releases, id).value.swapId == id
  {
    if releases != [] {
      FirstReleaseHasId(releases[..|releases| - 1], id);
    }
  }

  lemma FirstReleaseAppend(releases: seq<Settlement>, r: Settlement, id: SwapId)
    ensures FirstRelease(releases + [r], id) ==
      if FirstRelease(releases, id).None? && r.swapId == id then Some(r) else FirstRelease(releases, id)
  {
    FrontOfAppend(releases, r);
  }

  lemma OfferedId(offers: seq<SwapData>, d: SwapData)
    requires d in offers
    ensures d.id in OpenIds(offers)
  {
    OpenPoolHas(offers, d.id);
  }

  /** What an offer adds. */
  lemma SaysWithOffer(offers: seq<SwapData>, releases: seq<Settlement>, d: SwapData, w: AtomicSwap)
    requires d.id !in OpenIds(offers)
    ensures Says(offers + [d], releases, w) <==>
      if w.data.id == d.id
      then w.data == d && FirstRelease(releases, d.id) == if w.Open? then None else Some(SettlementOf(w))
      else Says(offers, releases, w)
  {
    if w.data in offers {
      OfferedId(offers, w.data);
    }
  }

  lemma OfferOpens(open: seq<SwapData>, offers: seq<SwapData>, releases: seq<Settlement>, d: SwapData)
    requires OpenForm(open, offers, releases) && d.id !in OpenIds(offers)
    ensures OpenForm(if FirstRelease(releases, d.id).None? then open + [d] else open, offers + [d], releases)
  {
    var after := if FirstRelease(releases, d.id).None? then open + [d] else open;
    forall e
      ensures e in after <==> Says(offers + [d], releases, Open(e))
    {
      SaysWithOffer(offers, releases, d, Open(e));
      if e in open {
        OfferedId(offers, e);
      }
    }
  }

  /** The state of a swap whose offer arrives. */
  ghost function Arrived(d: SwapData, releases: seq<Settlement>): AtomicSwap {
    match FirstRelease(releases, d.id)
    case None => Open(d)
    case Some(r) => SettleAtomicSwap(d, r)
  }

  lemma OfferIsReported(emitted: seq<AtomicSwap>, offers: seq<SwapData>, releases: seq<Settlement>, d: SwapData)
    requires LastForm(emitted, offers, releases) && d.id !in OpenIds(offers)
    ensures LastForm(emitted + [Arrived(d, releases)], offers + [d], releases)
  {
    var swap := Arrived(d, releases);
    FirstReleaseHasId(releases, d.id);
    forall w: AtomicSwap
      ensures LastAbout(emitted + [swap], w.data.id) == Some(w) <==> Says(offers + [d], releases, w)
    {
      LastAboutAppend(emitted, swap, w.data.id);
      SaysWithOffer(offers, releases, d, w);
    }
  }

  lemma OfferTakesRelease(
    settling: seq<Settlement>, after: seq<Settlement>, offers: seq<SwapData>, releases: seq<Settlement>, d: SwapData)
    requires SettlingForm(settling, offers, releases)
    requires forall r: Settlement | r.swapId != d.id :: r in after <==> r in settling
    ensures SettlingForm(after, offers + [d], releases)
  {
    assert OpenIds(offers + [d]) == OpenIds(offers) + [d.id];
  }

  /** The offer finds its first release in the pool if and only if there is one. */
  lemma OfferFindsRelease(settling: seq<Settlement>, offers: seq<SwapData>, releases: seq<Settlement>, id: SwapId)
    requires SettlingForm(settling, offers, releases) && id !in OpenIds(offers)
    ensures id in SettlingIds(settling) <==> FirstRelease(releases, id).Some?
    ensures forall r | r in settling && r.swapId == id :: FirstRelease(releases, id) == Some(r)
  {
    SettlingPoolHas(settling, id);
    FirstReleaseHasId(releases, id);
    if FirstRelease(releases, id).Some? {
      assert FirstRelease(releases, id).value in settling;
    }
  }

  lemma ReleaseCloses(open: seq<SwapData>, i: nat, offers: seq<SwapData>, releases: seq<Settlement>, r: Settlement)
    requires OpenForm(open, offers, releases) && NoDuplicates(OpenIds(offers)) && NoDuplicates(OpenIds(open))
    requires i < |open| && open[i].id == r.swapId
    ensures OpenForm(RemoveAt(open, i), offers, releases + [r])
  {
    var d := open[i];
    assert d in open;
    DistinctOpen(open);
    forall e
      ensures e in RemoveAt(open, i) <==> Says(offers, releases + [r], Open(e))
    {
      RemoveAtMembers(open, i, e);
      ReleaseOfOpen(offers, releases, r, d, Open(e));
      if e in open && e.id == d.id {
        OfferIds(offers, e, d);
      }
    }
  }

  lemma ReleaseIsReported(
    emitted: seq<AtomicSwap>, offers: seq<SwapData>, releases: seq<Settlement>, d: SwapData, r: Settlement)
    requires LastForm(emitted, offers, releases) && NoDuplicates(OpenIds(offers))
    requires d.id == r.swapId && Says(offers, releases, Open(d))
    ensures LastForm(emitted + [SettleAtomicSwap(d, r)], offers, releases + [r])
  {
    var swap := SettleAtomicSwap(d, r);
    forall w: AtomicSwap
      ensures LastAbout(emitted + [swap], w.data.id) == Some(w) <==> Says(offers, releases + [r], w)
    {
      LastAboutAppend(emitted, swap, w.data.id);
      ReleaseOfOpen(offers, releases, r, d, w);
    }
  }

  lemma OtherReleaseSaysNothing(
    open: seq<SwapData>, offers: seq<SwapData>, releases: seq<Settlement>, r: Settlement, w: AtomicSwap)
    requires OpenForm(open, offers, releases) && r.swapId !in OpenIds(open)
    ensures Says(offers, releases + [r], w) <==> Says(offers, releases, w)
  {
    FirstReleaseAppend(releases, r, w.data.id);
    if w.data in offers && FirstRelease(releases, w.data.id).None? {
      assert Says(offers, releases, Open(w.data));
      OfferedId(open, w.data);
    }
  }

  lemma OfferedReleaseKeepsSettling(
    settling: seq<Settlement>, offers: seq<SwapData>, releases: seq<Settlement>, r: Settlement)
    requires SettlingForm(settling, offers, releases) && r.swapId in OpenIds(offers)
    ensures SettlingForm(settling, offers, releases + [r])
  {
    forall x: Settlement { FirstReleaseAppend(releases, r, x.swapId); }
  }

  lemma ReleaseIsKept(settling: seq<Settlement>, offers: seq<SwapData>, releases: seq<Settlement>, r: Settlement)
    requires SettlingForm(settling, offers, releases) && r.swapId !in SettlingIds(settling)
    ensures SettlingForm(settling + [r], offers, releases + [r])
  {
    forall x: Settlement | x.swapId !in OpenIds(offers)
      ensures x in settling + [r] <==> FirstRelease(releases + [r], x.swapId) == Some(x)
    {
      FirstReleaseAppend(releases, r, x.swapId);
      OfferFindsRelease(settling, offers, releases, x.swapId);
      SettlingPoolHas(settling, x.swapId);
    }
  }
}
