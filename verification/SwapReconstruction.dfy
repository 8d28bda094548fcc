/** Two reconstructions of the swaps behind a transaction log: the fold over Ethereum contract
    logs (packages/iov-ethereum/src/ethereumconnection.ts) and `getSwaps` of the BNS connection
    (packages/iov-bns/src/bnsconnection.ts), which drives the merger with all offers first. */
module SwapReconstruction {
  import opened Results
  import opened Sequences
  import opened Swaps
  import opened SwapMerger
  import opened MergerInputs

  // ----- Ethereum: a fold over the logs ------------------------------------------------------

  /** `Opened(None)` is an opened event for a token that is not tracked. */
  datatype LogEntry = Opened(parsed: Option<SwapData>) | Released(settlement: Settlement)

  function UpdateSwapInList(swaps: seq<AtomicSwap>, settlement: Settlement): seq<AtomicSwap> {
    var i := IndexOfId(SwapIds(swaps), settlement.swapId);
    if i == |swaps| then swaps
    else RemoveAt(swaps, i) + [SettleAtomicSwap(swaps[i].data, settlement)]
  }

  function FoldLog(log: seq<LogEntry>): seq<AtomicSwap> {
    if log == [] then []
    else
      var swaps := FoldLog(log[..|log| - 1]);
      match log[|log| - 1]
      case Opened(None) => swaps
      case Opened(Some(data)) => swaps + [Open(data)]
      case Released(settlement) => UpdateSwapInList(swaps, settlement)
  }

  /** The swap events a log tells about. */
  function LogEvents(log: seq<LogEntry>): seq<SwapEvent> {
    if log == [] then []
    else
      var before := LogEvents(log[..|log| - 1]);
      match log[|log| - 1]
      case Opened(None) => before
      case Opened(Some(data)) => before + [Offer(data)]
      case Released(settlement) => before + [Settle(settlement)]
  }

  // ----- BNS: the merger, offers before releases -----------------------------------------------

  function OffersIn(events: seq<SwapEvent>): seq<SwapData> {
    if events == [] then []
    else
      var last := events[|events| - 1];
      var before := OffersIn(events[..|events| - 1]);
      if last.Offer? then before + [last.data] else before
  }

  function ReleasesIn(events: seq<SwapEvent>): seq<Settlement> {
    if events == [] then []
    else
      var last := events[|events| - 1];
      var before := ReleasesIn(events[..|events| - 1]);
      if last.Settle? then before + [last.settlement] else before
  }

  /** All traces of a run, from the first to the last. */
  ghost predicate AreTraces(events: seq<SwapEvent>, traces: seq<Trace>) {
    && |traces| == |events| + 1
    && traces[0] == Trace(Pools([], []), true, [])
    && (forall k: nat | k < |events| :: StepAt(events, traces, k))
  }

  ghost predicate StepAt(events: seq<SwapEvent>, traces: seq<Trace>, k: nat)
    requires k < |events| && k + 1 < |traces|
  {
    traces[k + 1] == AfterEvent(traces[k], events[k])
  }

  lemma {:induction false} TracesOf(events: seq<SwapEvent>) returns (traces: seq<Trace>)
    ensures AreTraces(events, traces) && traces[|events|] == Run(events)
  {
    if events == [] {
      traces := [Trace(Pools([], []), true, [])];
    } else {
      var n := |events| - 1;
      var before := events[..n];
      var earlier := TracesOf(before);
      traces := earlier + [Run(events)];
      forall k: nat | k < |events|
        ensures StepAt(events, traces, k)
      {
        if k < n {
          assert StepAt(before, earlier, k);
        }
      }
    }
  }

  lemma {:induction false} ThrowingPrefix(events: seq<SwapEvent>, traces: seq<Trace>, k: nat, n: nat)
    requires AreTraces(events, traces) && k <= n <= |events| && !traces[k].ok
    ensures !traces[n].ok
    decreases n
  {
    if k < n {
      ThrowingPrefix(events, traces, k, n - 1);
      assert StepAt(events, traces, n - 1);
    }
  }

  function WithResult(settled: seq<AtomicSwap>, result: Option<AtomicSwap>): seq<AtomicSwap> {
    if result.Some? then settled + [result.value] else settled
  }

  /** The first loop. If an offer throws, the run fails after k events. */
  method FeedOffers(
    merger: AtomicSwapMerger, offers: seq<SwapData>, ghost input: seq<SwapEvent>, ghost traces: seq<Trace>)
    returns (error: Option<MergeError>, ghost k: nat)
    requires AreTraces(input, traces) && merger.Abs() == Pools([], [])
    requires |offers| <= |input| && forall i | 0 <= i < |offers| :: input[i] == Offer(offers[i])
    modifies merger
    ensures error.Some? ==> k <= |input| && !traces[k].ok
    ensures error.None? ==> traces[|offers|] == Trace(merger.Abs(), true, [])
  {
    k := 0;
    for i := 0 to |offers|
      invariant traces[i] == Trace(merger.Abs(), true, []) && merger.settling == []
    {
      var outcome := merger.Process(Offer(offers[i]));
      k := i + 1;
      assert StepAt(input, traces, i);
      if outcome.Err? {
        return Some(outcome.error), k;
      }
    }
    return None, k;
  }

  /** The second loop. */
  method FeedReleases(
    merger: AtomicSwapMerger, releases: seq<Settlement>, ghost input: seq<SwapEvent>, ghost traces: seq<Trace>,
    ghost start: nat)
    returns (r: Result<seq<AtomicSwap>, MergeError>, ghost k: nat)
    requires AreTraces(input, traces) && start + |releases| == |input|
    requires forall i | 0 <= i < |releases| :: input[start + i] == Settle(releases[i])
    requires traces[start] == Trace(merger.Abs(), true, [])
    modifies merger
    ensures k <= |input|
    ensures r.Err? ==> !traces[k].ok
    ensures r.Ok? ==> k == |input| && traces[k] == Trace(merger.Abs(), true, r.value)
  {
    var settled: seq<AtomicSwap> := [];
    k := start;
    for i := 0 to |releases|
      invariant k == start + i && traces[k] == Trace(merger.Abs(), true, settled)
    {
      var outcome := merger.Process(Settle(releases[i]));
      assert StepAt(input, traces, k);
      k := k + 1;
      if outcome.Err? {
        return Err(outcome.error), k;
      }
      settled := WithResult(settled, outcome.value);
    }
    r := Ok(settled);
  }

  method GetSwaps(offers: seq<SwapData>, releases: seq<Settlement>) returns (r: Result<seq<AtomicSwap>, MergeError>)
    ensures r.Ok? <==> Accepted(offers, releases)
    ensures r.Ok? ==> r.value == MergedSwaps(offers, releases)
  {
    ghost var input := MergerInput(offers, releases);
    ghost var k := 0;
    NeverThrowsIffAccepted(offers, releases);
    ghost var traces := TracesOf(input);
    var merger := new AtomicSwapMerger();
    var error: Option<MergeError>;
    error, k := FeedOffers(merger, offers, input, traces);
    if error.Some? {
      ThrowingPrefix(input, traces, k, |input|);
      return Err(error.value);
    }
    r, k := FeedReleases(merger, releases, input, traces, |offers|);
    if r.Ok? {
      return Ok(AsOpenSwaps(merger.open) + r.value);
    }
    ThrowingPrefix(input, traces, k, |input|);
  }

  lemma OneMoreOffer(offers: seq<SwapData>, releases: seq<Settlement>, d: SwapData)
    ensures multiset(MergerInput(offers + [d], releases))
         == multiset(MergerInput(offers, releases)) + multiset{Offer(d)}
  {
    var a := seq(|offers|, i requires 0 <= i < |offers| => Offer(offers[i]));
    var b := seq(|releases|, i requires 0 <= i < |releases| => Settle(releases[i]));
    assert MergerInput(offers, releases) == a + b;
    assert MergerInput(offers + [d], releases) == a + [Offer(d)] + b;
  }

  lemma OneMoreRelease(offers: seq<SwapData>, releases: seq<Settlement>, s: Settlement)
    ensures multiset(MergerInput(offers, releases + [s]))
         == multiset(MergerInput(offers, releases)) + multiset{Settle(s)}
  {
    assert MergerInput(offers, releases + [s]) == MergerInput(offers, releases) + [Settle(s)];
  }

  lemma {:induction false} MergerInputPermutes(events: seq<SwapEvent>)
    ensures multiset(MergerInput(OffersIn(events), ReleasesIn(events))) == multiset(events)
  {
    if events != [] {
      var before, last := events[..|events| - 1], events[|events| - 1];
      MergerInputPermutes(before);
      assert events == before + [last];
      var offers, releases := OffersIn(before), ReleasesIn(before);
      match last {
        case Offer(d) =>
          OneMoreOffer(offers, releases, d);
          assert ReleasesIn(events) == releases;
        case Settle(s) =>
          OneMoreRelease(offers, releases, s);
          assert OffersIn(events) == offers;
      }
    }
  }

  // ----- What each reconstruction says about a swap ----------------------------------------------

  /** The settlement s comes after the offer of d. */
  ghost predicate SettledAfterOffer(events: seq<SwapEvent>, d: SwapData, s: Settlement) {
    exists i, j :: 0 <= i < j < |events| && events[i] == Offer(d) && events[j] == Settle(s)
  }

  /** No settlement comes before the offer with its ID. */
  ghost predicate SettlementsFollowOffers(events: seq<SwapEvent>) {
    forall i, j | 0 <= i < j < |events| ::
      !(events[i].Settle? && events[j].Offer? && IdOf(events[i]) == IdOf(events[j]))
  }

  ghost predicate FoldSays(events: seq<SwapEvent>, w: AtomicSwap) {
    && Offer(w.data) in events
    && (w.Open? ==> forall s: Settlement | s.swapId == w.data.id :: !SettledAfterOffer(events, w.data, s))
    && (!w.Open? ==> SettledAfterOffer(events, w.data, SettlementOf(w)))
  }

  ghost predicate MergerSays(events: seq<SwapEvent>, w: AtomicSwap) {
    if w.Open? then Offer(w.data) in events && !Settles(events, w.data.id) else Merges(events, w)
  }

  lemma SettledAfterAppend(before: seq<SwapEvent>, last: SwapEvent, d: SwapData, s: Settlement)
    ensures SettledAfterOffer(before + [last], d, s)
       <==> SettledAfterOffer(before, d, s) || (last == Settle(s) && Offer(d) in before)
  {
    var events := before + [last];
    if SettledAfterOffer(before, d, s) {
      var i, j :| 0 <= i < j < |before| && before[i] == Offer(d) && before[j] == Settle(s);
      assert events[i] == Offer(d) && events[j] == Settle(s);
    }
    if last == Settle(s) && Offer(d) in before {
      var i :| 0 <= i < |before| && before[i] == Offer(d);
      assert events[i] == Offer(d) && events[|before|] == Settle(s);
    }
  }

  lemma SwapListHas(swaps: seq<AtomicSwap>, id: SwapId)
    ensures id in SwapIds(swaps) <==> exists w :: w in swaps && w.data.id == id
  {
    if id in SwapIds(swaps) {
      var i :| 0 <= i < |swaps| && SwapIds(swaps)[i] == id;
      assert swaps[i] in swaps && swaps[i].data.id == id;
    }
    if w :| w in swaps && w.data.id == id {
      var i :| 0 <= i < |swaps| && swaps[i] == w;
      assert SwapIds(swaps)[i] == id;
    }
  }

  ghost predicate FoldForm(swaps: seq<AtomicSwap>, events: seq<SwapEvent>) {
    && NoDuplicates(SwapIds(swaps))
    && (forall w :: w in swaps <==> FoldSays(events, w))
  }

  lemma FoldOffer(swaps: seq<AtomicSwap>, before: seq<SwapEvent>, data: SwapData)
    requires AtMostOncePerId(before + [Offer(data)]) && FoldForm(swaps, before)
    ensures FoldForm(swaps + [Open(data)], before + [Offer(data)])
  {
    var last := Offer(data);
    var events := before + [last];
    EventsAppend(before, last);
    SwapListHas(swaps, data.id);
    assert SwapIds(swaps + [Open(data)]) == SwapIds(swaps) + [data.id];
    forall w
      ensures w in swaps + [Open(data)] <==> FoldSays(events, w)
    {
      forall s { SettledAfterAppend(before, last, w.data, s); }
      if w.data.id == data.id && Offer(w.data) in events {
        assert w.data == data;
        forall s
          ensures !SettledAfterOffer(before, data, s)
        {
        }
      }
    }
  }

  lemma OfferIsTracked(swaps: seq<AtomicSwap>, events: seq<SwapEvent>, d: SwapData)
    requires FoldForm(swaps, events) && Offer(d) in events
    ensures d.id in SwapIds(swaps)
  {
    if s: Settlement :| s.swapId == d.id && SettledAfterOffer(events, d, s) {
      assert FoldSays(events, SettleAtomicSwap(d, s));
    } else {
      assert FoldSays(events, Open(d));
    }
    SwapListHas(swaps, d.id);
  }

  lemma FoldSettleUntracked(swaps: seq<AtomicSwap>, before: seq<SwapEvent>, s: Settlement)
    requires FoldForm(swaps, before) && s.swapId !in SwapIds(swaps)
    ensures FoldForm(swaps, before + [Settle(s)])
  {
    forall w
      ensures FoldSays(before, w) <==> FoldSays(before + [Settle(s)], w)
    {
      forall t { SettledAfterAppend(before, Settle(s), w.data, t); }
      if Offer(w.data) in before {
        OfferIsTracked(swaps, before, w.data);
      }
    }
  }

  lemma FoldSettleTracked(swaps: seq<AtomicSwap>, before: seq<SwapEvent>, s: Settlement, i: nat)
    requires AtMostOncePerId(before + [Settle(s)]) && FoldForm(swaps, before)
    requires i < |swaps| && SwapIds(swaps)[i] == s.swapId
    ensures FoldForm(RemoveAt(swaps, i) + [SettleAtomicSwap(swaps[i].data, s)], before + [Settle(s)])
  {
    var tracked := swaps[i].data;
    assert swaps[i] in swaps;
    var ids, updated := SwapIds(swaps), RemoveAt(swaps, i) + [SettleAtomicSwap(tracked, s)];
    DistinctSwaps(swaps);
    assert SwapIds(updated) == RemoveAt(ids, i) + [s.swapId];
    RemoveAtMembers(ids, i, s.swapId);
    forall w
      ensures w in updated <==> FoldSays(before + [Settle(s)], w)
    {
      RemoveAtMembers(swaps, i, w);
      if w.data.id != s.swapId {
        OtherSwapUnchanged(before, s, w);
      } else {
        SettledSwapReplaces(before, s, tracked, w);
        if w in swaps {
          SameIdSameEntry(swaps, i, w);
        }
      }
    }
  }

  lemma FoldSettle(swaps: seq<AtomicSwap>, before: seq<SwapEvent>, s: Settlement)
    requires AtMostOncePerId(before + [Settle(s)]) && FoldForm(swaps, before)
    ensures FoldForm(UpdateSwapInList(swaps, s), before + [Settle(s)])
  {
    var i := IndexOfId(SwapIds(swaps), s.swapId);
    if i == |swaps| {
      FoldSettleUntracked(swaps, before, s);
    } else {
      FoldSettleTracked(swaps, before, s, i);
    }
  }

  lemma OtherSwapUnchanged(before: seq<SwapEvent>, s: Settlement, w: AtomicSwap)
    requires w.data.id != s.swapId
    ensures FoldSays(before + [Settle(s)], w) <==> FoldSays(before, w)
  {
    forall t { SettledAfterAppend(before, Settle(s), w.data, t); }
  }

  lemma SettledSwapReplaces(before: seq<SwapEvent>, s: Settlement, tracked: SwapData, w: AtomicSwap)
    requires AtMostOncePerId(before + [Settle(s)])
    requires Offer(tracked) in before && tracked.id == s.swapId == w.data.id
    ensures FoldSays(before + [Settle(s)], w) <==> w == SettleAtomicSwap(tracked, s)
  {
    var last := Settle(s);
    EventsAppend(before, last);
    AtMostOnceBefore(before, last);
    forall t { SettledAfterAppend(before, last, w.data, t); }
    if Offer(w.data) in before {
      assert SameSlot(Offer(w.data), Offer(tracked));
      forall t: Settlement | t.swapId == s.swapId
        ensures SettledAfterOffer(before + [last], tracked, t) <==> t == s
      {
      }
    }
  }

  lemma SameIdSameEntry(swaps: seq<AtomicSwap>, i: nat, w: AtomicSwap)
    requires i < |swaps| && NoDuplicates(SwapIds(swaps)) && w in swaps && w.data.id == swaps[i].data.id
    ensures w == swaps[i]
  {
    var j :| 0 <= j < |swaps| && swaps[j] == w;
    assert SwapIds(swaps)[j] == SwapIds(swaps)[i];
  }

  lemma {:induction false} LogFoldForm(log: seq<LogEntry>)
    requires AtMostOncePerId(LogEvents(log))
    ensures FoldForm(FoldLog(log), LogEvents(log))
  {
    if log != [] {
      var before := log[..|log| - 1];
      match log[|log| - 1]
      case Opened(None) =>
        LogFoldForm(before);
      case Opened(Some(data)) =>
        AtMostOnceBefore(LogEvents(before), Offer(data));
        LogFoldForm(before);
        FoldOffer(FoldLog(before), LogEvents(before), data);
      case Released(settlement) =>
        AtMostOnceBefore(LogEvents(before), Settle(settlement));
        LogFoldForm(before);
        FoldSettle(FoldLog(before), LogEvents(before), settlement);
    }
  }

  // ----- Agreement --------------------------------------------------------------------------------

  lemma MergerForm(events: seq<SwapEvent>)
    requires AtMostOncePerId(events)
    ensures
      var offers, releases := OffersIn(events), ReleasesIn(events);
      var merged := MergedSwaps(offers, releases);
      && NeverThrows(MergerInput(offers, releases))
      && NoDuplicates(merged)
      && (forall w :: w in merged <==> MergerSays(events, w))
  {
    var input := MergerInput(OffersIn(events), ReleasesIn(events));
    MergerInputPermutes(events);
    AtMostOncePermutes(events, input);
    RunForm(input);
    forall e { SameMultisetSameMembers(input, events, e); }
    var open, settled := RunPools(input).open, SettledBy(input);
    forall id
      ensures Settles(input, id) <==> Settles(events, id)
    {
    }
    forall w
      ensures Merges(input, w) <==> Merges(events, w)
    {
    }
    var id :| true;
    PoolsAreTheBalance(input, id);
    DistinctOpen(open);
    DistinctSwaps(settled);
    forall w { OpenAsSwaps(open, w); }
    forall w | w in settled
      ensures !w.Open?
    {
      assert Merges(input, w);
    }
    OpenThenSettled(open, settled);
  }

  /** A settlement before its offer: the fold reports the swap as open, the merger as settled. */
  lemma EarlySettlementDisagrees(events: seq<SwapEvent>, i: nat, j: nat)
    requires AtMostOncePerId(events)
    requires i < j < |events| && events[i].Settle? && events[j].Offer? && IdOf(events[i]) == IdOf(events[j])
    ensures FoldSays(events, Open(events[j].data)) && !MergerSays(events, Open(events[j].data))
  {
    var d, s := events[j].data, events[i].settlement;
    assert Settle(s) in events;
    forall t: Settlement | t.swapId == d.id
      ensures !SettledAfterOffer(events, d, t)
    {
      if k, l :| 0 <= k < l < |events| && events[k] == Offer(d) && events[l] == Settle(t) {
        assert SameSlot(events[l], events[i]);
        SamePosition(events, l, i);
        SamePosition(events, k, j);
      }
    }
  }

  lemma SamePosition(events: seq<SwapEvent>, k: nat, j: nat)
    requires AtMostOncePerId(events) && k < |events| && j < |events| && events[k] == events[j]
    ensures k == j
  {
    if k < j {
      RepeatedEvent(events, k, j);
    } else if j < k {
      RepeatedEvent(events, j, k);
    }
  }

  lemma RepeatedEvent(events: seq<SwapEvent>, i: nat, j: nat)
    requires i < j < |events| && events[i] == events[j]
    ensures multiset(events)[events[i]] >= 2
  {
    assert events == events[..i] + [events[i]] + events[i + 1..j] + [events[j]] + events[j + 1..];
  }

  lemma FoldSaysWhatMergerSays(events: seq<SwapEvent>, w: AtomicSwap)
    requires AtMostOncePerId(events) && SettlementsFollowOffers(events)
    ensures FoldSays(events, w) <==> MergerSays(events, w)
  {
    if Offer(w.data) in events {
      var i :| 0 <= i < |events| && events[i] == Offer(w.data);
      forall s: Settlement | s.swapId == w.data.id && Settle(s) in events
        ensures SettledAfterOffer(events, w.data, s)
      {
        var j :| 0 <= j < |events| && events[j] == Settle(s);
        assert i < j;
      }
    }
  }

  /** With at most one offer and one settlement per ID, `getSwaps` does not throw, and it and the
      Ethereum fold give the same swaps if and only if no settlement precedes its offer in the log.
      Each of the two lists every swap ID once, so this is also agreement as maps from ID to state. */
  lemma ReconstructionsAgreeIff(log: seq<LogEntry>)
    requires AtMostOncePerId(LogEvents(log))
    ensures
      var events := LogEvents(log);
      var merged := MergedSwaps(OffersIn(events), ReleasesIn(events));
      && NeverThrows(MergerInput(OffersIn(events), ReleasesIn(events)))
      && NoDuplicates(SwapIds(FoldLog(log)))
      && (multiset(FoldLog(log)) == multiset(merged) <==> SettlementsFollowOffers(events))
  {
    var events := LogEvents(log);
    var folded, merged := FoldLog(log), MergedSwaps(OffersIn(events), ReleasesIn(events));
    LogFoldForm(log);
    MergerForm(events);
    DistinctSwaps(folded);
    if SettlementsFollowOffers(events) {
      forall w { FoldSaysWhatMergerSays(events, w); }
      SameMembersSameMultiset(folded, merged);
    } else {
      var i, j :| 0 <= i < j < |events| && events[i].Settle? && events[j].Offer? && IdOf(events[i]) == IdOf(events[j]);
      EarlySettlementDisagrees(events, i, j);
      var w := Open(events[j].data);
      assert w in folded && w !in merged;
      assert w in multiset(folded) && w !in multiset(merged);
    }
  }

  /** The shortest log on which they disagree: the fold ignores the settlement, the merger keeps it. */
  lemma EarlySettlement(d: SwapData, s: Settlement)
    requires s.swapId == d.id
    ensures
      var log, events := [Released(s), Opened(Some(d))], [Settle(s), Offer(d)];
      && LogEvents(log) == events && AtMostOncePerId(events)
      && FoldLog(log) == [Open(d)]
      && MergedSwaps(OffersIn(events), ReleasesIn(events)) == [SettleAtomicSwap(d, s)]
  {
    EarlyLog(d, s);
    EarlyEvents(d, s);
    MergeOfTwo(d, s);
  }

  lemma EarlyLog(d: SwapData, s: Settlement)
    ensures
      var log := [Released(s), Opened(Some(d))];
      LogEvents(log) == [Settle(s), Offer(d)] && FoldLog(log) == [Open(d)]
  {
    var nothing: seq<LogEntry>, first, log := [], [Released(s)], [Released(s), Opened(Some(d))];
    assert first[..0] == nothing && log[..1] == first;
    assert LogEvents(first) == LogEvents(nothing) + [Settle(s)];
    assert FoldLog(nothing) == [] && UpdateSwapInList([], s) == [];
    assert first[|first| - 1] == Released(s);
    assert FoldLog(first) == [];
  }

  lemma EarlyEvents(d: SwapData, s: Settlement)
    ensures
      var events := [Settle(s), Offer(d)];
      AtMostOncePerId(events) && OffersIn(events) == [d] && ReleasesIn(events) == [s]
  {
    var nothing: seq<SwapEvent>, first, events := [], [Settle(s)], [Settle(s), Offer(d)];
    assert first[..0] == nothing && events[..1] == first;
    assert OffersIn(nothing) == [] && ReleasesIn(nothing) == [];
    assert OffersIn(first) == [] && ReleasesIn(first) == [] + [s];
    assert multiset(events) == multiset{Settle(s), Offer(d)};
  }

  lemma MergeOfTwo(d: SwapData, s: Settlement)
    requires s.swapId == d.id
    ensures MergedSwaps([d], [s]) == [SettleAtomicSwap(d, s)]
  {
    var input := [Offer(d), Settle(s)];
    assert MergerInput([d], [s]) == input;
    assert OpenIds([d]) == [d.id] && RemoveAt([d], 0) == [];
    var t := Trace(Pools([d], []), true, []);
    var traces := TracesOf(input);
    assert StepAt(input, traces, 0) && traces[1] == t;
    assert StepAt(input, traces, 1) && traces[2] == Trace(Pools([], []), true, [SettleAtomicSwap(d, s)]);
  }

  lemma SameSaysSameMerged(events: seq<SwapEvent>, more: seq<SwapEvent>)
    requires AtMostOncePerId(events) && AtMostOncePerId(more)
    requires forall w :: MergerSays(more, w) <==> MergerSays(events, w)
    ensures multiset(MergedSwaps(OffersIn(more), ReleasesIn(more)))
      == multiset(MergedSwaps(OffersIn(events), ReleasesIn(events)))
  {
    MergerForm(events);
    MergerForm(more);
    var a, b := MergedSwaps(OffersIn(more), ReleasesIn(more)), MergedSwaps(OffersIn(events), ReleasesIn(events));
    SameMembersSameMultiset(a, b);
  }

  lemma MergerIgnoresUntracked(events: seq<SwapEvent>, s: Settlement, w: AtomicSwap)
    requires AtMostOncePerId(events + [Settle(s)]) && !Offers(events, s.swapId)
    ensures MergerSays(events + [Settle(s)], w) <==> MergerSays(events, w)
  {
    EventsAppend(events, Settle(s));
    if Offer(w.data) in events {
      assert w.data.id != s.swapId;
    }
  }

  /** A settlement for an ID that was never offered changes neither reconstruction. */
  lemma {:induction false} UntrackedSettlementChangesNothing(log: seq<LogEntry>, s: Settlement)
    requires AtMostOncePerId(LogEvents(log) + [Settle(s)]) && !Offers(LogEvents(log), s.swapId)
    ensures
      var more := log + [Released(s)];
      var events, moreEvents := LogEvents(log), LogEvents(more);
      && FoldLog(more) == FoldLog(log)
      && multiset(MergedSwaps(OffersIn(moreEvents), ReleasesIn(moreEvents)))
      == multiset(MergedSwaps(OffersIn(events), ReleasesIn(events)))
  {
    var events := LogEvents(log);
    AtMostOnceBefore(events, Settle(s));
    LogFoldForm(log);
    SwapListHas(FoldLog(log), s.swapId);
    assert (log + [Released(s)])[..|log|] == log;
    forall w { MergerIgnoresUntracked(events, s, w); }
    SameSaysSameMerged(events, LogEvents(log + [Released(s)]));
  }
}
