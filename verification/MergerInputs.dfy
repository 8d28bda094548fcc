/** `getSwaps` of the BNS connection (packages/iov-bns/src/bnsconnection.ts) gives the merger all offers
    and then all releases it has found. Releases are collected from two searches, so that the same
    release can occur twice. */
module MergerInputs {
  import opened Results
  import opened Sequences
  import opened Swaps
  import opened SwapMerger

  /** The order in which `getSwaps` feeds the merger. */
  function MergerInput(offers: seq<SwapData>, releases: seq<Settlement>): (events: seq<SwapEvent>)
    ensures |events| == |offers| + |releases|
  {
    seq(|offers|, i requires 0 <= i < |offers| => Offer(offers[i])) +
    seq(|releases|, i requires 0 <= i < |releases| => Settle(releases[i]))
  }

  function AsOpenSwaps(open: seq<SwapData>): (swaps: seq<AtomicSwap>)
    ensures |swaps| == |open|
  {
    seq(|open|, i requires 0 <= i < |open| => Open(open[i]))
  }

  ghost function MergedSwaps(offers: seq<SwapData>, releases: seq<Settlement>): seq<AtomicSwap> {
    var input := MergerInput(offers, releases);
    AsOpenSwaps(RunPools(input).open) + SettledBy(input)
  }

  // ----- Which inputs throw ----------------------------------------------------------------------

  /** Offers minus settlements for an ID. */
  ghost function Balance(events: seq<SwapEvent>, id: SwapId): int {
    if events == [] then 0
    else
      var last := events[|events| - 1];
      Balance(events[..|events| - 1], id) + if IdOf(last) == id then Delta(last) else 0
  }

  /** After every event the balance of its ID is -1, 0 or 1. */
  ghost predicate StaysInRange(events: seq<SwapEvent>) {
    events == [] ||
    (StaysInRange(events[..|events| - 1]) && -1 <= Balance(events, IdOf(events[|events| - 1])) <= 1)
  }

  /** Whether a run throws depends on the balances of its events alone. */
  lemma {:induction false} NeverThrowsIff(events: seq<SwapEvent>)
    ensures NeverThrows(events) <==> StaysInRange(events)
    ensures NeverThrows(events) ==> forall id :: NetAccepted(events, id) == Balance(events, id)
  {
    if events != [] {
      var before, last := events[..|events| - 1], events[|events| - 1];
      NeverThrowsIff(before);
      ThrowsIffBalanceLeavesRange(before, last);
    }
  }

  ghost function OfferCount(offers: seq<SwapData>, id: SwapId): nat {
    if offers == [] then 0
    else OfferCount(offers[..|offers| - 1], id) + if offers[|offers| - 1].id == id then 1 else 0
  }

  ghost function ReleaseCount(releases: seq<Settlement>, id: SwapId): nat {
    if releases == [] then 0
    else ReleaseCount(releases[..|releases| - 1], id) + if releases[|releases| - 1].swapId == id then 1 else 0
  }

  /** No ID is offered twice, released twice without an offer or three times with one. */
  ghost predicate Accepted(offers: seq<SwapData>, releases: seq<Settlement>) {
    forall id :: OfferCount(offers, id) <= 1 && ReleaseCount(releases, id) <= 1 + OfferCount(offers, id)
  }

  lemma InputWithoutReleases(offers: seq<SwapData>)
    requires offers != []
    ensures MergerInput(offers, []) == MergerInput(offers[..|offers| - 1], []) + [Offer(offers[|offers| - 1])]
  {
  }

  lemma InputWithRelease(offers: seq<SwapData>, releases: seq<Settlement>)
    requires releases != []
    ensures MergerInput(offers, releases)
         == MergerInput(offers, releases[..|releases| - 1]) + [Settle(releases[|releases| - 1])]
  {
  }

  lemma {:induction false} BalanceOfInput(offers: seq<SwapData>, releases: seq<Settlement>, id: SwapId)
    ensures Balance(MergerInput(offers, releases), id) == OfferCount(offers, id) - ReleaseCount(releases, id)
    decreases |offers| + |releases|
  {
    if releases != [] {
      var before, last := releases[..|releases| - 1], releases[|releases| - 1];
      BalanceOfInput(offers, before, id);
      InputWithRelease(offers, releases);
    } else if offers != [] {
      var before, last := offers[..|offers| - 1], offers[|offers| - 1];
      BalanceOfInput(before, [], id);
      InputWithoutReleases(offers);
    }
  }

  lemma AcceptedOffer(before: seq<SwapData>, last: SwapData)
    ensures Accepted(before + [last], []) <==> Accepted(before, []) && OfferCount(before + [last], last.id) <= 1
  {
    var all := before + [last];
    assert all[..|before|] == before;
    assert forall id :: OfferCount(all, id) == OfferCount(before, id) + if last.id == id then 1 else 0;
  }

  lemma {:induction false} InRangeIffAccepted(offers: seq<SwapData>, releases: seq<Settlement>)
    ensures StaysInRange(MergerInput(offers, releases)) <==> Accepted(offers, releases)
    decreases |offers| + |releases|
  {
    if releases != [] {
      var before, last := releases[..|releases| - 1], releases[|releases| - 1];
      assert releases == before + [last];
      InRangeIffAccepted(offers, before);
      InputWithRelease(offers, releases);
      BalanceOfInput(offers, releases, last.swapId);
    } else if offers != [] {
      var before, last := offers[..|offers| - 1], offers[|offers| - 1];
      assert offers == before + [last];
      InRangeIffAccepted(before, []);
      InputWithoutReleases(offers);
      BalanceOfInput(offers, [], last.id);
      AcceptedOffer(before, last);
    }
  }

  /** Feeding the merger throws if and only if an ID is offered twice, released twice without an offer or
      released three times with one. */
  lemma NeverThrowsIffAccepted(offers: seq<SwapData>, releases: seq<Settlement>)
    ensures NeverThrows(MergerInput(offers, releases)) <==> Accepted(offers, releases)
  {
    NeverThrowsIff(MergerInput(offers, releases));
    InRangeIffAccepted(offers, releases);
  }

  /** The shortest input that throws: a release that both searches have found, without its offer. */
  lemma RepeatedReleaseThrows(s: Settlement)
    ensures !NeverThrows(MergerInput([], [s, s]))
  {
    var one, releases := [s], [s, s];
    assert one[..0] == [] && releases[..1] == one;
    assert ReleaseCount(one, s.swapId) == 1;
    assert ReleaseCount(releases, s.swapId) == 2 && OfferCount([], s.swapId) == 0;
    NeverThrowsIffAccepted([], releases);
  }

  // ----- What is returned, also for repeated releases ------------------------------------------------

  /** The first release of an ID. */
  ghost function FirstRelease(releases: seq<Settlement>, id: SwapId): Option<Settlement> {
    if releases == [] then None
    else
      var first, last := FirstRelease(releases[..|releases| - 1], id), releases[|releases| - 1];
      if first.None? && last.swapId == id then Some(last) else first
  }

  /** An offer without a release is open; otherwise its first release settles it. */
  ghost predicate Says(offers: seq<SwapData>, releases: seq<Settlement>, w: AtomicSwap) {
    && w.data in offers
    && FirstRelease(releases, w.data.id) == if w.Open? then None else Some(SettlementOf(w))
  }

  ghost predicate InputForm(offers: seq<SwapData>, releases: seq<Settlement>, t: Trace) {
    && (forall d :: d in t.pools.open <==> Says(offers, releases, Open(d)))
    && (forall w :: w in t.settled <==> !w.Open? && Says(offers, releases, w))
    && NoDuplicates(SwapIds(t.settled))
  }

  lemma {:induction false} OffersAreOpen(offers: seq<SwapData>)
    requires NeverThrows(MergerInput(offers, []))
    ensures Run(MergerInput(offers, [])) == Trace(Pools(offers, []), true, [])
  {
    if offers != [] {
      var before, last := offers[..|offers| - 1], offers[|offers| - 1];
      InputWithoutReleases(offers);
      var input := MergerInput(before, []);
      assert (input + [Offer(last)])[..|input|] == input;
      OffersAreOpen(before);
      assert offers == before + [last];
    }
  }

  lemma RunAppend(before: seq<SwapEvent>, last: SwapEvent)
    requires NeverThrows(before + [last])
    ensures NeverThrows(before)
    ensures
      var (pools, outcome) := Processed(Run(before).pools, last);
      outcome.Ok? && Run(before + [last]) == Trace(pools, true, WithSettled(Run(before).settled, outcome))
  {
    assert (before + [last])[..|before|] == before;
  }

  lemma OfferIds(offers: seq<SwapData>, d: SwapData, e: SwapData)
    requires NoDuplicates(OpenIds(offers)) && d in offers && e in offers && d.id == e.id
    ensures d == e
  {
    var i :| 0 <= i < |offers| && offers[i] == d;
    var j :| 0 <= j < |offers| && offers[j] == e;
    assert OpenIds(offers)[i] == OpenIds(offers)[j];
  }

  /** A release of an offer that is still open settles it. */
  lemma ReleaseOfOpen(offers: seq<SwapData>, before: seq<Settlement>, last: Settlement, d: SwapData, w: AtomicSwap)
    requires NoDuplicates(OpenIds(offers)) && d.id == last.swapId && Says(offers, before, Open(d))
    ensures Says(offers, before + [last], w) <==>
      w == SettleAtomicSwap(d, last) || (w.data.id != d.id && Says(offers, before, w))
  {
    if w.data in offers && w.data.id == d.id {
      OfferIds(offers, w.data, d);
    }
  }

  lemma OpenSettled(offers: seq<SwapData>, before: seq<Settlement>, last: Settlement, t: Trace, i: nat)
    requires NoDuplicates(OpenIds(offers)) && InputForm(offers, before, t) && NoDuplicates(OpenIds(t.pools.open))
    requires i < |t.pools.open| && t.pools.open[i].id == last.swapId
    ensures
      var open, w := t.pools.open, SettleAtomicSwap(t.pools.open[i], last);
      InputForm(offers, before + [last], Trace(Pools(RemoveAt(open, i), t.pools.settling), true, t.settled + [w]))
  {
    var open, d := t.pools.open, t.pools.open[i];
    assert d in open;
    DistinctOpen(open);
    forall x
      ensures x in RemoveAt(open, i) <==> Says(offers, before + [last], Open(x))
    {
      RemoveAtMembers(open, i, x);
      ReleaseOfOpen(offers, before, last, d, Open(x));
      if x in open && x.id == d.id {
        OfferIds(offers, x, d);
      }
    }
    SettledGrows(offers, before, last, d, t.settled);
  }

  lemma SettledGrows(
    offers: seq<SwapData>, before: seq<Settlement>, last: Settlement, d: SwapData, settled: seq<AtomicSwap>)
    requires NoDuplicates(OpenIds(offers)) && d.id == last.swapId && Says(offers, before, Open(d))
    requires forall w :: w in settled <==> !w.Open? && Says(offers, before, w)
    requires NoDuplicates(SwapIds(settled))
    ensures
      var more := settled + [SettleAtomicSwap(d, last)];
      && (forall w :: w in more <==> !w.Open? && Says(offers, before + [last], w))
      && NoDuplicates(SwapIds(more))
  {
    var added := SettleAtomicSwap(d, last);
    var more := settled + [added];
    forall w
      ensures w in more <==> !w.Open? && Says(offers, before + [last], w)
    {
      ReleaseOfOpen(offers, before, last, d, w);
    }
    assert SwapIds(more) == SwapIds(settled) + [d.id];
    forall j | 0 <= j < |settled|
      ensures SwapIds(settled)[j] != d.id
    {
      assert settled[j] in settled;
    }
  }

  lemma NothingSettled(offers: seq<SwapData>, before: seq<Settlement>, last: Settlement, t: Trace, pools: Pools)
    requires InputForm(offers, before, t) && pools.open == t.pools.open && last.swapId !in OpenIds(t.pools.open)
    ensures InputForm(offers, before + [last], Trace(pools, true, t.settled))
  {
    OpenPoolHas(t.pools.open, last.swapId);
  }

  lemma ReleaseKeepsForm(offers: seq<SwapData>, before: seq<Settlement>, last: Settlement, t: Trace)
    requires NoDuplicates(OpenIds(offers)) && InputForm(offers, before, t) && NoDuplicates(OpenIds(t.pools.open))
    ensures
      var (pools, outcome) := Processed(t.pools, Settle(last));
      outcome.Ok? ==> InputForm(offers, before + [last], Trace(pools, true, WithSettled(t.settled, outcome)))
  {
    var i := IndexOfId(OpenIds(t.pools.open), last.swapId);
    if i < |t.pools.open| {
      OpenSettled(offers, before, last, t, i);
    } else {
      NothingSettled(offers, before, last, t, Processed(t.pools, Settle(last)).0);
    }
  }

  lemma OffersHaveForm(offers: seq<SwapData>)
    requires NeverThrows(MergerInput(offers, []))
    ensures NoDuplicates(OpenIds(offers)) && InputForm(offers, [], Run(MergerInput(offers, [])))
  {
    OffersAreOpen(offers);
    var id :| true;
    PoolsAreTheBalance(MergerInput(offers, []), id);
  }

  lemma {:induction false} InputHasForm(offers: seq<SwapData>, releases: seq<Settlement>)
    requires NeverThrows(MergerInput(offers, releases))
    ensures NoDuplicates(OpenIds(offers)) && InputForm(offers, releases, Run(MergerInput(offers, releases)))
    decreases |releases|
  {
    if releases == [] {
      OffersHaveForm(offers);
    } else {
      var before, last := releases[..|releases| - 1], releases[|releases| - 1];
      var input := MergerInput(offers, before);
      assert releases == before + [last];
      InputWithRelease(offers, releases);
      RunAppend(input, Settle(last));
      InputHasForm(offers, before);
      PoolsAreTheBalance(input, last.swapId);
      ReleaseKeepsForm(offers, before, last, Run(input));
    }
  }

  lemma OpenAsSwaps(open: seq<SwapData>, w: AtomicSwap)
    ensures w in AsOpenSwaps(open) <==> w.Open? && w.data in open
  {
    if w.Open? && w.data in open {
      var i :| 0 <= i < |open| && open[i] == w.data;
      assert AsOpenSwaps(open)[i] == w;
    }
  }

  /** Where `getSwaps` does not throw it returns every offered swap once: as open if there is no release for
      it, otherwise as its first release leaves it. Further releases change nothing. */
  lemma FirstReleaseSettles(offers: seq<SwapData>, releases: seq<Settlement>)
    requires Accepted(offers, releases)
    ensures NoDuplicates(MergedSwaps(offers, releases)) && NoDuplicates(OpenIds(offers))
    ensures forall w :: w in MergedSwaps(offers, releases) <==> Says(offers, releases, w)
  {
    var input := MergerInput(offers, releases);
    NeverThrowsIffAccepted(offers, releases);
    InputHasForm(offers, releases);
    var open, settled := Run(input).pools.open, Run(input).settled;
    forall w { OpenAsSwaps(open, w); }
    var id :| true;
    PoolsAreTheBalance(input, id);
    DistinctOpen(open);
    DistinctSwaps(settled);
    OpenThenSettled(open, settled);
  }

  lemma OpenThenSettled(open: seq<SwapData>, settled: seq<AtomicSwap>)
    requires NoDuplicates(open) && NoDuplicates(settled) && forall w | w in settled :: !w.Open?
    ensures NoDuplicates(AsOpenSwaps(open) + settled)
  {
    var swaps := AsOpenSwaps(open);
    forall i, j | 0 <= i < j < |swaps + settled|
      ensures (swaps + settled)[i] != (swaps + settled)[j]
    {
      if j < |swaps| {
        assert open[i] != open[j];
      } else if i < |swaps| {
        assert settled[j - |swaps|] in settled;
      }
    }
  }
}
