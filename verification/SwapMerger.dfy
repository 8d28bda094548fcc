/** `AtomicSwapMerger` (packages/iov-bcp/src/atomicswapmerger.ts): pairs swap offers with claims
    and aborts that arrive in any order. */
module SwapMerger {
  import opened Results
  import opened Swaps
  import opened Sequences

  datatype Pools = Pools(open: seq<SwapData>, settling: seq<Settlement>)

  datatype MergeError = AlreadyInOpenPool | AlreadyInSettlingPool

  type Outcome = Result<Option<AtomicSwap>, MergeError>

  function OpenIds(open: seq<SwapData>): (ids: seq<SwapId>)
    ensures |ids| == |open|
  {
    seq(|open|, i requires 0 <= i < |open| => open[i].id)
  }

  function SettlingIds(settling: seq<Settlement>): (ids: seq<SwapId>)
    ensures |ids| == |settling|
  {
    seq(|settling|, i requires 0 <= i < |settling| => settling[i].swapId)
  }

  /** The pools after an event, and what `process` returns or throws. */
  ghost function Processed(pools: Pools, event: SwapEvent): (Pools, Outcome) {
    match event
    case Offer(data) =>
      var i := IndexOfId(SettlingIds(pools.settling), data.id);
      if i < |pools.settling| then
        (pools.(settling := RemoveAt(pools.settling, i)), Ok(Some(SettleAtomicSwap(data, pools.settling[i]))))
      else if data.id in OpenIds(pools.open) then (pools, Err(AlreadyInOpenPool))
      else (pools.(open := pools.open + [data]), Ok(Some(Open(data))))
    case Settle(settlement) =>
      var i := IndexOfId(OpenIds(pools.open), settlement.swapId);
      if i < |pools.open| then
        (pools.(open := RemoveAt(pools.open, i)), Ok(Some(SettleAtomicSwap(pools.open[i], settlement))))
      else if settlement.swapId in SettlingIds(pools.settling) then (pools, Err(AlreadyInSettlingPool))
      else (pools.(settling := pools.settling + [settlement]), Ok(None))
  }

  class AtomicSwapMerger {
    var open: seq<SwapData>
    var settling: seq<Settlement>

    ghost function Abs(): Pools
      reads this
    {
      Pools(open, settling)
    }

    constructor ()
      ensures Abs() == Pools([], [])
    {
      open, settling := [], [];
    }

    method Process(event: SwapEvent) returns (outcome: Outcome)
      modifies this
      ensures (Abs(), outcome) == Processed(old(Abs()), event)
    {
      match event
      case Offer(data) =>
        var i := IndexOfId(SettlingIds(settling), data.id);
        if i < |settling| {
          var settled := SettleAtomicSwap(data, settling[i]);
          settling := RemoveAt(settling, i);
          return Ok(Some(settled));
        }
        if IndexOfId(OpenIds(open), data.id) < |open| {
          return Err(AlreadyInOpenPool);
        }
        open := open + [data];
        return Ok(Some(Open(data)));
      case Settle(settlement) =>
        var i := IndexOfId(OpenIds(open), settlement.swapId);
        if i < |open| {
          var settled := SettleAtomicSwap(open[i], settlement);
          open := RemoveAt(open, i);
          return Ok(Some(settled));
        }
        if IndexOfId(SettlingIds(settling), settlement.swapId) < |settling| {
          return Err(AlreadyInSettlingPool);
        }
        settling := settling + [settlement];
        return Ok(None);
    }
  }

  // ----- Runs; an event that throws leaves the merger usable ---------------------------------

  /** The pools, whether nothing has thrown, and the claimed and aborted swaps returned, in order. */
  datatype Trace = Trace(pools: Pools, ok: bool, settled: seq<AtomicSwap>)

  ghost function Run(events: seq<SwapEvent>): Trace {
    if events == [] then Trace(Pools([], []), true, [])
    else AfterEvent(Run(events[..|events| - 1]), events[|events| - 1])
  }

  ghost function AfterEvent(t: Trace, event: SwapEvent): Trace {
    var (pools, outcome) := Processed(t.pools, event);
    Trace(pools, t.ok && outcome.Ok?, WithSettled(t.settled, outcome))
  }

  ghost function WithSettled(settled: seq<AtomicSwap>, outcome: Outcome): seq<AtomicSwap> {
    match outcome
    case Ok(Some(swap)) => if swap.Open? then settled else settled + [swap]
    case _ => settled
  }

  ghost function RunPools(events: seq<SwapEvent>): Pools {
    Run(events).pools
  }

  ghost predicate NeverThrows(events: seq<SwapEvent>) {
    Run(events).ok
  }

  ghost function SettledBy(events: seq<SwapEvent>): seq<AtomicSwap> {
    Run(events).settled
  }

  ghost function LastOutcome(events: seq<SwapEvent>): Outcome
    requires events != []
  {
    Processed(RunPools(events[..|events| - 1]), events[|events| - 1]).1
  }

  function Delta(event: SwapEvent): int {
    if event.Offer? then 1 else -1
  }

  /** Accepted offers minus accepted settlements for an ID. */
  ghost function NetAccepted(events: seq<SwapEvent>, id: SwapId): int {
    if events == [] then 0
    else
      var last := events[|events| - 1];
      NetAccepted(events[..|events| - 1], id) +
      if IdOf(last) == id && LastOutcome(events).Ok? then Delta(last) else 0
  }

  ghost function PoolBalance(pools: Pools, id: SwapId): int {
    (if id in OpenIds(pools.open) then 1 else 0) - (if id in SettlingIds(pools.settling) then 1 else 0)
  }

  ghost predicate Valid(pools: Pools) {
    && NoDuplicates(OpenIds(pools.open))
    && NoDuplicates(SettlingIds(pools.settling))
    && (forall id | id in OpenIds(pools.open) :: id !in SettlingIds(pools.settling))
  }

  // ----- Pools and balance ---------------------------------------------------------------------

  lemma RemoveAtMembers<T(!new)>(s: seq<T>, i: nat, x: T)
    requires i < |s| && NoDuplicates(s)
    ensures NoDuplicates(RemoveAt(s, i))
    ensures x in RemoveAt(s, i) <==> x in s && x != s[i]
  {
    var r := RemoveAt(s, i);
    if x in s && x != s[i] {
      var j: nat :| j < |s| && s[j] == x;
      var k: nat := if j < i then j else j - 1;
      assert r[k] == x;
    }
    if x in r {
      var j: nat :| j < |r| && r[j] == x;
      assert s[if j < i then j else j + 1] == x;
    }
  }

  lemma RemoveOpenIds(open: seq<SwapData>, i: nat)
    requires i < |open|
    ensures OpenIds(RemoveAt(open, i)) == RemoveAt(OpenIds(open), i)
  {
  }

  lemma RemoveSettlingIds(settling: seq<Settlement>, i: nat)
    requires i < |settling|
    ensures SettlingIds(RemoveAt(settling, i)) == RemoveAt(SettlingIds(settling), i)
  {
  }

  /** What processing an event does to the balance of an ID. */
  ghost predicate ChangesBalance(pools: Pools, event: SwapEvent, id: SwapId) {
    var (after, outcome) := Processed(pools, event);
    && Valid(after)
    && (outcome.Err? <==> !(-1 <= PoolBalance(pools, IdOf(event)) + Delta(event) <= 1))
    && (outcome.Err? ==> after == pools)
    && PoolBalance(after, id) == PoolBalance(pools, id) + (if outcome.Ok? && IdOf(event) == id then Delta(event) else 0)
  }

  lemma ProcessedOffer(pools: Pools, data: SwapData, id: SwapId)
    requires Valid(pools)
    ensures ChangesBalance(pools, Offer(data), id)
  {
    var (after, outcome) := Processed(pools, Offer(data));
    var ids := SettlingIds(pools.settling);
    var i := IndexOfId(ids, data.id);
    if i < |pools.settling| {
      RemoveSettlingIds(pools.settling, i);
      forall x { RemoveAtMembers(ids, i, x); }
    } else if outcome.Ok? {
      assert OpenIds(after.open) == OpenIds(pools.open) + [data.id];
    }
  }

  lemma ProcessedSettle(pools: Pools, settlement: Settlement, id: SwapId)
    requires Valid(pools)
    ensures ChangesBalance(pools, Settle(settlement), id)
  {
    var (after, outcome) := Processed(pools, Settle(settlement));
    var ids := OpenIds(pools.open);
    var i := IndexOfId(ids, settlement.swapId);
    if i < |pools.open| {
      RemoveOpenIds(pools.open, i);
      forall x { RemoveAtMembers(ids, i, x); }
    } else if outcome.Ok? {
      assert SettlingIds(after.settling) == SettlingIds(pools.settling) + [settlement.swapId];
    }
  }

  lemma ProcessedPools(pools: Pools, event: SwapEvent, id: SwapId)
    requires Valid(pools)
    ensures ChangesBalance(pools, event, id)
  {
    match event
    case Offer(data) => ProcessedOffer(pools, data, id);
    case Settle(settlement) => ProcessedSettle(pools, settlement, id);
  }

  /** Over every event sequence the pools hold each ID at most once and never both, and they
      are exactly the balance of accepted offers and settlements. */
  lemma {:induction false} PoolsAreTheBalance(events: seq<SwapEvent>, id: SwapId)
    ensures Valid(RunPools(events))
    ensures PoolBalance(RunPools(events), id) == NetAccepted(events, id)
  {
    if events != [] {
      var before, last := events[..|events| - 1], events[|events| - 1];
      PoolsAreTheBalance(before, id);
      ProcessedPools(RunPools(before), last, id);
    }
  }

  /** `process` throws exactly when the balance of the event's ID would leave {-1, 0, 1}, and
      then it changes nothing. */
  lemma {:induction false} ThrowsIffBalanceLeavesRange(events: seq<SwapEvent>, event: SwapEvent)
    ensures
      var (after, outcome) := Processed(RunPools(events), event);
      && (outcome.Err? <==> NetAccepted(events, IdOf(event)) + Delta(event) !in {-1, 0, 1})
      && (outcome.Err? ==> after == RunPools(events))
      && (outcome == Err(AlreadyInOpenPool) <==> NetAccepted(events, IdOf(event)) + Delta(event) == 2)
      && (outcome == Err(AlreadyInSettlingPool) <==> NetAccepted(events, IdOf(event)) + Delta(event) == -2)
  {
    PoolsAreTheBalance(events, IdOf(event));
    ProcessedPools(RunPools(events), event, IdOf(event));
  }

  // ----- Confluence ------------------------------------------------------------------------------

  predicate SameSlot(e: SwapEvent, f: SwapEvent) {
    e.Offer? == f.Offer? && IdOf(e) == IdOf(f)
  }

  /** At most one offer and at most one settlement per ID. */
  ghost predicate AtMostOncePerId(events: seq<SwapEvent>) {
    && (forall e | e in events :: multiset(events)[e] == 1)
    && (forall e, f | e in events && f in events && SameSlot(e, f) :: e == f)
  }

  ghost predicate Offers(events: seq<SwapEvent>, id: SwapId) {
    exists d: SwapData :: Offer(d) in events && d.id == id
  }

  ghost predicate Settles(events: seq<SwapEvent>, id: SwapId) {
    exists s: Settlement :: Settle(s) in events && s.swapId == id
  }

  /** The settlement a claimed or aborted swap speaks of. */
  ghost function SettlementOf(w: AtomicSwap): Settlement
    requires !w.Open?
  {
    if w.Claimed? then Claim(w.data.id, w.preimage) else Abort(w.data.id)
  }

  /** The events contain the offer and the settlement of the swap w. */
  ghost predicate Merges(events: seq<SwapEvent>, w: AtomicSwap) {
    !w.Open? && Offer(w.data) in events && Settle(SettlementOf(w)) in events
  }

  /** Position by position: no two offers and no two settlements have the same ID. */
  lemma {:induction false} AtMostOncePerIdIff(events: seq<SwapEvent>)
    ensures AtMostOncePerId(events) <==> forall i: nat, j: nat | i < j < |events| ::
      && (events[i].Offer? && events[j].Offer? ==> events[i].data.id != events[j].data.id)
      && (events[i].Settle? && events[j].Settle? ==> events[i].settlement.swapId != events[j].settlement.swapId)
  {
    if AtMostOncePerId(events) {
      forall i: nat, j: nat | i < j < |events|
        ensures !SameSlot(events[i], events[j])
      {
        assert events == events[..j] + events[j..];
        assert events[i] in events[..j] && events[j] in events[j..];
        assert multiset(events)[events[i]] == 1;
      }
    } else if NoDuplicates(events) {
      forall e | e in events { MultiplicityOfDistinct(events, e); }
      var e, f :| e in events && f in events && SameSlot(e, f) && e != f;
    }
  }

  lemma AtMostOnceBefore(before: seq<SwapEvent>, last: SwapEvent)
    requires AtMostOncePerId(before + [last])
    ensures AtMostOncePerId(before)
    ensures forall e | e in before :: !SameSlot(e, last)
  {
    var events := before + [last];
    assert last in events;
    assert multiset(events) == multiset(before) + multiset{last};
    forall e | e in before
      ensures e in events && multiset(before)[e] == 1 && e != last
    {
      assert multiset(events)[e] == 1;
    }
  }

  function SwapIds(swaps: seq<AtomicSwap>): (ids: seq<SwapId>)
    ensures |ids| == |swaps|
  {
    seq(|swaps|, i requires 0 <= i < |swaps| => swaps[i].data.id)
  }

  lemma DistinctSettling(settling: seq<Settlement>)
    requires NoDuplicates(SettlingIds(settling))
    ensures NoDuplicates(settling)
  {
    forall i, j | 0 <= i < j < |settling|
      ensures settling[i] != settling[j]
    {
      assert SettlingIds(settling)[i] != SettlingIds(settling)[j];
    }
  }

  lemma DistinctOpen(open: seq<SwapData>)
    requires NoDuplicates(OpenIds(open))
    ensures NoDuplicates(open)
  {
    forall i, j | 0 <= i < j < |open|
      ensures open[i] != open[j]
    {
      assert OpenIds(open)[i] != OpenIds(open)[j];
    }
  }

  lemma DistinctSwaps(swaps: seq<AtomicSwap>)
    requires NoDuplicates(SwapIds(swaps))
    ensures NoDuplicates(swaps)
  {
    forall i, j | 0 <= i < j < |swaps|
      ensures swaps[i] != swaps[j]
    {
      assert SwapIds(swaps)[i] != SwapIds(swaps)[j];
    }
  }

  /** The pools of a run, in terms of which events it contains. */
  ghost predicate PoolsForm(events: seq<SwapEvent>) {
    var pools := RunPools(events);
    && (forall d :: d in pools.open <==> Offer(d) in events && !Settles(events, d.id))
    && (forall s :: s in pools.settling <==> Settle(s) in events && !Offers(events, s.swapId))
  }

  /** The settled swaps of a run, in terms of which events it contains. */
  ghost predicate SettledForm(events: seq<SwapEvent>) {
    && (forall w :: w in SettledBy(events) <==> Merges(events, w))
    && NoDuplicates(SwapIds(SettledBy(events)))
  }

  lemma EventsAppend(before: seq<SwapEvent>, last: SwapEvent)
    requires AtMostOncePerId(before + [last])
    ensures
      var events := before + [last];
      && (forall e :: e in events <==> e in before || e == last)
      && (forall id :: Offers(events, id) <==> Offers(before, id) || (last.Offer? && id == IdOf(last)))
      && (forall id :: Settles(events, id) <==> Settles(before, id) || (last.Settle? && id == IdOf(last)))
      && (last.Offer? ==> !Offers(before, IdOf(last)))
      && (last.Settle? ==> !Settles(before, IdOf(last)))
  {
    AtMostOnceBefore(before, last);
    var events := before + [last];
    assert forall e :: e in events <==> e in before || e == last;
    forall id
      ensures Offers(events, id) <==> Offers(before, id) || (last.Offer? && id == IdOf(last))
      ensures Settles(events, id) <==> Settles(before, id) || (last.Settle? && id == IdOf(last))
    {
      if last.Offer? && id == IdOf(last) {
        assert Offer(last.data) in events;
      }
      if last.Settle? && id == IdOf(last) {
        assert Settle(last.settlement) in events;
      }
    }
  }

  lemma OpenPoolHas(open: seq<SwapData>, id: SwapId)
    ensures id in OpenIds(open) <==> exists d :: d in open && d.id == id
  {
    if id in OpenIds(open) {
      var i :| 0 <= i < |open| && OpenIds(open)[i] == id;
      assert open[i] in open && open[i].id == id;
    }
    if d :| d in open && d.id == id {
      var i :| 0 <= i < |open| && open[i] == d;
      assert OpenIds(open)[i] == id;
    }
  }

  lemma SettlingPoolHas(settling: seq<Settlement>, id: SwapId)
    ensures id in SettlingIds(settling) <==> exists s :: s in settling && s.swapId == id
  {
    if id in SettlingIds(settling) {
      var i :| 0 <= i < |settling| && SettlingIds(settling)[i] == id;
      assert settling[i] in settling && settling[i].swapId == id;
    }
    if s :| s in settling && s.swapId == id {
      var i :| 0 <= i < |settling| && settling[i] == s;
      assert SettlingIds(settling)[i] == id;
    }
  }

  /** An event finds a partner in the opposite pool exactly if the run contains one, and never
      finds its ID in its own pool. */
  lemma PartnerInPool(before: seq<SwapEvent>, last: SwapEvent)
    requires AtMostOncePerId(before + [last]) && PoolsForm(before)
    ensures
      var pools := RunPools(before);
      && (last.Offer? ==> IdOf(last) !in OpenIds(pools.open))
      && (last.Offer? ==> (IdOf(last) in SettlingIds(pools.settling) <==> Settles(before, IdOf(last))))
      && (last.Settle? ==> IdOf(last) !in SettlingIds(pools.settling))
      && (last.Settle? ==> (IdOf(last) in OpenIds(pools.open) <==> Offers(before, IdOf(last))))
  {
    EventsAppend(before, last);
    OpenPoolHas(RunPools(before).open, IdOf(last));
    SettlingPoolHas(RunPools(before).settling, IdOf(last));
  }

  lemma PoolsAfterOffer(before: seq<SwapEvent>, data: SwapData)
    requires AtMostOncePerId(before + [Offer(data)]) && PoolsForm(before)
    ensures PoolsForm(before + [Offer(data)])
    ensures Processed(RunPools(before), Offer(data)).1.Ok?
  {
    var last := Offer(data);
    assert (before + [last])[..|before|] == before;
    var pools := RunPools(before);
    AtMostOnceBefore(before, last);
    EventsAppend(before, last);
    PartnerInPool(before, last);
    if Settles(before, data.id) {
      var i := IndexOfId(SettlingIds(pools.settling), data.id);
      SettlingWithout(before, i, data.id);
    }
  }

  lemma PoolsAfterSettle(before: seq<SwapEvent>, settlement: Settlement)
    requires AtMostOncePerId(before + [Settle(settlement)]) && PoolsForm(before)
    ensures PoolsForm(before + [Settle(settlement)])
    ensures Processed(RunPools(before), Settle(settlement)).1.Ok?
  {
    var last := Settle(settlement);
    assert (before + [last])[..|before|] == before;
    var pools := RunPools(before);
    AtMostOnceBefore(before, last);
    EventsAppend(before, last);
    PartnerInPool(before, last);
    if Offers(before, settlement.swapId) {
      var i := IndexOfId(OpenIds(pools.open), settlement.swapId);
      OpenWithout(before, i, settlement.swapId);
    }
  }

  lemma SettlingWithout(events: seq<SwapEvent>, i: nat, id: SwapId)
    requires AtMostOncePerId(events) && PoolsForm(events)
    requires i < |RunPools(events).settling| && RunPools(events).settling[i].swapId == id
    ensures forall x :: x in RemoveAt(RunPools(events).settling, i) <==>
      x in RunPools(events).settling && x.swapId != id
  {
    var settling := RunPools(events).settling;
    PoolsAreTheBalance(events, id);
    DistinctSettling(settling);
    forall x
      ensures x in RemoveAt(settling, i) <==> x in settling && x.swapId != id
    {
      RemoveAtMembers(settling, i, x);
      if x in settling && x.swapId == id {
        assert settling[i] in settling && SameSlot(Settle(x), Settle(settling[i]));
      }
    }
  }

  lemma OpenWithout(events: seq<SwapEvent>, i: nat, id: SwapId)
    requires AtMostOncePerId(events) && PoolsForm(events)
    requires i < |RunPools(events).open| && RunPools(events).open[i].id == id
    ensures forall x :: x in RemoveAt(RunPools(events).open, i) <==> x in RunPools(events).open && x.id != id
  {
    var open := RunPools(events).open;
    PoolsAreTheBalance(events, id);
    DistinctOpen(open);
    forall x
      ensures x in RemoveAt(open, i) <==> x in open && x.id != id
    {
      RemoveAtMembers(open, i, x);
      if x in open && x.id == id {
        assert open[i] in open && SameSlot(Offer(x), Offer(open[i]));
      }
    }
  }

  /** The swap formed by an event and its partner is the only new one. */
  lemma MergesOneMore(before: seq<SwapEvent>, last: SwapEvent, data: SwapData, settlement: Settlement, w: AtomicSwap)
    requires AtMostOncePerId(before + [last])
    requires data.id == settlement.swapId == IdOf(last)
    requires if last.Offer? then data == last.data && Settle(settlement) in before
             else settlement == last.settlement && Offer(data) in before
    ensures Merges(before + [last], w) <==> Merges(before, w) || w == SettleAtomicSwap(data, settlement)
    ensures Merges(before, w) ==> w.data.id != data.id
  {
    var events := before + [last];
    EventsAppend(before, last);
    AtMostOnceBefore(before, last);
    if Merges(events, w) && w.data.id == data.id {
      assert Offer(data) in events && Settle(settlement) in events;
      assert SameSlot(Offer(w.data), Offer(data)) && SameSlot(Settle(SettlementOf(w)), Settle(settlement));
    }
    if Merges(before, w) {
      assert Offers(before, w.data.id) && Settles(before, w.data.id);
    }
  }

  lemma SettledExtends(before: seq<SwapEvent>, events: seq<SwapEvent>, w: AtomicSwap)
    requires SettledForm(before)
    requires SettledBy(events) == SettledBy(before) + [w]
    requires forall x :: Merges(events, x) <==> Merges(before, x) || x == w
    requires forall x | Merges(before, x) :: x.data.id != w.data.id
    ensures SettledForm(events)
  {
    var settled := SettledBy(before);
    assert SwapIds(settled + [w]) == SwapIds(settled) + [w.data.id];
    forall j | 0 <= j < |settled|
      ensures SwapIds(settled)[j] != w.data.id
    {
      assert settled[j] in settled;
    }
    forall x
      ensures x in settled + [w] <==> x in settled || x == w
    {
    }
  }

  lemma SettledStepWithPartner(before: seq<SwapEvent>, last: SwapEvent)
    requires AtMostOncePerId(before + [last]) && PoolsForm(before) && SettledForm(before)
    requires if last.Offer? then Settles(before, IdOf(last)) else Offers(before, IdOf(last))
    ensures SettledForm(before + [last])
  {
    var events := before + [last];
    assert events[..|before|] == before;
    var pools := RunPools(before);
    PartnerInPool(before, last);
    var i := if last.Offer? then IndexOfId(SettlingIds(pools.settling), IdOf(last))
      else IndexOfId(OpenIds(pools.open), IdOf(last));
    var data := if last.Offer? then last.data else pools.open[i];
    var settlement := if last.Offer? then pools.settling[i] else last.settlement;
    assert if last.Offer? then settlement in pools.settling else data in pools.open;
    forall w
      ensures Merges(events, w) <==> Merges(before, w) || w == SettleAtomicSwap(data, settlement)
      ensures Merges(before, w) ==> w.data.id != data.id
    {
      MergesOneMore(before, last, data, settlement, w);
    }
    SettledExtends(before, events, SettleAtomicSwap(data, settlement));
  }

  lemma SettledStepWithoutPartner(before: seq<SwapEvent>, last: SwapEvent)
    requires AtMostOncePerId(before + [last]) && PoolsForm(before) && SettledForm(before)
    requires if last.Offer? then !Settles(before, IdOf(last)) else !Offers(before, IdOf(last))
    ensures SettledForm(before + [last])
  {
    var events := before + [last];
    assert events[..|before|] == before;
    PartnerInPool(before, last);
    EventsAppend(before, last);
    assert SettledBy(events) == SettledBy(before);
    forall w
      ensures Merges(events, w) <==> Merges(before, w)
    {
      if Merges(events, w) {
        assert Offers(events, w.data.id) && Settles(events, w.data.id);
      }
    }
  }

  lemma {:induction false} RunForm(events: seq<SwapEvent>)
    requires AtMostOncePerId(events)
    ensures NeverThrows(events) && PoolsForm(events) && SettledForm(events)
  {
    if events != [] {
      var before, last := events[..|events| - 1], events[|events| - 1];
      assert events == before + [last];
      AtMostOnceBefore(before, last);
      RunForm(before);
      match last {
        case Offer(data) => PoolsAfterOffer(before, data);
        case Settle(settlement) => PoolsAfterSettle(before, settlement);
      }
      if if last.Offer? then Settles(before, IdOf(last)) else Offers(before, IdOf(last)) {
        SettledStepWithPartner(before, last);
      } else {
        SettledStepWithoutPartner(before, last);
      }
    }
  }

  lemma AtMostOncePermutes(events: seq<SwapEvent>, permuted: seq<SwapEvent>)
    requires AtMostOncePerId(events) && multiset(permuted) == multiset(events)
    ensures AtMostOncePerId(permuted)
  {
    forall e
      ensures e in permuted <==> e in events
    {
      SameMultisetSameMembers(permuted, events, e);
    }
  }

  /** With at most one offer and one settlement per ID, every arrival order runs without throwing
      and ends with the same pools and the same settled swaps. */
  lemma ArrivalOrderDoesNotMatter(events: seq<SwapEvent>, permuted: seq<SwapEvent>)
    requires AtMostOncePerId(events) && multiset(permuted) == multiset(events)
    ensures NeverThrows(events) && NeverThrows(permuted)
    ensures multiset(RunPools(permuted).open) == multiset(RunPools(events).open)
    ensures multiset(RunPools(permuted).settling) == multiset(RunPools(events).settling)
    ensures multiset(SettledBy(permuted)) == multiset(SettledBy(events))
  {
    AtMostOncePermutes(events, permuted);
    RunForm(events);
    RunForm(permuted);
    forall e { SameMultisetSameMembers(permuted, events, e); }
    forall id
      ensures Offers(permuted, id) <==> Offers(events, id)
      ensures Settles(permuted, id) <==> Settles(events, id)
    {
    }
    forall w
      ensures Merges(permuted, w) <==> Merges(events, w)
    {
    }
    forall es | es == events || es == permuted
      ensures NoDuplicates(RunPools(es).open) && NoDuplicates(RunPools(es).settling) && NoDuplicates(SettledBy(es))
    {
      var id :| true;
      PoolsAreTheBalance(es, id);
      DistinctOpen(RunPools(es).open);
      DistinctSettling(RunPools(es).settling);
      DistinctSwaps(SettledBy(es));
    }
    SameMembersSameMultiset(RunPools(permuted).open, RunPools(events).open);
    SameMembersSameMultiset(RunPools(permuted).settling, RunPools(events).settling);
    SameMembersSameMultiset(SettledBy(permuted), SettledBy(events));
  }
}
