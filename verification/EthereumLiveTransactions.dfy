/** `liveTx` of the Ethereum connection (packages/iov-ethereum/src/ethereumconnection.ts): two pollers, one for
    the scraper and one for the logs of token contracts, merged and then through `dropDuplicates`. */
module EthereumLiveTransactions {
  import opened Sequences
  import opened DropDuplicatesStream
  import HeightPolling

  type Transaction = HeightPolling.Transaction

  datatype Source = Scraper | Logs

  /** A poll of one source; its results are emitted without interruption. Both sources search for send
      transactions only, which are the transactions of TRANSFER_KIND here. */
  datatype Poll = Poll(source: Source, snapshot: seq<Transaction>)

  /** The two cursors and everything the merged stream has carried. */
  datatype State = State(scraperCursor: nat, logsCursor: nat, merged: seq<Transaction>)

  ghost function Cursor(s: State, source: Source): nat {
    if source == Scraper then s.scraperCursor else s.logsCursor
  }

  ghost function Run(minHeight: nat, maxHeight: nat, polls: seq<Poll>): State {
    if polls == [] then State(minHeight, minHeight, [])
    else
      var s, last := Run(minHeight, maxHeight, polls[..|polls| - 1]), polls[|polls| - 1];
      var result := HeightPolling.Search(last.snapshot, Cursor(s, last.source), maxHeight);
      var cursor := HeightPolling.CursorAfter(Cursor(s, last.source), result);
      if last.source == Scraper
      then s.(scraperCursor := cursor, merged := s.merged + result)
      else s.(logsCursor := cursor, merged := s.merged + result)
  }

  /** What a source has answered. */
  ghost function Snapshots(polls: seq<Poll>, source: Source): seq<seq<Transaction>> {
    if polls == [] then []
    else
      var last := polls[|polls| - 1];
      AppendIf(last.source == source, Snapshots(polls[..|polls| - 1], source), last.snapshot)
  }

  /** The poller of a source on its own. */
  ghost function AloneRun(minHeight: nat, maxHeight: nat, polls: seq<Poll>, source: Source): HeightPolling.State {
    HeightPolling.Run(minHeight, maxHeight, Snapshots(polls, source))
  }

  ghost function Emitted(minHeight: nat, maxHeight: nat, polls: seq<Poll>, source: Source): seq<Transaction> {
    AloneRun(minHeight, maxHeight, polls, source).emitted
  }

  /** What the subscriber has been given. */
  ghost function Delivered(
    id: Transaction -> string, minHeight: nat, maxHeight: nat, polls: seq<Poll>): seq<Transaction> {
    FirstOccurrences(id, Run(minHeight, maxHeight, polls).merged, {})
  }

  lemma PollOfSource(minHeight: nat, maxHeight: nat, before: seq<Poll>, last: Poll, source: Source)
    ensures
      var s := AloneRun(minHeight, maxHeight, before, source);
      var result := HeightPolling.Search(last.snapshot, s.cursor, maxHeight);
      AloneRun(minHeight, maxHeight, before + [last], source) ==
        if last.source == source
        then HeightPolling.State(HeightPolling.CursorAfter(s.cursor, result), s.emitted + result) else s
  {
    FrontOfAppend(before, last);
    HeightPolling.OnePoll(minHeight, maxHeight, Snapshots(before, source), last.snapshot);
  }

  /** The pollers do not influence each other. */
  lemma {:induction false} PollersAreIndependent(minHeight: nat, maxHeight: nat, polls: seq<Poll>, source: Source)
    ensures Cursor(Run(minHeight, maxHeight, polls), source) == AloneRun(minHeight, maxHeight, polls, source).cursor
  {
    if polls != [] {
      var before, last := polls[..|polls| - 1], polls[|polls| - 1];
      assert polls == before + [last];
      PollersAreIndependent(minHeight, maxHeight, before, source);
      PollOfSource(minHeight, maxHeight, before, last, source);
    }
  }

  /** The merged stream carries what both pollers emit. */
  lemma {:induction false} MergedKeys<K>(key: Transaction -> K, minHeight: nat, maxHeight: nat, polls: seq<Poll>)
    ensures Keys(key, Run(minHeight, maxHeight, polls).merged)
         == Keys(key, Emitted(minHeight, maxHeight, polls, Scraper))
           + Keys(key, Emitted(minHeight, maxHeight, polls, Logs))
  {
    if polls != [] {
      var before, last := polls[..|polls| - 1], polls[|polls| - 1];
      assert polls == before + [last];
      MergedKeys(key, minHeight, maxHeight, before);
      var s := Run(minHeight, maxHeight, before);
      var result := HeightPolling.Search(last.snapshot, Cursor(s, last.source), maxHeight);
      PollersAreIndependent(minHeight, maxHeight, before, last.source);
      PollOfSource(minHeight, maxHeight, before, last, Scraper);
      PollOfSource(minHeight, maxHeight, before, last, Logs);
      KeysOfConcatenation(key, s.merged, result);
      KeysOfConcatenation(key, Emitted(minHeight, maxHeight, before, last.source), result);
    }
  }

  /** Under every interleaving of the polls no ID is delivered twice, and the delivered IDs are those that
      either poller has emitted. */
  lemma DeliversUnionOnce(id: Transaction -> string, minHeight: nat, maxHeight: nat, polls: seq<Poll>)
    ensures DistinctKeys(id, Delivered(id, minHeight, maxHeight, polls))
    ensures Keys(id, Delivered(id, minHeight, maxHeight, polls))
         == Keys(id, Emitted(minHeight, maxHeight, polls, Scraper))
           + Keys(id, Emitted(minHeight, maxHeight, polls, Logs))
  {
    EachKeyPassesOnce(id, Run(minHeight, maxHeight, polls).merged, {});
    MergedKeys(id, minHeight, maxHeight, polls);
  }

  lemma KeysOfPermutation<T, K(!new)>(key: T -> K, a: seq<T>, b: seq<T>)
    requires multiset(a) == multiset(b)
    ensures Keys(key, a) == Keys(key, b)
  {
    forall k
      ensures k in Keys(key, a) <==> k in Keys(key, b)
    {
      KeysHave(key, a, k);
      KeysHave(key, b, k);
      if i :| 0 <= i < |a| && key(a[i]) == k {
        assert a[i] in multiset(b);
      }
      if i :| 0 <= i < |b| && key(b[i]) == k {
        assert b[i] in multiset(a);
      }
    }
  }

  ghost predicate Reliable(minHeight: nat, maxHeight: nat, snapshots: seq<seq<Transaction>>) {
    HeightPolling.AppendOnly(snapshots) && HeightPolling.NoLateArrivals(minHeight, maxHeight, snapshots)
  }

  lemma EmittedKeys(id: Transaction -> string, minHeight: nat, maxHeight: nat, snapshots: seq<seq<Transaction>>)
    requires Reliable(minHeight, maxHeight, snapshots)
    ensures Keys(id, HeightPolling.Run(minHeight, maxHeight, snapshots).emitted)
         == Keys(id, HeightPolling.Matching(HeightPolling.Latest(snapshots), minHeight, maxHeight))
  {
    HeightPolling.EmitsMatching(minHeight, maxHeight, snapshots);
    KeysOfPermutation(id, HeightPolling.Run(minHeight, maxHeight, snapshots).emitted,
      HeightPolling.Matching(HeightPolling.Latest(snapshots), minHeight, maxHeight));
  }

  /** Delivery is incremental, whatever is polled next: what has been delivered stays, in its order. */
  lemma DeliveryOnlyGrows(id: Transaction -> string, minHeight: nat, maxHeight: nat, polls: seq<Poll>)
    requires polls != []
    ensures Delivered(id, minHeight, maxHeight, polls[..|polls| - 1]) <= Delivered(id, minHeight, maxHeight, polls)
  {
    var before, last := polls[..|polls| - 1], polls[|polls| - 1];
    var s := Run(minHeight, maxHeight, before);
    var result := HeightPolling.Search(last.snapshot, Cursor(s, last.source), maxHeight);
    FirstOccurrencesOfConcatenation(id, s.merged, result, {});
  }

  /** Some transfer in the list has the ID, at a height in the range. */
  ghost predicate Shows(
    txs: seq<Transaction>, id: Transaction -> string, minHeight: nat, maxHeight: nat, k: string)
  {
    exists tx :: tx in txs && tx.kind == 0 && minHeight <= tx.height && tx.height <= maxHeight && id(tx) == k
  }

  lemma MatchingKeys(txs: seq<Transaction>, id: Transaction -> string, minHeight: nat, maxHeight: nat, k: string)
    ensures k in Keys(id, HeightPolling.Matching(txs, minHeight, maxHeight))
       <==> Shows(txs, id, minHeight, maxHeight, k)
  {
    var matching := HeightPolling.Matching(txs, minHeight, maxHeight);
    HeightPolling.MatchingAreIn(txs, minHeight, maxHeight);
    KeysHave(id, matching, k);
    if tx :| tx in txs && tx.kind == 0 && minHeight <= tx.height && tx.height <= maxHeight && id(tx) == k {
      assert tx in matching;
    }
    if i :| 0 <= i < |matching| && id(matching[i]) == k {
      assert matching[i] in matching;
    }
  }

  /** If both sources only append and nothing arrives late, every ID of a transfer in range that a source has
      last shown is delivered exactly once, and no other. */
  lemma ReliableSourcesAreDelivered(
    id: Transaction -> string, minHeight: nat, maxHeight: nat, polls: seq<Poll>)
    requires Reliable(minHeight, maxHeight, Snapshots(polls, Scraper))
    requires Reliable(minHeight, maxHeight, Snapshots(polls, Logs))
    ensures
      var scraper := HeightPolling.Latest(Snapshots(polls, Scraper));
      var logs := HeightPolling.Latest(Snapshots(polls, Logs));
      && DistinctKeys(id, Delivered(id, minHeight, maxHeight, polls))
      && (forall k :: k in Keys(id, Delivered(id, minHeight, maxHeight, polls)) <==>
            Shows(scraper, id, minHeight, maxHeight, k) || Shows(logs, id, minHeight, maxHeight, k))
  {
    DeliversUnionOnce(id, minHeight, maxHeight, polls);
    EmittedKeys(id, minHeight, maxHeight, Snapshots(polls, Scraper));
    EmittedKeys(id, minHeight, maxHeight, Snapshots(polls, Logs));
    forall k
      ensures k in Keys(id, Delivered(id, minHeight, maxHeight, polls)) <==>
        || Shows(HeightPolling.Latest(Snapshots(polls, Scraper)), id, minHeight, maxHeight, k)
        || Shows(HeightPolling.Latest(Snapshots(polls, Logs)), id, minHeight, maxHeight, k)
    {
      MatchingKeys(HeightPolling.Latest(Snapshots(polls, Scraper)), id, minHeight, maxHeight, k);
      MatchingKeys(HeightPolling.Latest(Snapshots(polls, Logs)), id, minHeight, maxHeight, k);
    }
  }
}
