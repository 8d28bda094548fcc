/** The polling behind `liveTx` of the Lisk and Ethereum connections
    (packages/iov-lisk/src/liskconnection.ts, packages/iov-ethereum/src/ethereumconnection.ts):
    every poll searches from a height cursor that moves past the results. */
module HeightPolling {
  import opened Results
  import opened Sequences

  datatype Transaction = Transaction(id: string, kind: int, height: nat)

  const MAX_SAFE_INTEGER: nat := 9007199254740991
  const TRANSFER_KIND := 0

  predicate Matches(tx: Transaction, minHeight: nat, maxHeight: nat) {
    tx.kind == TRANSFER_KIND && minHeight <= tx.height <= maxHeight
  }

  function Matching(txs: seq<Transaction>, minHeight: nat, maxHeight: nat): seq<Transaction> {
    if txs == [] then []
    else
      var last := txs[|txs| - 1];
      AppendIf(Matches(last, minHeight, maxHeight), Matching(txs[..|txs| - 1], minHeight, maxHeight), last)
  }

  /** `searchTransactions` over what the server currently knows. */
  function Search(snapshot: seq<Transaction>, minHeight: nat, maxHeight: nat): seq<Transaction> {
    if minHeight > maxHeight then [] else Matching(snapshot, minHeight, maxHeight)
  }

  function CursorAfter(cursor: nat, result: seq<Transaction>): nat {
    if result == [] then cursor
    else
      var c, last := CursorAfter(cursor, result[..|result| - 1]), result[|result| - 1];
      if last.height >= c then last.height + 1 else c
  }

  class Poller {
    var minHeight: nat
    const maxHeight: nat
    /** What the listener has been given. */
    var emitted: seq<Transaction>

    /** A missing height and the height 0 both stand for no bound. */
    constructor (minHeight: Option<nat>, maxHeight: Option<nat>)
      ensures this.minHeight == (if minHeight.Some? then minHeight.value else 0)
      ensures this.maxHeight == (if maxHeight.Some? && maxHeight.value > 0 then maxHeight.value else 9007199254740991)
      ensures emitted == []
    {
      this.minHeight := if minHeight.Some? then minHeight.value else 0;
      this.maxHeight := if maxHeight.Some? && maxHeight.value > 0 then maxHeight.value else MAX_SAFE_INTEGER;
      emitted := [];
    }

    method Poll(snapshot: seq<Transaction>)
      modifies this
      ensures var result := Search(snapshot, old(minHeight), maxHeight);
              emitted == old(emitted) + result && minHeight == CursorAfter(old(minHeight), result)
    {
      var result := Search(snapshot, minHeight, maxHeight);
      for i := 0 to |result|
        invariant emitted == old(emitted) + result[..i]
        invariant minHeight == CursorAfter(old(minHeight), result[..i])
      {
        assert result[..i + 1][..i] == result[..i];
        emitted := emitted + [result[i]];
        if result[i].height >= minHeight {
          minHeight := result[i].height + 1;
        }
      }
      assert result[..|result|] == result;
    }
  }

  /** Whatever the order of the results, the cursor ends at the larger of its old value and the
      greatest height plus one. */
  lemma {:induction false} CursorIsMaximum(cursor: nat, result: seq<Transaction>)
    ensures cursor <= CursorAfter(cursor, result)
    ensures forall tx | tx in result :: tx.height < CursorAfter(cursor, result)
    ensures CursorAfter(cursor, result) == cursor
         || exists tx | tx in result :: CursorAfter(cursor, result) == tx.height + 1
  {
    if result != [] {
      var before, last := result[..|result| - 1], result[|result| - 1];
      CursorIsMaximum(cursor, before);
      assert result == before + [last];
      assert last in result;
    }
  }

  lemma {:induction false} MatchingMembers(txs: seq<Transaction>, lo: nat, hi: nat)
    requires NoDuplicates(txs)
    ensures NoDuplicates(Matching(txs, lo, hi))
    ensures forall tx :: tx in Matching(txs, lo, hi) <==> tx in txs && Matches(tx, lo, hi)
  {
    if txs != [] {
      var before, last := txs[..|txs| - 1], txs[|txs| - 1];
      assert txs == before + [last];
      MatchingMembers(before, lo, hi);
    }
  }

  /** A search finds the transfers of the snapshot between the two heights, both included. */
  lemma SearchFinds(snapshot: seq<Transaction>, minHeight: nat, maxHeight: nat)
    ensures forall tx ::
      tx in Search(snapshot, minHeight, maxHeight) <==>
      tx in snapshot && tx.kind == 0 && minHeight <= tx.height && tx.height <= maxHeight
  {
    MatchingAreIn(snapshot, minHeight, maxHeight);
  }

  lemma {:induction false} MatchingAreIn(txs: seq<Transaction>, lo: nat, hi: nat)
    ensures forall tx :: tx in Matching(txs, lo, hi) <==> tx in txs && Matches(tx, lo, hi)
  {
    if txs != [] {
      var before, last := txs[..|txs| - 1], txs[|txs| - 1];
      assert txs == before + [last];
      MatchingAreIn(before, lo, hi);
    }
  }

  /** The results have the order of the snapshot. */
  lemma {:induction false} SearchKeepsOrder(a: seq<Transaction>, b: seq<Transaction>, lo: nat, hi: nat)
    ensures Search(a + b, lo, hi) == Search(a, lo, hi) + Search(b, lo, hi)
  {
    if lo <= hi {
      MatchingConcatenation(a, b, lo, hi);
    } else {
      AppendNothing(Search(a, lo, hi));
    }
  }

  lemma {:induction false} MatchingConcatenation(a: seq<Transaction>, b: seq<Transaction>, lo: nat, hi: nat)
    ensures Matching(a + b, lo, hi) == Matching(a, lo, hi) + Matching(b, lo, hi)
  {
    if b == [] {
      AppendNothing(a);
      AppendNothing(Matching(a, lo, hi));
    } else {
      var before, last := b[..|b| - 1], b[|b| - 1];
      assert (a + b)[..|a + b| - 1] == a + before;
      MatchingConcatenation(a, before, lo, hi);
      Associative(Matching(a, lo, hi), Matching(before, lo, hi), [last]);
    }
  }

  // ----- Runs of polls ---------------------------------------------------------------------------

  datatype State = State(cursor: nat, emitted: seq<Transaction>)

  ghost function Run(minHeight: nat, maxHeight: nat, snapshots: seq<seq<Transaction>>): State {
    if snapshots == [] then State(minHeight, [])
    else
      var s := Run(minHeight, maxHeight, snapshots[..|snapshots| - 1]);
      var result := Search(snapshots[|snapshots| - 1], s.cursor, maxHeight);
      State(CursorAfter(s.cursor, result), s.emitted + result)
  }

  ghost function Latest(snapshots: seq<seq<Transaction>>): seq<Transaction> {
    if snapshots == [] then [] else snapshots[|snapshots| - 1]
  }

  /** The server lists each transaction once, in any order, and does not forget any. */
  ghost predicate AppendOnly(snapshots: seq<seq<Transaction>>) {
    snapshots == [] ||
    var before := snapshots[..|snapshots| - 1];
    && AppendOnly(before)
    && NoDuplicates(Latest(snapshots))
    && (forall tx | tx in Latest(before) :: tx in Latest(snapshots))
  }

  /** Transactions that are new in a snapshot are higher than all matching ones known before. */
  ghost predicate NoLateArrivals(minHeight: nat, maxHeight: nat, snapshots: seq<seq<Transaction>>) {
    snapshots == [] ||
    var before := snapshots[..|snapshots| - 1];
    && NoLateArrivals(minHeight, maxHeight, before)
    && (forall known, tx |
          && known in Latest(before) && known.kind == 0 && minHeight <= known.height && known.height <= maxHeight
          && tx in Latest(snapshots) && tx !in Latest(before)
          && tx.kind == 0 && minHeight <= tx.height && tx.height <= maxHeight ::
          known.height < tx.height)
  }

  /** What holds after any number of polls. */
  ghost predicate Polled(minHeight: nat, maxHeight: nat, known: seq<Transaction>, s: State) {
    && NoDuplicates(s.emitted)
    && minHeight <= s.cursor
    && (forall tx | tx in s.emitted :: tx in known && Matches(tx, minHeight, maxHeight) && tx.height < s.cursor)
    && (forall tx | tx in known && Matches(tx, minHeight, maxHeight) :: tx.height < s.cursor)
    && (s.cursor == minHeight || exists tx | tx in s.emitted :: s.cursor == tx.height + 1)
  }

  lemma PollStep(minHeight: nat, maxHeight: nat, known: seq<Transaction>, s: State, snapshot: seq<Transaction>)
    requires Polled(minHeight, maxHeight, known, s)
    requires NoDuplicates(snapshot) && forall tx | tx in known :: tx in snapshot
    ensures
      var result := Search(snapshot, s.cursor, maxHeight);
      && Polled(minHeight, maxHeight, snapshot, State(CursorAfter(s.cursor, result), s.emitted + result))
      && (forall tx :: tx in result <==> tx in snapshot && Matches(tx, s.cursor, maxHeight))
  {
    var result := Search(snapshot, s.cursor, maxHeight);
    var emitted := s.emitted + result;
    MatchingMembers(snapshot, s.cursor, maxHeight);
    CursorIsMaximum(s.cursor, result);
    assert forall tx :: tx in emitted <==> tx in s.emitted || tx in result;
    assert NoDuplicates(emitted) by {
      forall i, j | 0 <= i < j < |emitted|
        ensures emitted[i] != emitted[j]
      {
        if i < |s.emitted| <= j {
          assert emitted[i] in s.emitted && emitted[j] in result;
        }
      }
    }
  }

  lemma {:induction false} RunIsPolled(minHeight: nat, maxHeight: nat, snapshots: seq<seq<Transaction>>)
    requires AppendOnly(snapshots)
    ensures Polled(minHeight, maxHeight, Latest(snapshots), Run(minHeight, maxHeight, snapshots))
  {
    if snapshots != [] {
      var before := snapshots[..|snapshots| - 1];
      RunIsPolled(minHeight, maxHeight, before);
      PollStep(minHeight, maxHeight, Latest(before), Run(minHeight, maxHeight, before), Latest(snapshots));
    }
  }

  /** Every matching transaction the server has shown has been emitted. */
  ghost predicate Complete(minHeight: nat, maxHeight: nat, snapshots: seq<seq<Transaction>>) {
    forall tx | tx in Latest(snapshots) && Matches(tx, minHeight, maxHeight) ::
      tx in Run(minHeight, maxHeight, snapshots).emitted
  }

  lemma {:induction false} CompleteIff(minHeight: nat, maxHeight: nat, snapshots: seq<seq<Transaction>>)
    requires AppendOnly(snapshots)
    ensures Complete(minHeight, maxHeight, snapshots) <==> NoLateArrivals(minHeight, maxHeight, snapshots)
  {
    if snapshots != [] {
      var before, latest := snapshots[..|snapshots| - 1], Latest(snapshots);
      var known, s := Latest(before), Run(minHeight, maxHeight, before);
      CompleteIff(minHeight, maxHeight, before);
      RunIsPolled(minHeight, maxHeight, before);
      PollStep(minHeight, maxHeight, known, s, latest);
      var after := Run(minHeight, maxHeight, snapshots);
      assert forall tx :: tx in after.emitted <==>
        tx in s.emitted || (tx in latest && Matches(tx, s.cursor, maxHeight));
    }
  }

  /** Nothing is emitted twice, nothing but transfers of the latest snapshot in the range of heights is
      emitted, and after any number of non-overlapping polls all of them have been if and only if no transfer
      in the range ever appeared at or below the height of one known before. */
  lemma EmitsExactlyOnceIff(minHeight: nat, maxHeight: nat, snapshots: seq<seq<Transaction>>)
    requires AppendOnly(snapshots)
    ensures
      var emitted := Run(minHeight, maxHeight, snapshots).emitted;
      && NoDuplicates(emitted)
      && (forall tx | tx in emitted ::
            tx in Latest(snapshots) && tx.kind == 0 && minHeight <= tx.height && tx.height <= maxHeight)
      && ((forall tx |
             tx in Latest(snapshots) && tx.kind == 0 && minHeight <= tx.height && tx.height <= maxHeight ::
             tx in emitted)
          <==> NoLateArrivals(minHeight, maxHeight, snapshots))
  {
    RunIsPolled(minHeight, maxHeight, snapshots);
    CompleteIff(minHeight, maxHeight, snapshots);
  }

  lemma EmitsMatching(minHeight: nat, maxHeight: nat, snapshots: seq<seq<Transaction>>)
    requires AppendOnly(snapshots) && NoLateArrivals(minHeight, maxHeight, snapshots)
    ensures multiset(Run(minHeight, maxHeight, snapshots).emitted)
         == multiset(Matching(Latest(snapshots), minHeight, maxHeight))
  {
    EmitsExactlyOnceIff(minHeight, maxHeight, snapshots);
    MatchingMembers(Latest(snapshots), minHeight, maxHeight);
    SameMembersSameMultiset(
      Run(minHeight, maxHeight, snapshots).emitted, Matching(Latest(snapshots), minHeight, maxHeight));
  }

  lemma OnePoll(minHeight: nat, maxHeight: nat, snapshots: seq<seq<Transaction>>, snapshot: seq<Transaction>)
    ensures
      var s := Run(minHeight, maxHeight, snapshots);
      var result := Search(snapshot, s.cursor, maxHeight);
      Run(minHeight, maxHeight, snapshots + [snapshot]) == State(CursorAfter(s.cursor, result), s.emitted + result)
    ensures AppendOnly(snapshots + [snapshot]) <==>
      AppendOnly(snapshots) && NoDuplicates(snapshot) && forall tx | tx in Latest(snapshots) :: tx in snapshot
  {
    var more := snapshots + [snapshot];
    assert more[..|snapshots|] == snapshots && more[|snapshots|] == snapshot;
  }

  lemma SearchForOne(tx: Transaction, cursor: nat, maxHeight: nat)
    ensures Search([tx], cursor, maxHeight) == if Matches(tx, cursor, maxHeight) then [tx] else []
    ensures CursorAfter(cursor, [tx]) == if tx.height >= cursor then tx.height + 1 else cursor
  {
    assert [tx][..0] == [] && CursorAfter(cursor, []) == cursor;
    assert Matching([tx], cursor, maxHeight) == if Matches(tx, cursor, maxHeight) then [tx] else [];
  }

  /** A transaction that appears at or below a height already passed is not emitted. */
  lemma LateArrivalIsMissed(minHeight: nat, maxHeight: nat, known: Transaction, late: Transaction)
    requires known.kind == 0 && late.kind == 0 && late != known
    requires minHeight <= late.height <= known.height <= maxHeight
    ensures
      var snapshots := [[known], [known, late]];
      AppendOnly(snapshots) && Run(minHeight, maxHeight, snapshots).emitted == [known]
  {
    var one, two := [known], [known, late];
    OnePoll(minHeight, maxHeight, [], one);
    SearchForOne(known, minHeight, maxHeight);
    assert [] + [one] == [one] && [one] + [two] == [one, two];
    OnePoll(minHeight, maxHeight, [one], two);
    var cursor := known.height + 1;
    assert Run(minHeight, maxHeight, [one]) == State(cursor, one);
    assert two[..1] == one;
    SearchForOne(known, cursor, maxHeight);
    assert Search(two, cursor, maxHeight) == [];
  }

  /** The snapshots are the chain up to heights that never decrease. */
  ghost predicate ChainUpTo(chain: set<Transaction>, heights: seq<nat>, snapshots: seq<seq<Transaction>>) {
    && |heights| == |snapshots|
    && (forall i, j | 0 <= i < j < |heights| :: heights[i] <= heights[j])
    && (forall i | 0 <= i < |snapshots| :: NoDuplicates(snapshots[i]))
    && (forall i, tx | 0 <= i < |snapshots| :: tx in snapshots[i] <==> tx in chain && tx.height <= heights[i])
  }

  lemma {:induction false} ChainHasNoLateArrivals(
    minHeight: nat, maxHeight: nat, chain: set<Transaction>, heights: seq<nat>, snapshots: seq<seq<Transaction>>)
    requires ChainUpTo(chain, heights, snapshots)
    ensures AppendOnly(snapshots) && NoLateArrivals(minHeight, maxHeight, snapshots)
  {
    if snapshots != [] {
      var n := |snapshots| - 1;
      ChainHasNoLateArrivals(minHeight, maxHeight, chain, heights[..n], snapshots[..n]);
      if n > 0 {
        assert Latest(snapshots[..n]) == snapshots[n - 1];
        assert heights[n - 1] <= heights[n];
        forall tx | tx in snapshots[n - 1]
          ensures tx in snapshots[n]
        {
          assert tx in chain && tx.height <= heights[n - 1];
        }
      }
    }
  }

  /** With snapshots that are complete up to a height that never decreases, each matching transaction
      up to that height is emitted exactly once over the whole run, and no other is. */
  lemma CompleteSnapshotsAreEmittedOnce(
    minHeight: nat, maxHeight: nat, chain: set<Transaction>, heights: seq<nat>, snapshots: seq<seq<Transaction>>,
    tx: Transaction)
    requires ChainUpTo(chain, heights, snapshots) && snapshots != []
    ensures multiset(Run(minHeight, maxHeight, snapshots).emitted)[tx] ==
      if tx in chain && tx.height <= heights[|heights| - 1]
        && tx.kind == 0 && minHeight <= tx.height && tx.height <= maxHeight then 1 else 0
  {
    ChainHasNoLateArrivals(minHeight, maxHeight, chain, heights, snapshots);
    RunIsPolled(minHeight, maxHeight, snapshots);
    CompleteIff(minHeight, maxHeight, snapshots);
    MultiplicityOfDistinct(Run(minHeight, maxHeight, snapshots).emitted, tx);
  }
}
