/** `txSearch` and `txSearchAll` of the Tendermint client (packages/iov-tendermint-rpc/src/client.ts). */
module TxSearch {
  import opened HeightSorting

  datatype Response = Response(totalCount: nat, txs: seq<Tx>)

  // ----- The server and the client -----------------------------------------------------------------------

  /** A server splits a fixed list of matches into pages, the first of which is page 1. */
  function Page(pages: seq<seq<Tx>>, page: nat): seq<Tx> {
    if 1 <= page <= |pages| then pages[page - 1] else []
  }

  /** The matches on the pages 1, 2, ..., last. */
  function Through(pages: seq<seq<Tx>>, last: nat): seq<Tx> {
    if last == 0 then [] else Through(pages, last - 1) + Page(pages, last)
  }

  function AllPages(pages: seq<seq<Tx>>): seq<Tx> {
    Through(pages, |pages|)
  }

  /** `txSearch`. */
  ghost function Search(pages: seq<seq<Tx>>, page: nat): Response {
    Response(|AllPages(pages)|, SortByHeight(Page(pages, page)))
  }

  /** What the requests for the pages after the first `skipped` ones up to `last` have collected. */
  ghost function Collected(pages: seq<seq<Tx>>, skipped: nat, last: nat): seq<Tx> {
    if last <= skipped then [] else Collected(pages, skipped, last - 1) + SortByHeight(Page(pages, last))
  }

  method TxSearchPage(pages: seq<seq<Tx>>, page: nat) returns (response: Response)
    ensures response == Search(pages, page)
  {
    var txs := Sort(Page(pages, page));
    return Response(|AllPages(pages)|, txs);
  }

  /** The loop, which asks for one page after the other until the announced number has been reached. */
  method CollectPages(pages: seq<seq<Tx>>, first: nat) returns (txs: seq<Tx>, ghost last: nat)
    requires first >= 1 && Through(pages, first - 1) == []
    ensures last >= first && txs == Collected(pages, first - 1, last) && |txs| >= |AllPages(pages)|
  {
    ghost var skipped := first - 1;
    var page, done := first, false;
    txs, last := [], skipped;
    while !done
      invariant skipped <= last && txs == Collected(pages, skipped, last)
      invariant !done ==> page == last + 1 && (last > skipped ==> last < |pages|)
      invariant done ==> last > skipped && |txs| >= |AllPages(pages)|
      decreases !done, |pages| - last
    {
      LoopTurn(pages, skipped, page);
      var resp := TxSearchPage(pages, page);
      txs := txs + resp.txs;
      last := page;
      if |txs| < resp.totalCount {
        page := page + 1;
      } else {
        done := true;
      }
    }
  }

  /** The page 0 stands for none given. No match may be on a page before the first one requested: see
      SearchEndsIff. */
  method TxSearchAll(pages: seq<seq<Tx>>, start: nat) returns (response: Response)
    requires start > 1 ==> Through(pages, start - 1) == []
    ensures response.totalCount == |AllPages(pages)|
    ensures response.txs == SortByHeight(AllPages(pages))
  {
    var first := if start == 0 then 1 else start;
    ghost var last := 0;
    var txs;
    txs, last := CollectPages(pages, first);
    CollectedSorts(pages, first - 1, last);
    txs := Sort(txs);
    return Response(|txs|, txs);
  }

  // ----- Size and progress -----------------------------------------------------------------------------------

  lemma {:induction false} BeyondLastPage(pages: seq<seq<Tx>>, last: nat)
    requires last >= |pages|
    ensures Through(pages, last) == AllPages(pages)
    decreases last
  {
    if last > |pages| {
      BeyondLastPage(pages, last - 1);
      assert Through(pages, last - 1) + [] == Through(pages, last - 1);
    }
  }

  lemma {:induction false} ThroughIsPrefix(pages: seq<seq<Tx>>, last: nat, more: nat)
    requires last <= more
    ensures Through(pages, last) <= Through(pages, more)
    decreases more - last
  {
    if last < more {
      ThroughIsPrefix(pages, last, more - 1);
    }
  }

  lemma WithinAll(pages: seq<seq<Tx>>, last: nat)
    ensures Through(pages, last) <= AllPages(pages)
  {
    if last >= |pages| {
      BeyondLastPage(pages, last);
    } else {
      ThroughIsPrefix(pages, last, |pages|);
    }
  }

  /** What is on the skipped pages and what has been collected are all there is up to the last request. */
  lemma {:induction false} CollectedSize(pages: seq<seq<Tx>>, skipped: nat, last: nat)
    requires skipped <= last
    ensures |Through(pages, skipped)| + |Collected(pages, skipped, last)| == |Through(pages, last)| <= |AllPages(pages)|
    ensures last >= |pages| ==> |Through(pages, last)| == |AllPages(pages)|
  {
    WithinAll(pages, last);
    if last >= |pages| {
      BeyondLastPage(pages, last);
    }
    if last > skipped {
      CollectedSize(pages, skipped, last - 1);
    }
  }

  lemma LoopTurn(pages: seq<seq<Tx>>, skipped: nat, page: nat)
    requires skipped < page && (skipped > 0 ==> Through(pages, skipped) == [])
    ensures Collected(pages, skipped, page) == Collected(pages, skipped, page - 1) + Search(pages, page).txs
    ensures |Collected(pages, skipped, page)| < |AllPages(pages)| ==> page < |pages|
  {
    CollectedSize(pages, skipped, page);
  }

  /** The loop ends, after some request, if and only if there is no match on a page before the first one
      requested. */
  lemma SearchEndsIff(pages: seq<seq<Tx>>, skipped: nat)
    ensures (exists last: nat :: last > skipped && |Collected(pages, skipped, last)| >= |AllPages(pages)|)
       <==> Through(pages, skipped) == []
  {
    forall last: nat | last >= skipped { CollectedSize(pages, skipped, last); }
    var last := |pages| + skipped + 1;
    assert |Through(pages, skipped)| + |Collected(pages, skipped, last)| == |AllPages(pages)|;
  }

  /** With one match, on page 1, the loop that starts on page 2 collects nothing, however long it runs. */
  lemma SecondPageNeverEnds(tx: Tx, last: nat)
    requires last >= 1
    ensures Collected([[tx]], 1, last) == [] && AllPages([[tx]]) == [tx]
  {
    var pages := [[tx]];
    assert Through(pages, 0) == [];
    assert Through(pages, 1) == [tx];
    CollectedSize(pages, 1, last);
  }

  ghost function Flat(pages: seq<seq<Tx>>): seq<Tx> {
    if pages == [] then [] else pages[0] + Flat(pages[1..])
  }

  /** All matches are the pages one after the other, from the first to the last. */
  lemma AllPagesAreFlat(pages: seq<seq<Tx>>)
    ensures AllPages(pages) == Flat(pages)
  {
    ThroughIsFlat(pages, |pages|);
    assert pages[..|pages|] == pages;
  }

  lemma {:induction false} ThroughIsFlat(pages: seq<seq<Tx>>, last: nat)
    requires last <= |pages|
    ensures Through(pages, last) == Flat(pages[..last])
  {
    if last > 0 {
      ThroughIsFlat(pages, last - 1);
      assert pages[..last] == pages[..last - 1] + [pages[last - 1]];
      FlatAppend(pages[..last - 1], pages[last - 1]);
    }
  }

  lemma {:induction false} FlatAppend(pages: seq<seq<Tx>>, page: seq<Tx>)
    ensures Flat(pages + [page]) == Flat(pages) + page
  {
    if pages == [] {
      assert [page][1..] == [] && Flat([]) == [];
      assert page + [] == page && [] + page == page;
    } else {
      assert (pages + [page])[1..] == pages[1..] + [page];
      FlatAppend(pages[1..], page);
    }
  }

  // ----- Independent of the pages --------------------------------------------------------------------------------

  lemma BlocksExtend(collected: seq<Tx>, through: seq<Tx>, page: seq<Tx>)
    requires SameBlocks(collected, through)
    ensures SameBlocks(collected + SortByHeight(page), through + page)
  {
    forall h: nat
      ensures AtHeight(collected + SortByHeight(page), h) == AtHeight(through + page, h)
    {
      assert AtHeight(collected, h) == AtHeight(through, h);
      AtHeightConcatenation(collected, SortByHeight(page), h);
      AtHeightConcatenation(through, page, h);
      assert AtHeight(SortByHeight(page), h) == AtHeight(page, h);
    }
  }

  ghost predicate IsCollected(pages: seq<seq<Tx>>, skipped: nat, last: nat, collected: seq<Tx>, through: seq<Tx>) {
    collected == Collected(pages, skipped, last) && through == Through(pages, last)
  }

  /** If there is nothing on the skipped pages, what has been collected has the blocks of all pages so far. */
  lemma {:induction false} CollectedBlocks(pages: seq<seq<Tx>>, skipped: nat, last: nat)
    returns (collected: seq<Tx>, through: seq<Tx>)
    requires skipped <= last && Through(pages, skipped) == []
    ensures IsCollected(pages, skipped, last, collected, through) && SameBlocks(collected, through)
  {
    if last == skipped {
      collected, through := [], [];
    } else {
      var c, t := CollectedBlocks(pages, skipped, last - 1);
      var page := Page(pages, last);
      collected, through := c + SortByHeight(page), t + page;
      BlocksExtend(c, t, page);
    }
  }

  /** Once the number is right, sorting what was collected page by page is sorting the whole list of
      matches. */
  lemma CollectedSorts(pages: seq<seq<Tx>>, skipped: nat, last: nat)
    requires skipped <= last && |Collected(pages, skipped, last)| >= |AllPages(pages)|
    ensures SortByHeight(Collected(pages, skipped, last)) == SortByHeight(AllPages(pages))
  {
    var a, b := Collected(pages, skipped, last), AllPages(pages);
    CollectedSize(pages, skipped, last);
    WithinAll(pages, last);
    assert Through(pages, last) == b && Through(pages, skipped) == [];
    var collected, through := CollectedBlocks(pages, skipped, last);
    SortOfSameBlocks(collected, through);
  }

  lemma SortOfSameBlocks(a: seq<Tx>, b: seq<Tx>)
    requires SameBlocks(a, b)
    ensures SortByHeight(a) == SortByHeight(b)
  {
    forall h: nat
      ensures AtHeight(SortByHeight(a), h) == AtHeight(SortByHeight(b), h)
    {
      assert AtHeight(SortByHeight(a), h) == AtHeight(a, h) == AtHeight(b, h) == AtHeight(SortByHeight(b), h);
    }
    BlocksDetermineList(SortByHeight(a), SortByHeight(b));
  }

  /** The result of `txSearchAll` depends on the matches only, not on how the server splits them: they
      are all there, ordered by height, and within a block in the order of the server. */
  lemma {:induction false} PageSizeDoesNotMatter(pages: seq<seq<Tx>>, others: seq<seq<Tx>>)
    requires AllPages(pages) == AllPages(others)
    ensures
      var r := SortByHeight(Collected(pages, 0, |pages|));
      && r == SortByHeight(Collected(others, 0, |others|))
      && Ascending(r) && multiset(r) == multiset(AllPages(pages))
      && (forall h: nat :: AtHeight(r, h) == AtHeight(AllPages(pages), h))
  {
    CollectedSize(pages, 0, |pages|);
    CollectedSize(others, 0, |others|);
    CollectedSorts(pages, 0, |pages|);
    CollectedSorts(others, 0, |others|);
  }
}

/** `sort((a, b) => a.height - b.height)` of transactions. */
module HeightSorting {
  import opened Sequences

  datatype Tx = Tx(height: nat, hash: string)

  ghost predicate NotHigher(txs: seq<Tx>, i: nat, j: nat)
    requires i < |txs| && j < |txs|
  {
    txs[i].height <= txs[j].height
  }

  ghost predicate Ascending(txs: seq<Tx>) {
    forall i: nat, j: nat | i < j < |txs| :: NotHigher(txs, i, j)
  }

  /** The transactions of one block, in order. */
  ghost function AtHeight(txs: seq<Tx>, h: nat): seq<Tx> {
    if txs == [] then []
    else AppendIf(txs[|txs| - 1].height == h, AtHeight(txs[..|txs| - 1], h), txs[|txs| - 1])
  }

  ghost predicate SameBlocks(a: seq<Tx>, b: seq<Tx>) {
    forall h: nat :: AtHeight(a, h) == AtHeight(b, h)
  }

  /** The same transactions, by height; within a block they keep their order. */
  ghost predicate IsSortOf(r: seq<Tx>, txs: seq<Tx>) {
    |r| == |txs| && Ascending(r) && multiset(r) == multiset(txs) && SameBlocks(r, txs)
  }

  /** `sort((a, b) => a.height - b.height)`; BlocksDetermineList says that there is only one result. */
  ghost function SortByHeight(txs: seq<Tx>): (r: seq<Tx>)
    ensures IsSortOf(r, txs)
  {
    SortExists(txs);
    var r :| IsSortOf(r, txs);
    r
  }

  lemma {:induction false} AtHeightConcatenation(a: seq<Tx>, b: seq<Tx>, h: nat)
    ensures AtHeight(a + b, h) == AtHeight(a, h) + AtHeight(b, h)
  {
    if b == [] {
      assert a + b == a;
    } else {
      assert (a + b)[..|a + b| - 1] == a + b[..|b| - 1];
      AtHeightConcatenation(a, b[..|b| - 1], h);
    }
  }

  lemma {:induction false} NothingAtHeight(txs: seq<Tx>, h: nat)
    ensures AtHeight(txs, h) == [] <==> forall i | 0 <= i < |txs| :: txs[i].height != h
  {
    if txs != [] {
      NothingAtHeight(txs[..|txs| - 1], h);
    }
  }

  lemma InsertedBlock(a: seq<Tx>, tx: Tx, b: seq<Tx>, h: nat)
    requires forall i | 0 <= i < |b| :: b[i].height > tx.height
    ensures AtHeight(a + [tx] + b, h) == AtHeight(a + b, h) + AtHeight([tx], h)
  {
    AtHeightConcatenation(a + [tx], b, h);
    AtHeightConcatenation(a, [tx], h);
    AtHeightConcatenation(a, b, h);
    NothingAtHeight(b, h);
    if tx.height == h {
      AppendNothing(AtHeight(a, h));
      AppendNothing(AtHeight(a, h) + [tx]);
    } else {
      AppendNothing(AtHeight(a, h));
      AppendNothing(AtHeight(a, h) + AtHeight(b, h));
    }
  }

  /** The place of a transaction behind the last one that is not higher. */
  ghost predicate IsPlace(a: seq<Tx>, tx: Tx, b: seq<Tx>) {
    && (forall i | 0 <= i < |a| :: a[i].height <= tx.height)
    && (forall i | 0 <= i < |b| :: b[i].height > tx.height)
  }

  lemma AscendingAppend(a: seq<Tx>, b: seq<Tx>)
    requires Ascending(a) && Ascending(b) && forall x, y | x in a && y in b :: x.height <= y.height
    ensures Ascending(a + b)
  {
    var r := a + b;
    forall i: nat, j: nat | i < j < |r|
      ensures NotHigher(r, i, j)
    {
      if j < |a| {
        assert NotHigher(a, i, j);
      } else if i < |a| {
        assert r[i] == a[i] && r[j] == b[j - |a|] && a[i] in a && b[j - |a|] in b;
      } else {
        assert NotHigher(b, i - |a|, j - |a|);
      }
    }
  }

  lemma AscendingParts(a: seq<Tx>, b: seq<Tx>)
    requires Ascending(a + b)
    ensures Ascending(a) && Ascending(b)
  {
    var r := a + b;
    forall i: nat, j: nat | i < j < |a|
      ensures NotHigher(a, i, j)
    {
      assert NotHigher(r, i, j);
    }
    forall i: nat, j: nat | i < j < |b|
      ensures NotHigher(b, i, j)
    {
      assert NotHigher(r, |a| + i, |a| + j);
    }
  }

  lemma InsertAscends(a: seq<Tx>, tx: Tx, b: seq<Tx>)
    requires Ascending(a + b) && IsPlace(a, tx, b)
    ensures Ascending(a + [tx] + b)
  {
    AscendingParts(a, b);
    AscendingAppend(a, [tx]);
    AscendingAppend(a + [tx], b);
  }

  lemma InsertSorts(a: seq<Tx>, tx: Tx, b: seq<Tx>, before: seq<Tx>)
    requires IsSortOf(a + b, before) && IsPlace(a, tx, b)
    ensures IsSortOf(a + [tx] + b, before + [tx])
  {
    InsertAscends(a, tx, b);
    assert SameBlocks(a + [tx] + b, before + [tx]) by {
      forall h: nat
        ensures AtHeight(a + [tx] + b, h) == AtHeight(before + [tx], h)
      {
        assert AtHeight(a + b, h) == AtHeight(before, h);
        InsertedBlock(a, tx, b, h);
        AtHeightConcatenation(before, [tx], h);
      }
    }
  }

  /** Where the transaction belongs among the first n. */
  function Position(sorted: seq<Tx>, tx: Tx, n: nat): (p: nat)
    requires n <= |sorted|
    ensures p <= n && (p > 0 ==> sorted[p - 1].height <= tx.height)
    ensures forall i | p <= i < n :: sorted[i].height > tx.height
  {
    if n == 0 || sorted[n - 1].height <= tx.height then n else Position(sorted, tx, n - 1)
  }

  lemma PositionIsPlace(sorted: seq<Tx>, tx: Tx, p: nat)
    requires Ascending(sorted) && p == Position(sorted, tx, |sorted|)
    ensures IsPlace(sorted[..p], tx, sorted[p..])
  {
    forall i: nat | i < p
      ensures sorted[i].height <= tx.height
    {
      assert i < p - 1 ==> NotHigher(sorted, i, p - 1);
    }
  }

  /** One step of an insertion sort. */
  function Inserted(sorted: seq<Tx>, tx: Tx): seq<Tx> {
    var p := Position(sorted, tx, |sorted|);
    sorted[..p] + [tx] + sorted[p..]
  }

  lemma InsertedSorts(sorted: seq<Tx>, tx: Tx, before: seq<Tx>)
    requires IsSortOf(sorted, before)
    ensures IsSortOf(Inserted(sorted, tx), before + [tx])
  {
    var p := Position(sorted, tx, |sorted|);
    var a, b := sorted[..p], sorted[p..];
    PositionIsPlace(sorted, tx, p);
    SplitAt(sorted, p);
    InsertSorts(a, tx, b, before);
  }

  lemma {:induction false} SortExists(txs: seq<Tx>)
    ensures exists r :: IsSortOf(r, txs)
  {
    if txs == [] {
      assert IsSortOf([], txs);
    } else {
      var before, last := txs[..|txs| - 1], txs[|txs| - 1];
      assert txs == before + [last];
      SortExists(before);
      var sorted :| IsSortOf(sorted, before);
      InsertedSorts(sorted, last, before);
    }
  }

  method Sort(txs: seq<Tx>) returns (r: seq<Tx>)
    ensures r == SortByHeight(txs)
  {
    r := [];
    for i := 0 to |txs|
      invariant IsSortOf(r, txs[..i])
    {
      InsertedSorts(r, txs[i], txs[..i]);
      assert txs[..i + 1] == txs[..i] + [txs[i]];
      r := Inserted(r, txs[i]);
    }
    assert txs[..|txs|] == txs;
    SortIsUnique(r, SortByHeight(txs), txs);
  }

  lemma SortIsUnique(a: seq<Tx>, b: seq<Tx>, txs: seq<Tx>)
    requires IsSortOf(a, txs) && IsSortOf(b, txs)
    ensures a == b
  {
    forall h: nat
      ensures AtHeight(a, h) == AtHeight(b, h)
    {
      assert AtHeight(a, h) == AtHeight(txs, h) == AtHeight(b, h);
    }
    BlocksDetermineList(a, b);
  }

  lemma LastIsHighest(a: seq<Tx>, h: nat)
    requires Ascending(a) && AtHeight(a, h) != []
    ensures a != [] && h <= a[|a| - 1].height
  {
    NothingAtHeight(a, h);
    var i: nat :| i < |a| && a[i].height == h;
    assert i < |a| - 1 ==> NotHigher(a, i, |a| - 1);
  }

  lemma LastOfBlock(a: seq<Tx>)
    requires a != []
    ensures
      var block := AtHeight(a, a[|a| - 1].height);
      block != [] && block[|block| - 1] == a[|a| - 1]
  {
  }

  lemma LastBlock(a: seq<Tx>, b: seq<Tx>)
    requires Ascending(a) && Ascending(b) && SameBlocks(a, b) && a != []
    ensures b != [] && a[|a| - 1] == b[|b| - 1]
  {
    var h := a[|a| - 1].height;
    LastOfBlock(a);
    assert AtHeight(a, h) == AtHeight(b, h);
    LastIsHighest(b, h);
    var k := b[|b| - 1].height;
    LastOfBlock(b);
    assert AtHeight(a, k) == AtHeight(b, k);
    LastIsHighest(a, k);
  }

  lemma AscendingFront(a: seq<Tx>)
    requires Ascending(a) && a != []
    ensures Ascending(a[..|a| - 1])
  {
    var front := a[..|a| - 1];
    forall i: nat, j: nat | i < j < |front|
      ensures NotHigher(front, i, j)
    {
      assert NotHigher(a, i, j);
    }
  }

  lemma BlocksBeforeLast(a: seq<Tx>, b: seq<Tx>)
    requires SameBlocks(a, b) && a != [] && b != [] && a[|a| - 1] == b[|b| - 1]
    ensures SameBlocks(a[..|a| - 1], b[..|b| - 1])
  {
    var c, d, last := a[..|a| - 1], b[..|b| - 1], a[|a| - 1];
    forall h: nat
      ensures AtHeight(c, h) == AtHeight(d, h)
    {
      assert AtHeight(a, h) == AtHeight(b, h);
      var x, y := AtHeight(c, h), AtHeight(d, h);
      AppendNothing(x);
      AppendNothing(y);
      FrontOfAppend(x, last);
      FrontOfAppend(y, last);
    }
  }

  /** Ascending heights and the order within each block determine a list. */
  lemma {:induction false} BlocksDetermineList(a: seq<Tx>, b: seq<Tx>)
    requires Ascending(a) && Ascending(b) && SameBlocks(a, b)
    ensures a == b
  {
    if a == [] {
      if b != [] {
        NothingAtHeight(b, b[|b| - 1].height);
      }
    } else {
      LastBlock(a, b);
      BlocksBeforeLast(a, b);
      AscendingFront(a);
      AscendingFront(b);
      BlocksDetermineList(a[..|a| - 1], b[..|b| - 1]);
      assert a == a[..|a| - 1] + [a[|a| - 1]] && b == b[..|b| - 1] + [b[|b| - 1]];
    }
  }
}
