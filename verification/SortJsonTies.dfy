/** `sortJson` keeps the order of keys to which the collation gives the same weight. So sorting is
    idempotent, but a document with such keys has more than one sorted form. */
module SortJsonTies {
  import opened Sequences
  import opened SortJson
  import opened SortedObjects
  import opened ObjectContents
  import opened SortJsonProofs

  ghost predicate Before(s: seq<Member>, x: Member, y: Member) {
    exists p, q | 0 <= p < q < |s| :: s[p] == x && s[q] == y
  }

  lemma BeforeAppend(s: seq<Member>, m: Member, x: Member, y: Member)
    requires Before(s, x, y) || (x in s && y == m)
    ensures Before(s + [m], x, y)
  {
    var r := s + [m];
    if Before(s, x, y) {
      var p, q :| 0 <= p < q < |s| && s[p] == x && s[q] == y;
      assert r[p] == x && r[q] == y;
    } else {
      var p :| 0 <= p < |s| && s[p] == x;
      assert r[p] == x && r[|s|] == y;
    }
  }

  lemma BeforeFront(s: seq<Member>, last: Member, x: Member, y: Member)
    requires Before(s + [last], x, y)
    ensures Before(s, x, y) || (x in s && y == last)
  {
    var r := s + [last];
    var p, q :| 0 <= p < q < |r| && r[p] == x && r[q] == y;
    assert s[p] == x;
    if q < |s| {
      assert s[q] == y;
    }
  }

  lemma {:induction false} PlacedKeepsOrder(weight: Collation, sorted: seq<Member>, m: Member, x: Member, y: Member)
    requires Ascending(weight, sorted)
    requires Before(sorted, x, y) || (x in sorted && y == m && weight(x.key) <= weight(m.key))
    ensures Before(Placed(weight, sorted, m), x, y)
  {
    var n := |sorted| - 1;
    if weight(sorted[n].key) <= weight(m.key) {
      BeforeAppend(sorted, m, x, y);
    } else {
      var before, last := sorted[..n], sorted[n];
      assert sorted == before + [last];
      if x in before && y == last {
        PlacedHas(weight, before, m, x);
      } else {
        if Before(sorted, x, y) {
          BeforeFront(before, last, x, y);
        }
        PlacedKeepsOrder(weight, before, m, x, y);
      }
      BeforeAppend(Placed(weight, before, m), last, x, y);
    }
  }

  lemma PlacedHas(weight: Collation, sorted: seq<Member>, m: Member, x: Member)
    requires x in sorted
    ensures x in Placed(weight, sorted, m)
  {
    PlacedContents(weight, sorted, m);
    assert x in multiset(Placed(weight, sorted, m));
  }

  /** The sort is stable. */
  lemma {:induction false} SortedKeepsOrder(weight: Collation, members: seq<Member>, i: nat, j: nat)
    requires i < j < |members| && weight(members[i].key) <= weight(members[j].key)
    ensures Before(Sorted(weight, members), members[i], members[j])
  {
    var n := |members| - 1;
    var before, last := members[..n], members[n];
    SortedIsSorted(weight, before);
    assert before[i] == members[i];
    if j < n {
      assert before[j] == members[j];
      SortedKeepsOrder(weight, before, i, j);
    } else {
      SameMultisetSameMembers(Sorted(weight, before), before, before[i]);
    }
    PlacedKeepsOrder(weight, Sorted(weight, before), last, members[i], members[j]);
  }

  lemma {:induction false} WithMemberAppends(members: seq<Member>, m: Member)
    requires forall i | 0 <= i < |members| :: members[i].key != m.key
    requires ArrayIndex(m.key).None?
    ensures WithMember(members, m) == members + [m]
  {
    if members != [] {
      WithMemberAppends(members[1..], m);
      assert members == [members[0]] + members[1..];
    }
  }

  lemma InsertAfterFirst(first: Member, rest: seq<Member>, l: nat, m: Member)
    requires l <= |rest|
    ensures
      var members, k := [first] + rest, l + 1;
      members[..k] + [m] + members[k..] == [first] + (rest[..l] + [m] + rest[l..])
  {
    var members, k := [first] + rest, l + 1;
    assert members[..k] == [first] + rest[..l];
    assert members[k..] == rest[l..];
  }

  /** A new member is inserted somewhere. */
  lemma {:induction false} WithMemberInserts(members: seq<Member>, m: Member) returns (k: nat)
    requires forall i | 0 <= i < |members| :: members[i].key != m.key
    ensures k <= |members| && WithMember(members, m) == members[..k] + [m] + members[k..]
  {
    k := 0;
    if members != [] && !ListedBefore(m.key, members[0].key) {
      var first, rest := members[0], members[1..];
      var l := WithMemberInserts(rest, m);
      k := l + 1;
      assert members == [first] + rest;
      InsertAfterFirst(first, rest, l, m);
    }
  }

  lemma InsertionKeepsOrder(s: seq<Member>, k: nat, m: Member, x: Member, y: Member)
    requires k <= |s| && Before(s, x, y)
    ensures Before(s[..k] + [m] + s[k..], x, y)
  {
    var r := s[..k] + [m] + s[k..];
    var p, q :| 0 <= p < q < |s| && s[p] == x && s[q] == y;
    assert r[if p < k then p else p + 1] == x && r[if q < k then q else q + 1] == y;
  }

  lemma BuiltKeys(weight: Collation, before: seq<Member>, last: Member)
    requires Ascending(weight, before) && DistinctKeys(before + [last])
    ensures DistinctKeys(before) && multiset(FromMembers(before)) == multiset(before)
    ensures forall k | 0 <= k < |FromMembers(before)| :: FromMembers(before)[k].key != last.key
  {
    var members, built := before + [last], FromMembers(before);
    assert forall i | 0 <= i < |before| :: before[i] == members[i];
    FromMembersIsOrdered(weight, before);
    forall k | 0 <= k < |built|
      ensures built[k].key != last.key
    {
      assert built[k] in multiset(before);
      var i :| 0 <= i < |before| && before[i] == built[k];
      assert members[i].key != members[|before|].key;
    }
  }

  lemma LaterMemberKeepsOrder(weight: Collation, before: seq<Member>, last: Member, x: Member, y: Member)
    requires Ascending(weight, before) && DistinctKeys(before + [last])
    requires Before(FromMembers(before), x, y)
    ensures Before(WithMember(FromMembers(before), last), x, y)
  {
    BuiltKeys(weight, before, last);
    var k := WithMemberInserts(FromMembers(before), last);
    InsertionKeepsOrder(FromMembers(before), k, last, x, y);
  }

  lemma LastMemberComesLast(weight: Collation, before: seq<Member>, last: Member, x: Member)
    requires Ascending(weight, before) && DistinctKeys(before + [last])
    requires x in before && ArrayIndex(last.key).None?
    ensures Before(WithMember(FromMembers(before), last), x, last)
  {
    BuiltKeys(weight, before, last);
    WithMemberAppends(FromMembers(before), last);
    assert x in multiset(before);
    BeforeAppend(FromMembers(before), last, x, last);
  }

  lemma {:induction false} FromMembersKeepsOrder(weight: Collation, members: seq<Member>, i: nat, j: nat)
    requires Ascending(weight, members) && DistinctKeys(members)
    requires i < j < |members| && ArrayIndex(members[j].key).None?
    ensures Before(FromMembers(members), members[i], members[j])
  {
    var n := |members| - 1;
    var before, last := members[..n], members[n];
    assert members == before + [last];
    if j < n {
      FromMembersKeepsOrder(weight, before, i, j);
      LaterMemberKeepsOrder(weight, before, last, members[i], members[j]);
    } else {
      assert before[i] in before;
      LastMemberComesLast(weight, before, last, members[i]);
    }
  }

  lemma ObjectKeepsOrder(weight: Collation, members: seq<Member>, i: nat, j: nat)
    requires DistinctKeys(members) && i < j < |members|
    requires weight(members[i].key) <= weight(members[j].key) && ArrayIndex(members[j].key).None?
    ensures Before(FromMembers(Sorted(weight, members)), members[i], members[j])
  {
    var sorted := Sorted(weight, members);
    SortedIsSorted(weight, members);
    DistinctKeysPermute(members, sorted);
    SortedKeepsOrder(weight, members, i, j);
    var p, q :| 0 <= p < q < |sorted| && sorted[p] == members[i] && sorted[q] == members[j];
    FromMembersKeepsOrder(weight, sorted, p, q);
  }

  // ----- Sorting is idempotent -------------------------------------------------------------------------------------

  /** An array index that is listed before a key is listed before it in every ordered object. */
  lemma IndexKeepsOrder(weight: Collation, q: seq<Member>, x: Member, y: Member)
    requires Ordered(weight, q) && x in q && y in q && x != y
    requires ArrayIndex(x.key).Some? && InOrder(weight, x.key, y.key)
    ensures Before(q, x, y)
  {
    var p :| 0 <= p < |q| && q[p] == x;
    var o :| 0 <= o < |q| && q[o] == y;
    if o < p {
      assert InOrder(weight, q[o].key, q[p].key);
      OrderIsAntisymmetric(weight, x.key, y.key);
    }
  }

  /** Whatever is listed in order keeps its order. */
  lemma OrderedKeepsOrder(weight: Collation, r: seq<Member>, q: seq<Member>, i: nat, j: nat)
    requires DistinctKeys(r) && Ordered(weight, r) && q == FromMembers(Sorted(weight, r)) && i < j < |r|
    ensures Before(q, r[i], r[j])
  {
    SortedObject(weight, r);
    assert InOrder(weight, r[i].key, r[j].key);
    if ArrayIndex(r[i].key).None? {
      ObjectKeepsOrder(weight, r, i, j);
    } else {
      SameMultisetSameMembers(q, r, r[i]);
      SameMultisetSameMembers(q, r, r[j]);
      IndexKeepsOrder(weight, q, r[i], r[j]);
    }
  }

  ghost predicate KeepsOrderOf(q: seq<Member>, r: seq<Member>) {
    forall i, j | 0 <= i < j < |r| :: Before(q, r[i], r[j])
  }

  lemma FirstStaysFirst(q: seq<Member>, r: seq<Member>)
    requires DistinctKeys(q) && multiset(q) == multiset(r) && KeepsOrderOf(q, r) && r != []
    ensures q != [] && q[0] == r[0]
  {
    SameMultisetSameMembers(q, r, r[0]);
    SameMultisetSameMembers(q, r, q[0]);
    var j :| 0 <= j < |r| && r[j] == q[0];
    assert j > 0 ==> Before(q, r[0], r[j]);
  }

  lemma {:induction false} SameOrderSameMembers(q: seq<Member>, r: seq<Member>)
    requires DistinctKeys(q) && multiset(q) == multiset(r) && KeepsOrderOf(q, r)
    ensures q == r
  {
    if r == [] {
      assert |multiset(q)| == 0;
    } else {
      FirstStaysFirst(q, r);
      TailsPermute(q, r);
      var tail := r[1..];
      forall i, j | 0 <= i < j < |tail|
        ensures Before(q[1..], tail[i], tail[j])
      {
        assert tail[i] == r[i + 1] && tail[j] == r[j + 1];
        assert Before(q, r[0], r[i + 1]) && Before(q, r[i + 1], r[j + 1]);
      }
      SameOrderSameMembers(q[1..], tail);
      assert q == [q[0]] + q[1..] && r == [r[0]] + tail;
    }
  }

  lemma OrderedStays(weight: Collation, r: seq<Member>)
    requires DistinctKeys(r) && Ordered(weight, r)
    ensures FromMembers(Sorted(weight, r)) == r
  {
    var q := FromMembers(Sorted(weight, r));
    SortedObject(weight, r);
    forall i, j | 0 <= i < j < |r|
      ensures Before(q, r[i], r[j])
    {
      OrderedKeepsOrder(weight, r, q, i, j);
    }
    SameOrderSameMembers(q, r);
  }

  lemma SortedValuesStay(weight: Collation, values: seq<Member>, r: seq<Member>)
    requires forall i | 0 <= i < |values| :: Sort(weight, values[i].value) == values[i].value
    requires multiset(r) == multiset(values)
    ensures SortValues(weight, r) == r
  {
    forall j | 0 <= j < |r|
      ensures SortValues(weight, r)[j] == r[j]
    {
      SameMultisetSameMembers(r, values, r[j]);
    }
  }

  lemma SortedObjectStays(weight: Collation, values: seq<Member>)
    requires DistinctKeys(values)
    requires forall i | 0 <= i < |values| :: Sort(weight, values[i].value) == values[i].value
    ensures
      var r := FromMembers(Sorted(weight, values));
      Sort(weight, Object(r)) == Object(r)
  {
    var r := FromMembers(Sorted(weight, values));
    SortedObject(weight, values);
    SortedValuesStay(weight, values, r);
    OrderedStays(weight, r);
    SortObject(weight, r);
  }

  lemma SortedMembersStay(weight: Collation, members: seq<Member>)
    requires DistinctKeys(members)
    requires forall i | 0 <= i < |members| ::
      Sort(weight, Sort(weight, members[i].value)) == Sort(weight, members[i].value)
    ensures Sort(weight, Sort(weight, Object(members))) == Sort(weight, Object(members))
  {
    ValuesKeepKeys(weight, members);
    SortObject(weight, members);
    SortedObjectStays(weight, SortValues(weight, members));
  }

  /** Sorting a sorted document changes nothing, also where the collation does not tell keys apart. */
  lemma {:induction false} SortingIsIdempotent(weight: Collation, json: Json)
    requires WellFormed(json)
    ensures Sort(weight, Sort(weight, json)) == Sort(weight, json)
  {
    match json
    case Array(items) =>
      forall i | 0 <= i < |items| { SortingIsIdempotent(weight, items[i]); }
    case Object(members) =>
      forall i | 0 <= i < |members| { SortingIsIdempotent(weight, members[i].value); }
      SortedMembersStay(weight, members);
    case _ =>
  }

  // ----- Ties ------------------------------------------------------------------------------------------------------

  function Swapped<T>(s: seq<T>, i: nat, j: nat): seq<T>
    requires i < |s| && j < |s|
  {
    s[i := s[j]][j := s[i]]
  }

  /** Exchanging two members with equally weighted keys keeps the content and changes the form. */
  lemma SwappingTiesChangesForm(weight: Collation, members: seq<Member>, i: nat, j: nat)
    requires DistinctKeys(members) && i < j < |members|
    requires ArrayIndex(members[i].key).None? && ArrayIndex(members[j].key).None?
    requires weight(members[i].key) == weight(members[j].key)
    ensures FromMembers(Sorted(weight, Swapped(members, i, j))) != FromMembers(Sorted(weight, members))
  {
    var other := Swapped(members, i, j);
    assert multiset(other) == multiset(members);
    DistinctKeysPermute(members, other);
    ObjectKeepsOrder(weight, members, i, j);
    ObjectKeepsOrder(weight, other, i, j);
    SortedObject(weight, members);
  }

  // ----- The whole document ----------------------------------------------------------------------------------------

  lemma SwappedContent(members: seq<Member>, i: nat, j: nat)
    requires WellFormed(Object(members)) && i < j < |members|
    ensures WellFormed(Object(Swapped(members, i, j)))
    ensures ContentOf(Object(Swapped(members, i, j))) == ContentOf(Object(members))
  {
    var other := Swapped(members, i, j);
    assert multiset(other) == multiset(members);
    DistinctKeysPermute(members, other);
    SortedObjectKeepsContent(members, members, other);
  }

  ghost predicate IsSwap<T>(a: seq<T>, b: seq<T>, i: nat, j: nat) {
    && i < |a| == |b| && j < |a| && b[i] == a[j] && b[j] == a[i]
    && (forall k | 0 <= k < |a| && k != i && k != j :: b[k] == a[k])
  }

  lemma IsSwapIsSwapped<T>(a: seq<T>, b: seq<T>, i: nat, j: nat)
    requires IsSwap(a, b, i, j)
    ensures b == Swapped(a, i, j)
  {
  }

  lemma UpdatedContent(members: seq<Member>, i: nat, value: Json)
    requires WellFormed(Object(members)) && i < |members|
    requires WellFormed(value) && ContentOf(value) == ContentOf(members[i].value)
    ensures
      var other := members[i := Member(members[i].key, value)];
      WellFormed(Object(other)) && ContentOf(Object(other)) == ContentOf(Object(members))
  {
    var other := members[i := Member(members[i].key, value)];
    SortedObjectKeepsContent(members, other, other);
  }

  lemma UpdatedValueChangesForm(weight: Collation, members: seq<Member>, other: seq<Member>, i: nat)
    requires DistinctKeys(members) && DistinctKeys(other) && i < |members| == |other|
    requires other[i].key == members[i].key && Sort(weight, other[i].value) != Sort(weight, members[i].value)
    ensures Sort(weight, Object(other)) != Sort(weight, Object(members))
  {
    var r := FromMembers(Sorted(weight, SortValues(weight, members)));
    var s := FromMembers(Sorted(weight, SortValues(weight, other)));
    FormHasMember(weight, members, i);
    FormHasMember(weight, other, i);
    var key := members[i].key;
    SortObject(weight, members);
    SortObject(weight, other);
  }

  lemma FormHasMember(weight: Collation, members: seq<Member>, i: nat)
    requires DistinctKeys(members) && i < |members|
    ensures
      var r := FromMembers(Sorted(weight, SortValues(weight, members)));
      DistinctKeys(r) && Member(members[i].key, Sort(weight, members[i].value)) in r
  {
    SortedObjectKeys(weight, members);
    assert SortValues(weight, members)[i] in SortValues(weight, members);
  }

  lemma UpdatedItemChangesForm(weight: Collation, items: seq<Json>, i: nat, item: Json)
    requires i < |items| && Sort(weight, item) != Sort(weight, items[i])
    ensures Sort(weight, Array(items[i := item])) != Sort(weight, Array(items))
  {
    assert SortItems(weight, items[i := item])[i] != SortItems(weight, items)[i];
  }

  lemma UpdatedItemContent(items: seq<Json>, i: nat, item: Json)
    requires i < |items| && ContentOf(item) == ContentOf(items[i])
    ensures ContentOf(Array(items[i := item])) == ContentOf(Array(items))
  {
    assert ContentOfItems(items[i := item]) == ContentOfItems(items);
  }

  /** A document with the same content and a different sorted form. */
  ghost predicate IsAnotherForm(weight: Collation, json: Json, other: Json) {
    && WellFormed(other) && IsListed(other)
    && ContentOf(other) == ContentOf(json) && Sort(weight, other) != Sort(weight, json)
  }

  lemma UpdatedItem(weight: Collation, items: seq<Json>, i: nat, item: Json)
    requires WellFormed(Array(items)) && IsListed(Array(items)) && i < |items| && IsAnotherForm(weight, items[i], item)
    ensures IsAnotherForm(weight, Array(items), Array(items[i := item]))
  {
    UpdatedItemContent(items, i, item);
    UpdatedItemChangesForm(weight, items, i, item);
  }

  lemma UpdatedMember(weight: Collation, members: seq<Member>, i: nat, value: Json)
    requires WellFormed(Object(members)) && IsListed(Object(members)) && i < |members|
    requires IsAnotherForm(weight, members[i].value, value)
    ensures IsAnotherForm(weight, Object(members), Object(members[i := Member(members[i].key, value)]))
  {
    UpdatedContent(members, i, value);
    UpdatedIsListed(members, i, value);
    UpdatedValueChangesForm(weight, members, members[i := Member(members[i].key, value)], i);
  }

  /** A document in which some object has two equally weighted keys has the same content as another
      document with a different sorted form. */
  lemma {:induction false} TiesHaveAnotherForm(weight: Collation, json: Json) returns (other: Json)
    requires WellFormed(json) && IsListed(json) && !TellsKeysApart(weight, json)
    ensures IsAnotherForm(weight, json, other)
  {
    match json
    case Array(items) =>
      var i :| 0 <= i < |items| && !TellsKeysApart(weight, items[i]);
      var item := TiesHaveAnotherForm(weight, items[i]);
      other := Array(items[i := item]);
      UpdatedItem(weight, items, i, item);
    case Object(members) =>
      if !TellsApart(weight, members) {
        other := SwapTies(weight, members);
      } else {
        var i :| 0 <= i < |members| && !TellsKeysApart(weight, members[i].value);
        var value := TiesHaveAnotherForm(weight, members[i].value);
        other := Object(members[i := Member(members[i].key, value)]);
        UpdatedMember(weight, members, i, value);
      }
  }

  /** Exchanging two keys that are no array indices, or changing a value, keeps the listing order. */
  lemma SwappedIsListed(members: seq<Member>, i: nat, j: nat)
    requires IsListed(Object(members)) && i < j < |members|
    requires ArrayIndex(members[i].key).None? && ArrayIndex(members[j].key).None?
    ensures IsListed(Object(Swapped(members, i, j)))
  {
    var other := Swapped(members, i, j);
    forall p, q | 0 <= p < q < |other|
      ensures !ListedBefore(other[q].key, other[p].key)
    {
      assert !ListedBefore(members[q].key, members[p].key);
    }
  }

  lemma UpdatedIsListed(members: seq<Member>, i: nat, value: Json)
    requires IsListed(Object(members)) && i < |members| && IsListed(value)
    ensures IsListed(Object(members[i := Member(members[i].key, value)]))
  {
    var other := members[i := Member(members[i].key, value)];
    assert forall k | 0 <= k < |members| :: other[k].key == members[k].key;
  }

  lemma FindTie(weight: Collation, members: seq<Member>) returns (i: nat, j: nat)
    requires !TellsApart(weight, members)
    ensures i < j < |members| && ArrayIndex(members[i].key).None? && ArrayIndex(members[j].key).None?
    ensures weight(members[i].key) == weight(members[j].key)
  {
    var k, l :| 0 <= k < |members| && 0 <= l < |members| && k != l
      && ArrayIndex(members[k].key).None? && ArrayIndex(members[l].key).None?
      && weight(members[k].key) == weight(members[l].key);
    i, j := if k < l then k else l, if k < l then l else k;
  }

  lemma SwapTies(weight: Collation, members: seq<Member>) returns (other: Json)
    requires WellFormed(Object(members)) && IsListed(Object(members)) && !TellsApart(weight, members)
    ensures IsAnotherForm(weight, Object(members), other)
  {
    var i, j := FindTie(weight, members);
    SwappedContent(members, i, j);
    SwappedIsListed(members, i, j);
    other := Object(Swapped(members, i, j));
    SwappingTiesChangesSort(weight, members, i, j);
  }

  lemma SwappingTiesChangesSort(weight: Collation, members: seq<Member>, i: nat, j: nat)
    requires DistinctKeys(members) && i < j < |members|
    requires ArrayIndex(members[i].key).None? && ArrayIndex(members[j].key).None?
    requires weight(members[i].key) == weight(members[j].key)
    ensures Sort(weight, Object(Swapped(members, i, j))) != Sort(weight, Object(members))
  {
    IsSwapIsSwapped(SortValues(weight, members), SortValues(weight, Swapped(members, i, j)), i, j);
    ValuesKeepKeys(weight, members);
    SwappingTiesChangesForm(weight, SortValues(weight, members), i, j);
    SortObject(weight, members);
    SortObject(weight, Swapped(members, i, j));
  }

  /** All rearrangements of a document that JavaScript can list have the same sorted form if and only if
      the collation tells the keys of each of its objects apart. */
  lemma {:induction false} OneFormIff(weight: Collation, json: Json)
    requires WellFormed(json) && IsListed(json)
    ensures HasOneForm(weight, json) <==> TellsKeysApart(weight, json)
  {
    if TellsKeysApart(weight, json) {
      forall other: Json | WellFormed(other) && IsListed(other) && ContentOf(other) == ContentOf(json)
        ensures Sort(weight, other) == Sort(weight, json)
      {
        SameContentSameForm(weight, json, other);
      }
    } else {
      var other := TiesHaveAnotherForm(weight, json);
    }
  }

  ghost predicate HasOneForm(weight: Collation, json: Json) {
    forall other: Json | WellFormed(other) && IsListed(other) && ContentOf(other) == ContentOf(json) ::
      Sort(weight, other) == Sort(weight, json)
  }
}
