/** `sortJson` of the Cosmos Hub codec (packages/iov-cosmoshub/src/cosmoshubcodec.ts), which brings
    sign documents into one form before they are serialised and signed.

    `localeCompare` is a total preorder on strings. Strings are countable, so such a preorder is
    the order of real weights: `weight(a) < weight(b)` stands for `a.localeCompare(b) < 0`. All
    statements hold for every choice of weights. */
module SortJson {
  import opened Results
  import opened Digits

  datatype Member = Member(key: string, value: Json)

  /** A document. The members of an object are listed in the order of `Object.keys`. */
  datatype Json =
    | Undefined
    | Null
    | Bool(flag: bool)
    | Number(number: real)
    | String(text: string)
    | Array(items: seq<Json>)
    | Object(members: seq<Member>)

  type Collation = string -> real

  // ----- JavaScript objects --------------------------------------------------------------------------

  const MAX_ARRAY_LENGTH: nat := 0xFFFF_FFFF

  /** Keys such as "0" or "42" are array indices; an object lists them first, by number. */
  function ArrayIndex(key: string): Option<nat> {
    if key != "" && AllDigits(key) && PrintNat(ParseNat(key)) == key && ParseNat(key) < MAX_ARRAY_LENGTH
    then Some(ParseNat(key)) else None
  }

  predicate ListedBefore(k: string, l: string) {
    var i, j := ArrayIndex(k), ArrayIndex(l);
    i.Some? && (j.None? || i.value < j.value)
  }

  /** `{...object, [key]: value}`. */
  function WithMember(members: seq<Member>, m: Member): seq<Member> {
    if members == [] then [m]
    else if members[0].key == m.key then [m] + members[1..]
    else if ListedBefore(m.key, members[0].key) then [m] + members
    else [members[0]] + WithMember(members[1..], m)
  }

  function FromMembers(members: seq<Member>): seq<Member> {
    if members == [] then []
    else WithMember(FromMembers(members[..|members| - 1]), members[|members| - 1])
  }

  /** An array index is the decimal text of a number below 2^32 - 1, without leading zeros. */
  lemma ArrayIndexIff(key: string, n: nat)
    ensures ArrayIndex(key) == Some(n) <==> key == PrintNat(n) && n < 4294967295
  {
    ParsePrint(n);
  }

  /** A key that an object has already keeps its place and gets the new value. */
  lemma {:induction false} WithMemberReplaces(members: seq<Member>, m: Member, i: nat)
    requires i < |members| && members[i].key == m.key
    requires forall j | 0 <= j < i :: members[j].key != m.key && !ListedBefore(m.key, members[j].key)
    ensures WithMember(members, m) == members[i := m]
  {
    if i > 0 {
      WithMemberReplaces(members[1..], m, i - 1);
      assert members == [members[0]] + members[1..];
    }
  }

  // ----- Sorting ---------------------------------------------------------------------------------------

  /** `Array.prototype.sort`: members with equal weights keep their order. */
  function Placed(weight: Collation, sorted: seq<Member>, m: Member): seq<Member> {
    if sorted == [] || weight(sorted[|sorted| - 1].key) <= weight(m.key) then sorted + [m]
    else Placed(weight, sorted[..|sorted| - 1], m) + [sorted[|sorted| - 1]]
  }

  function Sorted(weight: Collation, members: seq<Member>): seq<Member> {
    if members == [] then []
    else Placed(weight, Sorted(weight, members[..|members| - 1]), members[|members| - 1])
  }

  function Sort(weight: Collation, json: Json): Json
    decreases json, 0
  {
    match json
    case Array(items) => Array(SortItems(weight, items))
    case Object(members) => Object(FromMembers(Sorted(weight, SortValues(weight, members))))
    case _ => json
  }

  function SortItems(weight: Collation, items: seq<Json>): (r: seq<Json>)
    ensures |r| == |items|
    ensures forall i | 0 <= i < |r| :: r[i] == Sort(weight, items[i])
    decreases items, 1
  {
    if items == [] then []
    else SortItems(weight, items[..|items| - 1]) + [Sort(weight, items[|items| - 1])]
  }

  function SortValues(weight: Collation, members: seq<Member>): (r: seq<Member>)
    ensures |r| == |members|
    ensures forall i | 0 <= i < |r| :: r[i] == Member(members[i].key, Sort(weight, members[i].value))
    decreases members, 1
  {
    if members == [] then []
    else
      var last := members[|members| - 1];
      SortValues(weight, members[..|members| - 1]) + [Member(last.key, Sort(weight, last.value))]
  }

  // ----- What a document says --------------------------------------------------------------------------

  /** A document with objects as maps: the order of members is gone. */
  datatype Content =
    | Leaf(json: Json)
    | List(contents: seq<Content>)
    | Dictionary(entries: map<string, Content>)

  ghost function ContentOf(json: Json): Content
    decreases json, 0
  {
    match json
    case Array(items) => List(ContentOfItems(items))
    case Object(members) => Dictionary(ContentOfMembers(members))
    case _ => Leaf(json)
  }

  ghost function ContentOfItems(items: seq<Json>): (r: seq<Content>)
    ensures |r| == |items|
    ensures forall i | 0 <= i < |r| :: r[i] == ContentOf(items[i])
    decreases items, 1
  {
    if items == [] then []
    else ContentOfItems(items[..|items| - 1]) + [ContentOf(items[|items| - 1])]
  }

  ghost function ContentOfMembers(members: seq<Member>): map<string, Content>
    decreases members, 1
  {
    if members == [] then map[]
    else
      var last := members[|members| - 1];
      ContentOfMembers(members[..|members| - 1])[last.key := ContentOf(last.value)]
  }

  ghost predicate DistinctKeys(members: seq<Member>) {
    forall i, j | 0 <= i < j < |members| :: members[i].key != members[j].key
  }

  ghost predicate WellFormed(json: Json) {
    match json
    case Array(items) => forall i | 0 <= i < |items| :: WellFormed(items[i])
    case Object(members) => DistinctKeys(members) && forall i | 0 <= i < |members| :: WellFormed(members[i].value)
    case _ => true
  }

  /** Array indices are listed first and by number. */
  ghost predicate InListingOrder(members: seq<Member>) {
    forall i, j | 0 <= i < j < |members| :: !ListedBefore(members[j].key, members[i].key)
  }

  /** A document as JavaScript lists it: at every level array indices come first. */
  ghost predicate IsListed(json: Json) {
    match json
    case Array(items) => forall i | 0 <= i < |items| :: IsListed(items[i])
    case Object(members) => InListingOrder(members) && forall i | 0 <= i < |members| :: IsListed(members[i].value)
    case _ => true
  }

  /** The collation tells any two keys of an object apart, other than array indices. */
  ghost predicate TellsApart(weight: Collation, members: seq<Member>) {
    forall i, j | 0 <= i < |members| && 0 <= j < |members| && i != j
      && ArrayIndex(members[i].key).None? && ArrayIndex(members[j].key).None? ::
      weight(members[i].key) != weight(members[j].key)
  }

  ghost predicate TellsKeysApart(weight: Collation, json: Json) {
    match json
    case Array(items) => forall i | 0 <= i < |items| :: TellsKeysApart(weight, items[i])
    case Object(members) => TellsApart(weight, members) && forall i | 0 <= i < |members| ::
      TellsKeysApart(weight, members[i].value)
    case _ => true
  }
}

/** The members of one object: sorted by weight, then listed with array indices first. */
module SortedObjects {
  import opened Sequences
  import opened SortJson

  ghost predicate Ascending(weight: Collation, members: seq<Member>) {
    forall i, j | 0 <= i < j < |members| :: weight(members[i].key) <= weight(members[j].key)
  }

  lemma {:induction false} PlacedContents(weight: Collation, sorted: seq<Member>, m: Member)
    ensures multiset(Placed(weight, sorted, m)) == multiset(sorted) + multiset{m}
  {
    if sorted != [] && weight(sorted[|sorted| - 1].key) > weight(m.key) {
      var before, last := sorted[..|sorted| - 1], sorted[|sorted| - 1];
      assert sorted == before + [last];
      PlacedContents(weight, before, m);
    }
  }

  lemma AscendingAppend(weight: Collation, s: seq<Member>, last: Member)
    requires Ascending(weight, s) && forall x | x in s :: weight(x.key) <= weight(last.key)
    ensures Ascending(weight, s + [last])
  {
    var r := s + [last];
    forall i, j | 0 <= i < j < |r|
      ensures weight(r[i].key) <= weight(r[j].key)
    {
      assert r[i] == s[i] && s[i] in s;
    }
  }

  lemma AscendingFront(weight: Collation, s: seq<Member>, last: Member)
    requires Ascending(weight, s + [last])
    ensures Ascending(weight, s) && forall x | x in s :: weight(x.key) <= weight(last.key)
  {
    var r := s + [last];
    assert forall i | 0 <= i < |s| :: s[i] == r[i];
    forall x | x in s
      ensures weight(x.key) <= weight(last.key)
    {
      var i :| 0 <= i < |s| && s[i] == x;
      assert weight(r[i].key) <= weight(r[|s|].key);
    }
  }

  lemma {:induction false} PlacedAscends(weight: Collation, sorted: seq<Member>, m: Member)
    requires Ascending(weight, sorted)
    ensures Ascending(weight, Placed(weight, sorted, m))
  {
    if sorted != [] {
      var before, last := sorted[..|sorted| - 1], sorted[|sorted| - 1];
      assert sorted == before + [last];
      AscendingFront(weight, before, last);
      if weight(last.key) > weight(m.key) {
        PlacedAscends(weight, before, m);
        PlacedBelow(weight, before, m, last);
        AscendingAppend(weight, Placed(weight, before, m), last);
      } else {
        AscendingAppend(weight, sorted, m);
      }
    }
  }

  lemma PlacedBelow(weight: Collation, sorted: seq<Member>, m: Member, last: Member)
    requires weight(m.key) <= weight(last.key) && forall x | x in sorted :: weight(x.key) <= weight(last.key)
    ensures forall x | x in Placed(weight, sorted, m) :: weight(x.key) <= weight(last.key)
  {
    PlacedContents(weight, sorted, m);
    forall x | x in Placed(weight, sorted, m)
      ensures weight(x.key) <= weight(last.key)
    {
      assert x in multiset(Placed(weight, sorted, m));
      assert x in sorted || x == m;
    }
  }

  lemma {:induction false} SortedIsSorted(weight: Collation, members: seq<Member>)
    ensures Ascending(weight, Sorted(weight, members))
    ensures multiset(Sorted(weight, members)) == multiset(members)
  {
    if members != [] {
      var before, last := members[..|members| - 1], members[|members| - 1];
      assert members == before + [last];
      SortedIsSorted(weight, before);
      PlacedContents(weight, Sorted(weight, before), last);
      PlacedAscends(weight, Sorted(weight, before), last);
    }
  }

  /** Array indices by number, then the other keys by weight. */
  ghost predicate InOrder(weight: Collation, k: string, l: string) {
    ListedBefore(k, l) || (ArrayIndex(k).None? && ArrayIndex(l).None? && weight(k) <= weight(l))
  }

  ghost predicate Ordered(weight: Collation, members: seq<Member>) {
    forall i, j | 0 <= i < j < |members| :: InOrder(weight, members[i].key, members[j].key)
  }

  lemma IndexIsInjective(k: string, l: string)
    requires ArrayIndex(k).Some? && ArrayIndex(k) == ArrayIndex(l)
    ensures k == l
  {
  }

  lemma ListedBeforeThenInOrder(weight: Collation, k: string, l: string, m: string)
    requires ListedBefore(k, l) && InOrder(weight, l, m)
    ensures InOrder(weight, k, m)
  {
  }

  lemma NotListedBefore(weight: Collation, k: string, l: string)
    requires k != l && !ListedBefore(l, k)
    requires ArrayIndex(k).None? && ArrayIndex(l).None? ==> weight(k) <= weight(l)
    ensures InOrder(weight, k, l)
  {
    if ArrayIndex(k).Some? && ArrayIndex(k) == ArrayIndex(l) {
      IndexIsInjective(k, l);
    }
  }

  lemma {:induction false} WithMemberContents(members: seq<Member>, m: Member)
    requires forall i | 0 <= i < |members| :: members[i].key != m.key
    ensures multiset(WithMember(members, m)) == multiset(members) + multiset{m}
  {
    if members != [] {
      assert members == [members[0]] + members[1..];
      if !ListedBefore(m.key, members[0].key) {
        WithMemberContents(members[1..], m);
      }
    }
  }

  ghost predicate BelowOthers(weight: Collation, members: seq<Member>, key: string) {
    forall i | 0 <= i < |members| && ArrayIndex(members[i].key).None? && ArrayIndex(key).None? ::
      weight(members[i].key) <= weight(key)
  }

  lemma OrderedTail(weight: Collation, first: Member, rest: seq<Member>)
    requires Ordered(weight, [first] + rest)
    ensures Ordered(weight, rest)
    ensures forall m | m in rest :: InOrder(weight, first.key, m.key)
  {
    var r := [first] + rest;
    forall i, j | 0 <= i < j < |rest|
      ensures InOrder(weight, rest[i].key, rest[j].key)
    {
      assert InOrder(weight, r[i + 1].key, r[j + 1].key);
    }
    forall m | m in rest
      ensures InOrder(weight, first.key, m.key)
    {
      var i :| 0 <= i < |rest| && rest[i] == m;
      assert InOrder(weight, r[0].key, r[i + 1].key);
    }
  }

  lemma PrependOrdered(weight: Collation, first: Member, rest: seq<Member>)
    requires Ordered(weight, rest)
    requires forall m | m in rest :: InOrder(weight, first.key, m.key)
    ensures Ordered(weight, [first] + rest)
  {
    var r := [first] + rest;
    forall i, j | 0 <= i < j < |r|
      ensures InOrder(weight, r[i].key, r[j].key)
    {
      assert r[j] == rest[j - 1];
      if i > 0 {
        assert r[i] == rest[i - 1];
      } else {
        assert rest[j - 1] in rest;
      }
    }
  }

  lemma {:induction false} WithMemberIsOrdered(weight: Collation, members: seq<Member>, m: Member)
    requires Ordered(weight, members) && BelowOthers(weight, members, m.key)
    requires forall i | 0 <= i < |members| :: members[i].key != m.key
    ensures Ordered(weight, WithMember(members, m))
  {
    if members != [] {
      var first, rest := members[0], members[1..];
      assert members == [first] + rest;
      OrderedTail(weight, first, rest);
      if ListedBefore(m.key, first.key) {
        forall x | x in members
          ensures InOrder(weight, m.key, x.key)
        {
          if x in rest {
            ListedBeforeThenInOrder(weight, m.key, first.key, x.key);
          }
        }
        PrependOrdered(weight, m, members);
      } else {
        assert BelowOthers(weight, rest, m.key) by {
          assert forall i | 0 <= i < |rest| :: rest[i] == members[i + 1];
        }
        WithMemberIsOrdered(weight, rest, m);
        WithMemberContents(rest, m);
        NotListedBefore(weight, first.key, m.key);
        var r := WithMember(rest, m);
        forall x | x in r
          ensures InOrder(weight, first.key, x.key)
        {
          assert x in multiset(r);
          assert x in rest || x == m;
        }
        PrependOrdered(weight, first, r);
      }
    }
  }

  lemma DistinctKeysPermute(a: seq<Member>, b: seq<Member>)
    requires DistinctKeys(a) && multiset(a) == multiset(b)
    ensures DistinctKeys(b)
  {
    forall i, j | 0 <= i < j < |b|
      ensures b[i].key != b[j].key
    {
      assert b == b[..i] + [b[i]] + b[i + 1..j] + [b[j]] + b[j + 1..];
      assert b[i] in multiset(a) && b[j] in multiset(a);
      var k, l :| 0 <= k < |a| && 0 <= l < |a| && a[k] == b[i] && a[l] == b[j];
      if b[i] == b[j] {
        assert multiset(b)[b[i]] >= 2;
        MultiplicityOfDistinct(a, b[i]);
      }
      assert k != l;
    }
  }

  lemma {:induction false} FromMembersIsOrdered(weight: Collation, members: seq<Member>)
    requires Ascending(weight, members) && DistinctKeys(members)
    ensures Ordered(weight, FromMembers(members))
    ensures multiset(FromMembers(members)) == multiset(members)
  {
    if members != [] {
      var before, last := members[..|members| - 1], members[|members| - 1];
      assert members == before + [last];
      FromMembersIsOrdered(weight, before);
      var object_ := FromMembers(before);
      forall i | 0 <= i < |object_|
        ensures object_[i].key != last.key && weight(object_[i].key) <= weight(last.key)
      {
        assert object_[i] in multiset(before);
      }
      WithMemberContents(object_, last);
      WithMemberIsOrdered(weight, object_, last);
    }
  }

  /** The object built from sorted keys has the same members, array indices first. */
  lemma SortedObject(weight: Collation, members: seq<Member>)
    requires DistinctKeys(members)
    ensures
      var r := FromMembers(Sorted(weight, members));
      Ordered(weight, r) && DistinctKeys(r) && multiset(r) == multiset(members)
  {
    SortedIsSorted(weight, members);
    DistinctKeysPermute(members, Sorted(weight, members));
    FromMembersIsOrdered(weight, Sorted(weight, members));
    DistinctKeysPermute(members, FromMembers(Sorted(weight, members)));
  }

  lemma OrderIsAntisymmetric(weight: Collation, k: string, l: string)
    requires InOrder(weight, k, l) && InOrder(weight, l, k)
    ensures ArrayIndex(k).None? && ArrayIndex(l).None? && weight(k) == weight(l)
  {
  }

  lemma FirstIsUnique(weight: Collation, a: seq<Member>, b: seq<Member>)
    requires Ordered(weight, a) && Ordered(weight, b) && multiset(a) == multiset(b) && a != [] && b != []
    requires TellsApart(weight, a)
    ensures a[0] == b[0]
  {
    if a[0] != b[0] {
      assert a[0] in multiset(b) && b[0] in multiset(a);
      var i :| 0 <= i < |b| && b[i] == a[0];
      var j :| 0 <= j < |a| && a[j] == b[0];
      assert InOrder(weight, b[0].key, b[i].key) && InOrder(weight, a[0].key, a[j].key);
      OrderIsAntisymmetric(weight, a[0].key, a[j].key);
    }
  }

  lemma TailsPermute<T>(a: seq<T>, b: seq<T>)
    requires multiset(a) == multiset(b) && a != [] && b != [] && a[0] == b[0]
    ensures multiset(a[1..]) == multiset(b[1..])
  {
    assert a == [a[0]] + a[1..] && b == [b[0]] + b[1..];
    assert multiset(a[1..]) == multiset(a) - multiset{a[0]};
    assert multiset(b[1..]) == multiset(b) - multiset{b[0]};
  }

  /** Only one arrangement of given members is in order. */
  lemma {:induction false} OrderedIsUnique(weight: Collation, a: seq<Member>, b: seq<Member>)
    requires Ordered(weight, a) && Ordered(weight, b) && multiset(a) == multiset(b)
    requires TellsApart(weight, a)
    ensures a == b
  {
    assert |a| == |multiset(a)| == |multiset(b)| == |b|;
    if a != [] {
      FirstIsUnique(weight, a, b);
      TailsPermute(a, b);
      assert a == [a[0]] + a[1..] && b == [b[0]] + b[1..];
      OrderedTail(weight, a[0], a[1..]);
      OrderedTail(weight, b[0], b[1..]);
      OrderedIsUnique(weight, a[1..], b[1..]);
    }
  }
}

/** What an object says does not depend on the order of its members. */
module ObjectContents {
  import opened Sequences
  import opened SortJson

  ghost predicate HasKey(members: seq<Member>, key: string) {
    exists i | 0 <= i < |members| :: members[i].key == key
  }

  lemma HasKeyAppend(before: seq<Member>, last: Member, key: string)
    ensures HasKey(before + [last], key) <==> HasKey(before, key) || key == last.key
  {
    var members := before + [last];
    assert members[|before|] == last;
    if HasKey(before, key) {
      var i :| 0 <= i < |before| && before[i].key == key;
      assert members[i].key == key;
    }
    if HasKey(members, key) && key != last.key {
      var i :| 0 <= i < |members| && members[i].key == key;
      assert before[i].key == key;
    }
  }

  lemma {:induction false} ContentKeys(members: seq<Member>, key: string)
    ensures key in ContentOfMembers(members) <==> HasKey(members, key)
  {
    if members != [] {
      var n := |members| - 1;
      ContentKeys(members[..n], key);
      HasKeyAppend(members[..n], members[n], key);
      assert members == members[..n] + [members[n]];
    }
  }

  lemma {:induction false} ContentValue(members: seq<Member>, i: nat)
    requires DistinctKeys(members) && i < |members|
    ensures members[i].key in ContentOfMembers(members)
    ensures ContentOfMembers(members)[members[i].key] == ContentOf(members[i].value)
  {
    var n := |members| - 1;
    if i < n {
      ContentValue(members[..n], i);
    }
  }

  lemma ContentAt(members: seq<Member>)
    requires DistinctKeys(members)
    ensures forall k :: k in ContentOfMembers(members) <==> HasKey(members, k)
    ensures forall i | 0 <= i < |members| ::
      var content := ContentOfMembers(members);
      members[i].key in content && content[members[i].key] == ContentOf(members[i].value)
  {
    forall k { ContentKeys(members, k); }
    forall i | 0 <= i < |members| { ContentValue(members, i); }
  }

  ghost predicate Says(members: seq<Member>, m: Member) {
    exists i | 0 <= i < |members| :: members[i].key == m.key && ContentOf(members[i].value) == ContentOf(m.value)
  }

  /** Every member of `a` is in `b`, with the same content. */
  ghost predicate Includes(b: seq<Member>, a: seq<Member>) {
    forall i | 0 <= i < |a| :: Says(b, a[i])
  }

  lemma ContentIncluded(a: seq<Member>, b: seq<Member>, key: string)
    requires DistinctKeys(a) && DistinctKeys(b) && Includes(b, a)
    requires key in ContentOfMembers(a)
    ensures key in ContentOfMembers(b) && ContentOfMembers(b)[key] == ContentOfMembers(a)[key]
  {
    ContentKeys(a, key);
    var i :| 0 <= i < |a| && a[i].key == key;
    assert Says(b, a[i]);
    var j :| 0 <= j < |b| && b[j].key == a[i].key && ContentOf(b[j].value) == ContentOf(a[i].value);
    ContentValue(a, i);
    ContentValue(b, j);
  }

  /** Objects with the same members, in any order, have the same content. */
  lemma SameMembersSameContent(a: seq<Member>, b: seq<Member>)
    requires DistinctKeys(a) && DistinctKeys(b) && Includes(b, a) && Includes(a, b)
    ensures ContentOfMembers(a) == ContentOfMembers(b)
  {
    var ca, cb := ContentOfMembers(a), ContentOfMembers(b);
    forall k
      ensures k in ca <==> k in cb
      ensures k in ca && k in cb ==> ca[k] == cb[k]
    {
      if k in ca {
        ContentIncluded(a, b, k);
      }
      if k in cb {
        ContentIncluded(b, a, k);
      }
    }
  }

  lemma PermutedIncludes(members: seq<Member>, values: seq<Member>, r: seq<Member>)
    requires |values| == |members| && multiset(r) == multiset(values)
    requires forall i | 0 <= i < |members| ::
      values[i].key == members[i].key && ContentOf(values[i].value) == ContentOf(members[i].value)
    ensures Includes(r, members) && Includes(members, r)
  {
    forall j | 0 <= j < |r|
      ensures Says(members, r[j])
    {
      SameMultisetSameMembers(r, values, r[j]);
      var i :| 0 <= i < |values| && values[i] == r[j];
      assert members[i].key == r[j].key;
    }
    forall i | 0 <= i < |members|
      ensures Says(r, members[i])
    {
      SameMultisetSameMembers(r, values, values[i]);
      var j :| 0 <= j < |r| && r[j] == values[i];
    }
  }

  lemma PermutedWellFormed(values: seq<Member>, r: seq<Member>)
    requires DistinctKeys(r) && multiset(r) == multiset(values)
    requires forall i | 0 <= i < |values| :: WellFormed(values[i].value)
    ensures WellFormed(Object(r))
  {
    forall j | 0 <= j < |r|
      ensures WellFormed(r[j].value)
    {
      SameMultisetSameMembers(r, values, r[j]);
    }
  }

  lemma SortedObjectKeepsContent(members: seq<Member>, values: seq<Member>, r: seq<Member>)
    requires DistinctKeys(members) && DistinctKeys(r) && |values| == |members| && multiset(r) == multiset(values)
    requires forall i | 0 <= i < |members| ::
      && values[i].key == members[i].key
      && WellFormed(values[i].value) && ContentOf(values[i].value) == ContentOf(members[i].value)
    ensures WellFormed(Object(r)) && ContentOf(Object(r)) == ContentOf(Object(members))
  {
    PermutedWellFormed(values, r);
    PermutedIncludes(members, values, r);
    SameMembersSameContent(members, r);
  }
}
