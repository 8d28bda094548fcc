/** `sortJson` gives one form per document, whatever the order of object members. */
module SortJsonProofs {
  import opened Results
  import opened Digits
  import opened Sequences
  import opened SortJson
  import opened SortedObjects
  import opened ObjectContents

  // ----- Content --------------------------------------------------------------------------------------------

  /** Sorting keeps the document well formed and keeps what it says. */
  lemma {:induction false} SortKeepsContent(weight: Collation, json: Json)
    requires WellFormed(json)
    ensures WellFormed(Sort(weight, json)) && ContentOf(Sort(weight, json)) == ContentOf(json)
  {
    match json
    case Array(items) =>
      forall i | 0 <= i < |items| { SortKeepsContent(weight, items[i]); }
      assert ContentOfItems(SortItems(weight, items)) == ContentOfItems(items);
    case Object(members) =>
      forall i | 0 <= i < |members| { SortKeepsContent(weight, members[i].value); }
      var values := SortValues(weight, members);
      SortedObject(weight, values);
      SortedObjectKeepsContent(members, values, FromMembers(Sorted(weight, values)));
    case _ =>
  }

  lemma OrderedIsListed(weight: Collation, r: seq<Member>)
    requires Ordered(weight, r)
    ensures InListingOrder(r)
  {
    forall i, j | 0 <= i < j < |r|
      ensures !ListedBefore(r[j].key, r[i].key)
    {
      assert InOrder(weight, r[i].key, r[j].key);
    }
  }

  lemma PermutedValuesListed(values: seq<Member>, r: seq<Member>)
    requires multiset(r) == multiset(values) && forall i | 0 <= i < |values| :: IsListed(values[i].value)
    ensures forall j | 0 <= j < |r| :: IsListed(r[j].value)
  {
    forall j | 0 <= j < |r|
      ensures IsListed(r[j].value)
    {
      SameMultisetSameMembers(r, values, r[j]);
    }
  }

  /** Sorting gives a document that JavaScript can list. */
  lemma {:induction false} SortIsListed(weight: Collation, json: Json)
    requires WellFormed(json)
    ensures IsListed(Sort(weight, json))
  {
    match json
    case Array(items) =>
      forall i | 0 <= i < |items| { SortIsListed(weight, items[i]); }
    case Object(members) =>
      forall i | 0 <= i < |members| { SortIsListed(weight, members[i].value); }
      var values := SortValues(weight, members);
      var r := FromMembers(Sorted(weight, values));
      ValuesKeepKeys(weight, members);
      SortedObject(weight, values);
      OrderedIsListed(weight, r);
      PermutedValuesListed(values, r);
    case _ =>
  }

  // ----- One form per content ----------------------------------------------------------------------------------

  ghost predicate SortAlike(weight: Collation, a: seq<Member>, b: seq<Member>) {
    forall i, j | 0 <= i < |a| && 0 <= j < |b| && a[i].key == b[j].key ::
      Sort(weight, a[i].value) == Sort(weight, b[j].value)
  }

  lemma SortedValueIn(weight: Collation, a: seq<Member>, b: seq<Member>, m: Member)
    requires DistinctKeys(a) && DistinctKeys(b) && ContentOfMembers(a) == ContentOfMembers(b)
    requires SortAlike(weight, a, b) && m in SortValues(weight, a)
    ensures m in SortValues(weight, b)
  {
    var i :| 0 <= i < |a| && SortValues(weight, a)[i] == m;
    ContentValue(a, i);
    ContentKeys(b, a[i].key);
    var j :| 0 <= j < |b| && b[j].key == a[i].key;
    assert SortValues(weight, b)[j] == m;
  }

  lemma SortedValuesAgree(weight: Collation, a: seq<Member>, b: seq<Member>)
    requires DistinctKeys(a) && DistinctKeys(b) && ContentOfMembers(a) == ContentOfMembers(b)
    requires SortAlike(weight, a, b)
    ensures multiset(SortValues(weight, a)) == multiset(SortValues(weight, b))
  {
    var va, vb := SortValues(weight, a), SortValues(weight, b);
    assert SortAlike(weight, b, a);
    forall m
      ensures m in va <==> m in vb
    {
      if m in va {
        SortedValueIn(weight, a, b, m);
      }
      if m in vb {
        SortedValueIn(weight, b, a, m);
      }
    }
    SameMembersSameMultiset(va, vb);
  }

  lemma TellsApartPermute(weight: Collation, a: seq<Member>, b: seq<Member>)
    requires TellsApart(weight, a) && multiset(a) == multiset(b) && DistinctKeys(a) && DistinctKeys(b)
    ensures TellsApart(weight, b)
  {
    forall i, j | 0 <= i < |b| && 0 <= j < |b| && i != j && ArrayIndex(b[i].key).None? && ArrayIndex(b[j].key).None?
      ensures weight(b[i].key) != weight(b[j].key)
    {
      assert b[i] in multiset(a) && b[j] in multiset(a);
      var k, l :| 0 <= k < |a| && 0 <= l < |a| && a[k] == b[i] && a[l] == b[j];
      assert b[i].key != b[j].key;
      assert k != l;
    }
  }

  lemma ValuesKeepKeys(weight: Collation, a: seq<Member>)
    requires DistinctKeys(a)
    ensures DistinctKeys(SortValues(weight, a))
  {
    var v := SortValues(weight, a);
    assert forall i | 0 <= i < |a| :: v[i].key == a[i].key;
  }

  lemma ValuesToldApart(weight: Collation, a: seq<Member>)
    requires TellsApart(weight, a)
    ensures TellsApart(weight, SortValues(weight, a))
  {
    var v := SortValues(weight, a);
    assert forall i | 0 <= i < |a| :: v[i].key == a[i].key;
  }

  lemma SamePermutationSameObject(weight: Collation, a: seq<Member>, b: seq<Member>)
    requires DistinctKeys(a) && DistinctKeys(b) && TellsApart(weight, a) && multiset(a) == multiset(b)
    ensures FromMembers(Sorted(weight, a)) == FromMembers(Sorted(weight, b))
  {
    var r, s := FromMembers(Sorted(weight, a)), FromMembers(Sorted(weight, b));
    SortedObject(weight, a);
    SortedObject(weight, b);
    TellsApartPermute(weight, a, r);
    OrderedIsUnique(weight, r, s);
  }

  lemma SameContentSameObject(weight: Collation, a: seq<Member>, b: seq<Member>)
    requires DistinctKeys(a) && DistinctKeys(b) && ContentOfMembers(a) == ContentOfMembers(b)
    requires SortAlike(weight, a, b) && TellsApart(weight, a)
    ensures Sort(weight, Object(a)) == Sort(weight, Object(b))
  {
    var va, vb := SortValues(weight, a), SortValues(weight, b);
    SortObject(weight, a);
    SortObject(weight, b);
    assert FromMembers(Sorted(weight, va)) == FromMembers(Sorted(weight, vb)) by {
      SortedValuesAgree(weight, a, b);
      ValuesKeepKeys(weight, a);
      ValuesToldApart(weight, a);
      ValuesKeepKeys(weight, b);
      SamePermutationSameObject(weight, va, vb);
    }
  }

  lemma {:induction false} SameContentSameForm(weight: Collation, a: Json, b: Json)
    requires WellFormed(a) && WellFormed(b) && TellsKeysApart(weight, a)
    requires ContentOf(a) == ContentOf(b)
    ensures Sort(weight, a) == Sort(weight, b)
  {
    match a
    case Array(items) =>
      assert |ContentOfItems(items)| == |ContentOfItems(b.items)|;
      forall i | 0 <= i < |items|
        ensures Sort(weight, items[i]) == Sort(weight, b.items[i])
      {
        assert ContentOfItems(items)[i] == ContentOfItems(b.items)[i];
        SameContentSameForm(weight, items[i], b.items[i]);
      }
      assert SortItems(weight, items) == SortItems(weight, b.items);
    case Object(members) =>
      ContentAt(members);
      ContentAt(b.members);
      forall i, j | 0 <= i < |members| && 0 <= j < |b.members| && members[i].key == b.members[j].key
        ensures Sort(weight, members[i].value) == Sort(weight, b.members[j].value)
      {
        SameContentSameForm(weight, members[i].value, b.members[j].value);
      }
      SameContentSameObject(weight, members, b.members);
    case _ =>
  }

  /** Two documents are brought into the same form if and only if they are equal up to the order of
      object members, provided the collation tells the keys of each object apart. */
  lemma {:induction false} CanonicalForm(weight: Collation, a: Json, b: Json)
    requires WellFormed(a) && WellFormed(b) && TellsKeysApart(weight, a)
    ensures Sort(weight, a) == Sort(weight, b) <==> ContentOf(a) == ContentOf(b)
  {
    SortKeepsContent(weight, a);
    SortKeepsContent(weight, b);
    if ContentOf(a) == ContentOf(b) {
      SameContentSameForm(weight, a, b);
    }
  }

  // ----- When keys ascend ------------------------------------------------------------------------------------------

  ghost predicate StrictlyAscending(weight: Collation, members: seq<Member>) {
    forall i, j | 0 <= i < j < |members| :: weight(members[i].key) < weight(members[j].key)
  }

  ghost predicate AscendsEverywhere(weight: Collation, json: Json) {
    match json
    case Array(items) => forall i | 0 <= i < |items| :: AscendsEverywhere(weight, items[i])
    case Object(members) =>
      StrictlyAscending(weight, members) && forall i | 0 <= i < |members| :: AscendsEverywhere(weight, members[i].value)
    case _ => true
  }

  /** The collation tells two keys apart and does not contradict the listing of array indices. */
  ghost predicate KeysAgree(weight: Collation, k: string, l: string) {
    && (ListedBefore(k, l) ==> weight(k) < weight(l))
    && (ArrayIndex(k).None? && ArrayIndex(l).None? ==> weight(k) != weight(l))
  }

  ghost predicate CollationAgrees(weight: Collation, members: seq<Member>) {
    forall m, n | m in members && n in members && m.key != n.key :: KeysAgree(weight, m.key, n.key)
  }

  ghost predicate AgreesEverywhere(weight: Collation, json: Json) {
    match json
    case Array(items) => forall i | 0 <= i < |items| :: AgreesEverywhere(weight, items[i])
    case Object(members) =>
      CollationAgrees(weight, members) && forall i | 0 <= i < |members| :: AgreesEverywhere(weight, members[i].value)
    case _ => true
  }

  lemma PairAscends(weight: Collation, k: string, l: string)
    requires InOrder(weight, k, l) && KeysAgree(weight, k, l)
    ensures weight(k) < weight(l)
  {
  }

  lemma PairAgrees(weight: Collation, k: string, l: string)
    requires InOrder(weight, k, l) && weight(k) < weight(l)
    ensures KeysAgree(weight, k, l) && KeysAgree(weight, l, k)
  {
  }

  lemma ObjectAscendsIff(weight: Collation, r: seq<Member>)
    requires Ordered(weight, r) && DistinctKeys(r)
    ensures StrictlyAscending(weight, r) <==> CollationAgrees(weight, r)
  {
    if CollationAgrees(weight, r) {
      forall i, j | 0 <= i < j < |r|
        ensures weight(r[i].key) < weight(r[j].key)
      {
        assert r[i] in r && r[j] in r;
        PairAscends(weight, r[i].key, r[j].key);
      }
    }
    if StrictlyAscending(weight, r) {
      forall m, n | m in r && n in r && m.key != n.key
        ensures KeysAgree(weight, m.key, n.key)
      {
        var i :| 0 <= i < |r| && r[i] == m;
        var j :| 0 <= j < |r| && r[j] == n;
        if i < j {
          PairAgrees(weight, m.key, n.key);
        } else {
          PairAgrees(weight, n.key, m.key);
        }
      }
    }
  }

  lemma AgreementOfKeys(weight: Collation, a: seq<Member>, b: seq<Member>)
    requires forall m | m in b :: HasKey(a, m.key)
    requires CollationAgrees(weight, a)
    ensures CollationAgrees(weight, b)
  {
    forall m, n | m in b && n in b && m.key != n.key
      ensures KeysAgree(weight, m.key, n.key)
    {
      var i :| 0 <= i < |a| && a[i].key == m.key;
      var j :| 0 <= j < |a| && a[j].key == n.key;
      assert a[i] in a && a[j] in a;
    }
  }

  lemma PermutedKeys(members: seq<Member>, values: seq<Member>, r: seq<Member>)
    requires |values| == |members| && multiset(r) == multiset(values)
    requires forall i | 0 <= i < |members| :: values[i].key == members[i].key
    ensures (forall m | m in r :: HasKey(members, m.key)) && (forall m | m in members :: HasKey(r, m.key))
  {
    forall m | m in r
      ensures HasKey(members, m.key)
    {
      SameMultisetSameMembers(r, values, m);
      var i :| 0 <= i < |values| && values[i] == m;
      assert members[i].key == m.key;
    }
    forall m | m in members
      ensures HasKey(r, m.key)
    {
      var i :| 0 <= i < |members| && members[i] == m;
      SameMultisetSameMembers(r, values, values[i]);
      var j :| 0 <= j < |r| && r[j] == values[i];
    }
  }

  lemma SortedObjectKeys(weight: Collation, members: seq<Member>)
    requires DistinctKeys(members)
    ensures
      var values := SortValues(weight, members);
      var r := FromMembers(Sorted(weight, values));
      && Ordered(weight, r) && DistinctKeys(r)
      && (forall m | m in r :: HasKey(members, m.key)) && (forall m | m in members :: HasKey(r, m.key))
      && (forall m :: m in r <==> m in values)
  {
    var values := SortValues(weight, members);
    var r := FromMembers(Sorted(weight, values));
    ValuesKeepKeys(weight, members);
    SortedObject(weight, values);
    forall m { SameMultisetSameMembers(r, values, m); }
    PermutedKeys(members, values, r);
  }

  lemma ObjectKeysAscendIff(weight: Collation, members: seq<Member>, r: seq<Member>)
    requires Ordered(weight, r) && DistinctKeys(r)
    requires (forall m | m in r :: HasKey(members, m.key)) && (forall m | m in members :: HasKey(r, m.key))
    ensures StrictlyAscending(weight, r) <==> CollationAgrees(weight, members)
  {
    ObjectAscendsIff(weight, r);
    if CollationAgrees(weight, members) {
      AgreementOfKeys(weight, members, r);
    }
    if CollationAgrees(weight, r) {
      AgreementOfKeys(weight, r, members);
    }
  }

  lemma ObjectValuesAscendIff(weight: Collation, members: seq<Member>, values: seq<Member>, r: seq<Member>)
    requires |values| == |members| && forall m :: m in r <==> m in values
    requires forall i | 0 <= i < |members| ::
      AscendsEverywhere(weight, values[i].value) <==> AgreesEverywhere(weight, members[i].value)
    ensures (forall j | 0 <= j < |r| :: AscendsEverywhere(weight, r[j].value))
       <==> (forall i | 0 <= i < |members| :: AgreesEverywhere(weight, members[i].value))
  {
    forall i | 0 <= i < |members|
      ensures exists j | 0 <= j < |r| :: r[j] == values[i]
    {
      assert values[i] in r;
    }
    forall j | 0 <= j < |r|
      ensures exists i | 0 <= i < |members| :: values[i] == r[j]
    {
      assert r[j] in values;
    }
  }

  lemma SortObject(weight: Collation, members: seq<Member>)
    ensures Sort(weight, Object(members)) == Object(FromMembers(Sorted(weight, SortValues(weight, members))))
  {
  }

  lemma ObjectFormAscendsIff(weight: Collation, members: seq<Member>, values: seq<Member>, r: seq<Member>)
    requires Ordered(weight, r) && DistinctKeys(r)
    requires (forall m | m in r :: HasKey(members, m.key)) && (forall m | m in members :: HasKey(r, m.key))
    requires |values| == |members| && forall m :: m in r <==> m in values
    requires forall i | 0 <= i < |members| ::
      AscendsEverywhere(weight, values[i].value) <==> AgreesEverywhere(weight, members[i].value)
    ensures AscendsEverywhere(weight, Object(r)) <==> AgreesEverywhere(weight, Object(members))
  {
    ObjectKeysAscendIff(weight, members, r);
    ObjectValuesAscendIff(weight, members, values, r);
  }

  /** The keys of the result ascend strictly at every level if and only if, in every object of the
      document, the collation tells the keys apart and puts array indices first and by number. */
  lemma {:induction false} AscendsIff(weight: Collation, json: Json)
    requires WellFormed(json)
    ensures AscendsEverywhere(weight, Sort(weight, json)) <==> AgreesEverywhere(weight, json)
  {
    match json
    case Array(items) =>
      forall i | 0 <= i < |items| { AscendsIff(weight, items[i]); }
    case Object(members) =>
      forall i | 0 <= i < |members| { AscendsIff(weight, members[i].value); }
      SortObject(weight, members);
      SortedObjectKeys(weight, members);
      var values := SortValues(weight, members);
      ObjectFormAscendsIff(weight, members, values, FromMembers(Sorted(weight, values)));
    case _ =>
  }

  lemma NumericKeys()
    ensures ArrayIndex("9") == Some(9) && ArrayIndex("10") == Some(10)
  {
    assert "9"[..0] == "" && "10"[..1] == "1" && "1"[..0] == "";
    assert ParseNat("") == 0;
    assert ParseNat("9") == 9 && PrintNat(9) == "9";
    assert ParseNat("1") == 1 && PrintNat(1) == "1";
    assert ParseNat("10") == 10 && PrintNat(10) == "1" + "0";
  }

  /** A collation that compares character by character puts "10" before "9"; the object lists 9 first. */
  lemma NumericKeysDoNotAscend(weight: Collation, v: Json, w: Json)
    requires WellFormed(v) && WellFormed(w) && weight("10") < weight("9")
    ensures
      var json := Object([Member("9", v), Member("10", w)]);
      WellFormed(json) && !AscendsEverywhere(weight, Sort(weight, json))
  {
    var members := [Member("9", v), Member("10", w)];
    NumericKeys();
    assert members[0] in members && members[1] in members;
    assert !KeysAgree(weight, members[0].key, members[1].key);
    AscendsIff(weight, Object(members));
  }
}
