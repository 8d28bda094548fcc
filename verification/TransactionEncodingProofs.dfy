/** Decoding undoes encoding, and what is encoded is JSON. */
module TransactionEncodingProofs {
  import opened Results
  import opened Hex
  import opened TransactionEncoding

  // ----- Values ---------------------------------------------------------------------------------------

  ghost function Keys(entries: seq<Entry>): set<string> {
    set i | 0 <= i < |entries| :: entries[i].key
  }

  ghost predicate DistinctKeys(entries: seq<Entry>) {
    forall i, j | 0 <= i < j < |entries| :: entries[i].key != entries[j].key
  }

  /** An object has at most one entry per key, at every level. */
  ghost predicate WellFormed(v: JsValue) {
    match v
    case Array(items) => forall i | 0 <= i < |items| :: WellFormed(items[i])
    case Object(entries) => DistinctKeys(entries) && forall i | 0 <= i < |entries| :: WellFormed(entries[i].value)
    case _ => true
  }

  /** Made of the supported types; only object entries may be undefined. */
  ghost predicate Encodable(v: JsValue) {
    match v
    case Undefined => false
    case Other => false
    case Array(items) => forall i | 0 <= i < |items| :: Encodable(items[i])
    case Object(entries) => forall i | 0 <= i < |entries| :: entries[i].value.Undefined? || Encodable(entries[i].value)
    case _ => true
  }

  /** `isJsonCompatibleValue` of packages/iov-encoding/src/json.ts. */
  ghost predicate IsJsonCompatibleValue(v: JsValue) {
    match v
    case String(_) => true
    case Number(_) => true
    case Bool(_) => true
    case Null => true
    case Array(items) => forall i | 0 <= i < |items| :: IsJsonCompatibleValue(items[i])
    case Object(entries) => forall i | 0 <= i < |entries| :: IsJsonCompatibleValue(entries[i].value)
    case _ => false
  }

  /** The value without undefined entries and, on demand, without entries at the prototype key. */
  ghost function Clean(v: JsValue, dropPrototype: bool): JsValue
    decreases v, 0
  {
    match v
    case Array(items) => Array(CleanItems(items, dropPrototype))
    case Object(entries) => Object(CleanEntries(entries, dropPrototype))
    case _ => v
  }

  ghost function CleanItems(items: seq<JsValue>, dropPrototype: bool): seq<JsValue>
    decreases items, 1
  {
    if items == [] then []
    else CleanItems(items[..|items| - 1], dropPrototype) + [Clean(items[|items| - 1], dropPrototype)]
  }

  ghost predicate Kept(e: Entry, dropPrototype: bool) {
    !e.value.Undefined? && !(dropPrototype && e.key == "__proto__")
  }

  ghost function CleanEntries(entries: seq<Entry>, dropPrototype: bool): seq<Entry>
    decreases entries, 1
  {
    if entries == [] then []
    else
      var last := entries[|entries| - 1];
      var before := CleanEntries(entries[..|entries| - 1], dropPrototype);
      if Kept(last, dropPrototype) then before + [Entry(last.key, Clean(last.value, dropPrototype))] else before
  }

  ghost function StripUndefined(v: JsValue): JsValue {
    Clean(v, false)
  }

  /** No object has a (defined) entry at the prototype key. */
  ghost predicate NoPrototypeEntries(v: JsValue) {
    match v
    case Array(items) => forall i | 0 <= i < |items| :: NoPrototypeEntries(items[i])
    case Object(entries) =>
      forall i | 0 <= i < |entries| ::
        entries[i].value.Undefined? || (entries[i].key != "__proto__" && NoPrototypeEntries(entries[i].value))
    case _ => true
  }

  // ----- What can be encoded -----------------------------------------------------------------------------

  lemma {:induction false} EncodesIff(v: JsValue)
    ensures ToJson(v).Ok? <==> Encodable(v)
    ensures ToJson(v).Err? ==> ToJson(v).error == CannotEncode
    decreases v, 0
  {
    match v
    case Array(items) => ItemsEncodeIff(items);
    case Object(entries) => EntriesEncodeIff(entries);
    case _ =>
  }

  lemma {:induction false} ItemsEncodeIff(items: seq<JsValue>)
    ensures ItemsToJson(items).Ok? <==> forall i | 0 <= i < |items| :: Encodable(items[i])
    ensures ItemsToJson(items).Err? ==> ItemsToJson(items).error == CannotEncode
    decreases items, 1
  {
    if items != [] {
      ItemsEncodeIff(items[..|items| - 1]);
      EncodesIff(items[|items| - 1]);
    }
  }

  lemma {:induction false} EntriesEncodeIff(entries: seq<Entry>)
    ensures EntriesToJson(entries).Ok? <==>
      forall i | 0 <= i < |entries| :: entries[i].value.Undefined? || Encodable(entries[i].value)
    ensures EntriesToJson(entries).Err? ==> EntriesToJson(entries).error == CannotEncode
    decreases entries, 1
  {
    if entries != [] {
      EntriesEncodeIff(entries[..|entries| - 1]);
      EncodesIff(entries[|entries| - 1].value);
    }
  }

  // ----- The result is JSON ----------------------------------------------------------------------------------

  lemma {:induction false} AssignKeepsCompatible(out: seq<Entry>, key: string, value: JsValue)
    requires forall i | 0 <= i < |out| :: IsJsonCompatibleValue(out[i].value)
    requires IsJsonCompatibleValue(value)
    ensures forall i | 0 <= i < |Assign(out, key, value)| :: IsJsonCompatibleValue(Assign(out, key, value)[i].value)
  {
    if key != PROTOTYPE_KEY && out != [] && out[0].key != key {
      AssignKeepsCompatible(out[1..], key, value);
    }
  }

  /** Whatever `toJson` returns is a JSON-compatible value. */
  lemma {:induction false} ResultIsJson(v: JsValue)
    requires ToJson(v).Ok?
    ensures IsJsonCompatibleValue(ToJson(v).value)
    decreases v, 0
  {
    match v
    case Array(items) => ItemsAreJson(items);
    case Object(entries) => EntriesAreJson(entries);
    case _ =>
  }

  lemma {:induction false} ItemsAreJson(items: seq<JsValue>)
    requires ItemsToJson(items).Ok?
    ensures forall i | 0 <= i < |ItemsToJson(items).value| :: IsJsonCompatibleValue(ItemsToJson(items).value[i])
    decreases items, 1
  {
    if items != [] {
      ItemsAreJson(items[..|items| - 1]);
      ResultIsJson(items[|items| - 1]);
    }
  }

  lemma {:induction false} EntriesAreJson(entries: seq<Entry>)
    requires EntriesToJson(entries).Ok?
    ensures forall i | 0 <= i < |EntriesToJson(entries).value| ::
      IsJsonCompatibleValue(EntriesToJson(entries).value[i].value)
    decreases entries, 1
  {
    if entries != [] {
      var before, last := entries[..|entries| - 1], entries[|entries| - 1];
      EntriesAreJson(before);
      if !last.value.Undefined? {
        ResultIsJson(last.value);
        AssignKeepsCompatible(EntriesToJson(before).value, last.key, ToJson(last.value).value);
      }
    }
  }

  // ----- Round trip ----------------------------------------------------------------------------------------------

  lemma {:induction false} AssignAppends(out: seq<Entry>, key: string, value: JsValue)
    requires key != PROTOTYPE_KEY && forall i | 0 <= i < |out| :: out[i].key != key
    ensures Assign(out, key, value) == out + [Entry(key, value)]
  {
    if out != [] {
      AssignAppends(out[1..], key, value);
    }
  }

  /** `out[key] = value`: the key then has this value and the other entries stay, but "__proto__" stores nothing. */
  lemma {:induction false} AssignReplaces(out: seq<Entry>, key: string, value: JsValue)
    requires DistinctKeys(out)
    ensures key == "__proto__" ==> Assign(out, key, value) == out
    ensures key != "__proto__" ==>
      && DistinctKeys(Assign(out, key, value))
      && (forall e :: e in Assign(out, key, value) <==> e == Entry(key, value) || (e in out && e.key != key))
  {
    if key != "__proto__" && out != [] && out[0].key != key {
      var first, rest := out[0], Assign(out[1..], key, value);
      AssignReplaces(out[1..], key, value);
      assert out == [first] + out[1..];
      forall i | 0 <= i < |rest|
        ensures rest[i].key != first.key
      {
        assert rest[i] in rest;
      }
    } else if out != [] {
      assert out == [out[0]] + out[1..];
    }
  }

  lemma TextRoundTrip(text: string, data: seq<byte>)
    ensures TextFromJson(STRING_PREFIX + text) == Ok(String(text))
    ensures TextFromJson(BYTES_PREFIX + ToHex(data)) == Ok(Bytes(data))
  {
    var s, b := STRING_PREFIX + text, BYTES_PREFIX + ToHex(data);
    assert s[..|STRING_PREFIX|] == STRING_PREFIX && s[|STRING_PREFIX|..] == text;
    assert b[..|BYTES_PREFIX|] == BYTES_PREFIX && b[|BYTES_PREFIX|..] == ToHex(data);
    assert b[0] != STRING_PREFIX[0];
    HexRoundTrip(data);
  }

  /** Decoding the encoding gives the value without its undefined entries and without entries at the
      prototype key. */
  lemma {:induction false} EncodeThenDecode(v: JsValue)
    requires WellFormed(v) && Encodable(v)
    ensures ToJson(v).Ok? && FromJson(ToJson(v).value) == Ok(Clean(v, true))
    decreases v, 0
  {
    EncodesIff(v);
    match v
    case String(text) => TextRoundTrip(text, []);
    case Bytes(data) => TextRoundTrip("", data);
    case Array(items) => ItemsRoundTrip(items);
    case Object(entries) => EntriesRoundTrip(entries);
    case _ =>
  }

  lemma {:induction false} ItemsRoundTrip(items: seq<JsValue>)
    requires forall i | 0 <= i < |items| :: WellFormed(items[i]) && Encodable(items[i])
    ensures ItemsToJson(items).Ok? && ItemsFromJson(ItemsToJson(items).value) == Ok(CleanItems(items, true))
    decreases items, 1
  {
    if items != [] {
      var before, last := items[..|items| - 1], items[|items| - 1];
      ItemsRoundTrip(before);
      EncodeThenDecode(last);
      var js := ItemsToJson(before).value;
      assert (js + [ToJson(last).value])[..|js|] == js;
    }
  }

  lemma {:induction false} EntriesRoundTrip(entries: seq<Entry>)
    requires DistinctKeys(entries)
    requires forall i | 0 <= i < |entries| :: WellFormed(entries[i].value)
    requires forall i | 0 <= i < |entries| :: entries[i].value.Undefined? || Encodable(entries[i].value)
    ensures
      var js := EntriesToJson(entries);
      && js.Ok?
      && EntriesFromJson(js.value) == Ok(CleanEntries(entries, true))
      && Keys(js.value) <= Keys(entries) && Keys(CleanEntries(entries, true)) <= Keys(entries)
    decreases entries, 1
  {
    if entries != [] {
      var before, last := entries[..|entries| - 1], entries[|entries| - 1];
      EntriesRoundTrip(before);
      var js, clean := EntriesToJson(before).value, CleanEntries(before, true);
      KeysAppend(before, last);
      assert entries == before + [last];
      if !last.value.Undefined? {
        EncodeThenDecode(last.value);
        if last.key != PROTOTYPE_KEY {
          var j, x := ToJson(last.value).value, Clean(last.value, true);
          EntryRoundTrip(before, js, clean, last.key, j, x);
        }
      }
    }
  }

  lemma AssignNew(before: seq<Entry>, out: seq<Entry>, key: string, value: JsValue)
    requires key != PROTOTYPE_KEY && forall i | 0 <= i < |before| :: before[i].key != key
    requires Keys(out) <= Keys(before)
    ensures Assign(out, key, value) == out + [Entry(key, value)]
    ensures Keys(out + [Entry(key, value)]) <= Keys(before) + {key}
  {
    NewKey(before, key, out);
    AssignAppends(out, key, value);
    KeysAppend(out, Entry(key, value));
  }

  /** One more entry, whose key is new. */
  lemma EntryRoundTrip(before: seq<Entry>, js: seq<Entry>, clean: seq<Entry>, key: string, j: JsValue, x: JsValue)
    requires key != PROTOTYPE_KEY && forall i | 0 <= i < |before| :: before[i].key != key
    requires Keys(js) <= Keys(before) && Keys(clean) <= Keys(before)
    requires EntriesFromJson(js) == Ok(clean) && FromJson(j) == Ok(x)
    ensures Assign(js, key, j) == js + [Entry(key, j)]
    ensures EntriesFromJson(js + [Entry(key, j)]) == Ok(clean + [Entry(key, x)])
    ensures Keys(js + [Entry(key, j)]) <= Keys(before) + {key} && Keys(clean + [Entry(key, x)]) <= Keys(before) + {key}
  {
    AssignNew(before, js, key, j);
    AssignNew(before, clean, key, x);
  }

  lemma NewKey(before: seq<Entry>, key: string, out: seq<Entry>)
    requires forall i | 0 <= i < |before| :: before[i].key != key
    requires Keys(out) <= Keys(before)
    ensures forall i | 0 <= i < |out| :: out[i].key != key
  {
    forall i | 0 <= i < |out|
      ensures out[i].key != key
    {
      assert out[i].key in Keys(out);
    }
  }

  lemma KeysAppend(entries: seq<Entry>, e: Entry)
    ensures Keys(entries + [e]) == Keys(entries) + {e.key}
  {
    var more := entries + [e];
    assert more[|entries|] == e;
    forall k | k in Keys(entries)
      ensures k in Keys(more)
    {
      var i :| 0 <= i < |entries| && entries[i].key == k;
      assert more[i].key == k;
    }
  }

  // ----- When nothing is lost --------------------------------------------------------------------------------------

  lemma {:induction false} CleanDiffersIff(v: JsValue)
    ensures Clean(v, true) == StripUndefined(v) <==> NoPrototypeEntries(v)
    decreases v, 0
  {
    match v
    case Array(items) => CleanItemsDifferIff(items);
    case Object(entries) => CleanEntriesDifferIff(entries);
    case _ =>
  }

  lemma {:induction false} CleanItemsDifferIff(items: seq<JsValue>)
    ensures |CleanItems(items, true)| == |CleanItems(items, false)| == |items|
    ensures CleanItems(items, true) == CleanItems(items, false) <==>
      forall i | 0 <= i < |items| :: NoPrototypeEntries(items[i])
    decreases items, 1
  {
    if items != [] {
      var n := |items| - 1;
      CleanItemsDifferIff(items[..n]);
      CleanDiffersIff(items[n]);
      AppendEqual(CleanItems(items[..n], true), CleanItems(items[..n], false), Clean(items[n], true),
        Clean(items[n], false));
    }
  }

  lemma AppendEqual<T>(a: seq<T>, b: seq<T>, x: T, y: T)
    requires |a| == |b|
    ensures a + [x] == b + [y] <==> a == b && x == y
  {
    if a + [x] == b + [y] {
      assert a == (a + [x])[..|a|] && b == (b + [y])[..|b|];
      assert x == (a + [x])[|a|] && y == (b + [y])[|b|];
    }
  }

  lemma {:induction false} CleanEntriesDifferIff(entries: seq<Entry>)
    ensures |CleanEntries(entries, true)| <= |CleanEntries(entries, false)|
    ensures CleanEntries(entries, true) == CleanEntries(entries, false) <==>
      forall i | 0 <= i < |entries| ::
        entries[i].value.Undefined? || (entries[i].key != "__proto__" && NoPrototypeEntries(entries[i].value))
    decreases entries, 1
  {
    if entries != [] {
      var n := |entries| - 1;
      var last := entries[n];
      CleanEntriesDifferIff(entries[..n]);
      CleanDiffersIff(last.value);
      var a, b := CleanEntries(entries[..n], true), CleanEntries(entries[..n], false);
      if |a| == |b| {
        AppendEqual(a, b, Entry(last.key, Clean(last.value, true)), Entry(last.key, Clean(last.value, false)));
      }
    }
  }

  /** For every value made of the supported types, `fromJson(toJson(x))` succeeds, and it is x without
      its undefined entries if and only if no object in x has an entry at the prototype key. */
  lemma RoundTripIff(v: JsValue)
    requires WellFormed(v) && Encodable(v)
    ensures ToJson(v).Ok? && FromJson(ToJson(v).value).Ok?
    ensures FromJson(ToJson(v).value).value == StripUndefined(v) <==> NoPrototypeEntries(v)
  {
    EncodeThenDecode(v);
    CleanDiffersIff(v);
  }

  /** The smallest object that is not given back. */
  lemma PrototypeEntryIsLost(v: JsValue)
    requires WellFormed(v) && Encodable(v)
    ensures
      var o := Object([Entry("__proto__", v)]);
      WellFormed(o) && Encodable(o) && ToJson(o).Ok? && FromJson(ToJson(o).value) == Ok(Object([]))
  {
    var entries := [Entry(PROTOTYPE_KEY, v)];
    assert entries[..0] == [];
    assert CleanEntries(entries, true) == [];
    EncodeThenDecode(Object(entries));
  }

  /** What decoding does not give back does not show in the encoding either. */
  lemma {:induction false} EncodingOfClean(v: JsValue)
    requires Encodable(v)
    ensures ToJson(Clean(v, true)) == ToJson(v)
    decreases v, 0
  {
    match v
    case Array(items) => EncodingOfCleanItems(items);
    case Object(entries) => EncodingOfCleanEntries(entries);
    case _ =>
  }

  lemma {:induction false} EncodingOfCleanItems(items: seq<JsValue>)
    requires forall i | 0 <= i < |items| :: Encodable(items[i])
    ensures ItemsToJson(CleanItems(items, true)) == ItemsToJson(items)
    decreases items, 1
  {
    if items != [] {
      var n := |items| - 1;
      EncodingOfCleanItems(items[..n]);
      EncodingOfClean(items[n]);
      var clean := CleanItems(items[..n], true);
      assert (clean + [Clean(items[n], true)])[..|clean|] == clean;
    }
  }

  lemma {:induction false} EncodingOfCleanEntries(entries: seq<Entry>)
    requires forall i | 0 <= i < |entries| :: entries[i].value.Undefined? || Encodable(entries[i].value)
    ensures EntriesToJson(CleanEntries(entries, true)) == EntriesToJson(entries)
    decreases entries, 1
  {
    if entries != [] {
      var n := |entries| - 1;
      var last := entries[n];
      EncodingOfCleanEntries(entries[..n]);
      EntriesEncodeIff(entries[..n]);
      var clean := CleanEntries(entries[..n], true);
      if !last.value.Undefined? {
        EncodesIff(last.value);
        EncodingOfClean(last.value);
        assert (clean + [Entry(last.key, Clean(last.value, true))])[..|clean|] == clean;
      }
    }
  }

  /** Two values have the same encoding if and only if decoding could not tell them apart: they are
      equal up to undefined entries and entries at the prototype key. In particular a string is never
      encoded like bytes. */
  lemma SameEncodingIff(v: JsValue, w: JsValue)
    requires WellFormed(v) && WellFormed(w) && Encodable(v) && Encodable(w)
    ensures ToJson(v) == ToJson(w) <==> Clean(v, true) == Clean(w, true)
  {
    EncodeThenDecode(v);
    EncodeThenDecode(w);
    EncodingOfClean(v);
    EncodingOfClean(w);
  }

  // ----- What can be decoded ---------------------------------------------------------------------------------------

  /** An even number of hexadecimal digits in lower or upper case. */
  ghost predicate IsHexText(s: string) {
    && |s| % 2 == 0
    && forall i | 0 <= i < |s| :: '0' <= s[i] <= '9' || 'a' <= s[i] <= 'f' || 'A' <= s[i] <= 'F'
  }

  lemma {:induction false} HexTextIff(s: string)
    ensures FromHex(s).Ok? <==> IsHexText(s)
    ensures FromHex(s).Err? ==> FromHex(s).error == if |s| % 2 != 0 then OddLength else InvalidCharacters
  {
    if |s| % 2 == 0 && s != "" {
      var n := |s| - 2;
      HexTextIff(s[..n]);
      assert forall i | 0 <= i < n :: s[..n][i] == s[i];
    }
  }

  /** Text with a known prefix, and hexadecimal digits after "bytes:". */
  ghost predicate IsTagged(text: string) {
    "string:" <= text || ("bytes:" <= text && IsHexText(text[6..]))
  }

  /** JSON in which every text is tagged, at every level. */
  ghost predicate Decodable(v: JsValue) {
    match v
    case Undefined => false
    case Bytes(_) => false
    case Other => false
    case String(text) => IsTagged(text)
    case Array(items) => forall i | 0 <= i < |items| :: Decodable(items[i])
    case Object(entries) => forall i | 0 <= i < |entries| :: Decodable(entries[i].value)
    case _ => true
  }

  /** What becomes of a text, prefix by prefix. */
  lemma DecodesText(text: string)
    ensures "string:" <= text ==> FromJson(String(text)) == Ok(String(text[7..]))
    ensures "bytes:" <= text ==>
      FromJson(String(text)) ==
        match FromHex(text[6..])
        case Ok(data) => Ok(Bytes(data))
        case Err(error) => Err(InvalidHex(error))
    ensures !("string:" <= text) && !("bytes:" <= text) ==> FromJson(String(text)) == Err(UnknownPrefix)
  {
    StartsWithIff(text, "string:");
    StartsWithIff(text, "bytes:");
    OnePrefix(text);
  }

  lemma OnePrefix(text: string)
    ensures !("string:" <= text && "bytes:" <= text)
  {
    assert "string:" <= text ==> text[0] == 's';
    assert "bytes:" <= text ==> text[0] == 'b';
  }

  lemma StartsWithIff(text: string, prefix: string)
    ensures StartsWith(text, prefix) <==> prefix <= text
  {
  }

  /** Texts and bytes are encoded with their prefix; the other scalars stay as they are. */
  lemma EncodesScalars(text: string, data: seq<byte>, flag: bool, number: real)
    ensures ToJson(String(text)) == Ok(String("string:" + text))
    ensures ToJson(Bytes(data)) == Ok(String("bytes:" + ToHex(data)))
    ensures ToJson(Bool(flag)) == Ok(Bool(flag)) && ToJson(Number(number)) == Ok(Number(number))
    ensures ToJson(Null) == Ok(Null)
  {
  }

  /** A value can be decoded if and only if it is JSON in which every text is tagged. */
  lemma {:induction false} DecodesIff(v: JsValue)
    ensures FromJson(v).Ok? <==> Decodable(v)
    decreases v, 0
  {
    match v
    case String(text) =>
      DecodesText(text);
      OnePrefix(text);
      if "bytes:" <= text {
        HexTextIff(text[6..]);
      }
    case Array(items) => ItemsDecodeIff(items);
    case Object(entries) => EntriesDecodeIff(entries);
    case _ =>
  }

  lemma {:induction false} ItemsDecodeIff(items: seq<JsValue>)
    ensures ItemsFromJson(items).Ok? <==> forall i | 0 <= i < |items| :: Decodable(items[i])
    decreases items, 1
  {
    if items != [] {
      ItemsDecodeIff(items[..|items| - 1]);
      DecodesIff(items[|items| - 1]);
    }
  }

  lemma {:induction false} EntriesDecodeIff(entries: seq<Entry>)
    ensures EntriesFromJson(entries).Ok? <==> forall i | 0 <= i < |entries| :: Decodable(entries[i].value)
    decreases entries, 1
  {
    if entries != [] {
      EntriesDecodeIff(entries[..|entries| - 1]);
      DecodesIff(entries[|entries| - 1].value);
    }
  }

  /** Arrays are encoded and decoded item by item. */
  lemma {:induction false} EachItemOnItsOwn(items: seq<JsValue>)
    ensures ItemsToJson(items).Ok? ==>
      && |ItemsToJson(items).value| == |items|
      && (forall i | 0 <= i < |items| :: ToJson(items[i]) == Ok(ItemsToJson(items).value[i]))
    ensures ItemsFromJson(items).Ok? ==>
      && |ItemsFromJson(items).value| == |items|
      && (forall i | 0 <= i < |items| :: FromJson(items[i]) == Ok(ItemsFromJson(items).value[i]))
  {
    if items != [] {
      EachItemOnItsOwn(items[..|items| - 1]);
    }
  }

  /** The error of an array is that of its first item that cannot be decoded. */
  lemma {:induction false} FirstErrorWins(items: seq<JsValue>, k: nat)
    requires k < |items| && FromJson(items[k]).Err?
    requires forall i | 0 <= i < k :: Decodable(items[i])
    ensures FromJson(Array(items)) == Err(FromJson(items[k]).error)
  {
    ItemsDecodeIff(items[..k]);
    assert items[..k + 1][..k] == items[..k];
    ItemsPrefixFails(items, k + 1, false);
  }

  /** The error of an object is that of its first value that cannot be decoded. */
  lemma {:induction false} FirstEntryErrorWins(entries: seq<Entry>, k: nat)
    requires k < |entries| && FromJson(entries[k].value).Err?
    requires forall i | 0 <= i < k :: Decodable(entries[i].value)
    ensures FromJson(Object(entries)) == Err(FromJson(entries[k].value).error)
  {
    EntriesDecodeIff(entries[..k]);
    assert entries[..k + 1][..k] == entries[..k];
    EntriesPrefixFails(entries, k + 1, false);
  }

  /** `CannotDecode` means that a value is no JSON at all, which the type of the argument excludes. */
  lemma {:induction false} JsonFailsByItsTexts(v: JsValue)
    ensures IsJsonCompatibleValue(v) ==> FromJson(v) != Err(CannotDecode)
    ensures v.Undefined? || v.Bytes? || v.Other? ==> FromJson(v) == Err(CannotDecode)
    decreases v, 0
  {
    match v
    case Array(items) => ItemsFailByTheirTexts(items);
    case Object(entries) => EntriesFailByTheirTexts(entries);
    case _ =>
  }

  lemma {:induction false} ItemsFailByTheirTexts(items: seq<JsValue>)
    ensures (forall i | 0 <= i < |items| :: IsJsonCompatibleValue(items[i])) ==>
      ItemsFromJson(items) != Err(CannotDecode)
    decreases items, 1
  {
    if items != [] {
      ItemsFailByTheirTexts(items[..|items| - 1]);
      JsonFailsByItsTexts(items[|items| - 1]);
    }
  }

  lemma {:induction false} EntriesFailByTheirTexts(entries: seq<Entry>)
    ensures (forall i | 0 <= i < |entries| :: IsJsonCompatibleValue(entries[i].value)) ==>
      EntriesFromJson(entries) != Err(CannotDecode)
    decreases entries, 1
  {
    if entries != [] {
      EntriesFailByTheirTexts(entries[..|entries| - 1]);
      JsonFailsByItsTexts(entries[|entries| - 1].value);
    }
  }
}
