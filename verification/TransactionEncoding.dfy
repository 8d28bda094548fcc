/** `TransactionEncoder` (packages/iov-encoding/src/transactionencoder.ts) and the type guards of
    packages/iov-encoding/src/json.ts. */
module TransactionEncoding {
  import opened Results
  import opened Hex

  datatype Entry = Entry(key: string, value: JsValue)

  /** `Other` stands for values of a kind that JSON has no place for: functions, dates, buffers. */
  datatype JsValue =
    | Undefined
    | Null
    | Bool(flag: bool)
    | Number(number: real)
    | String(text: string)
    | Bytes(data: seq<byte>)
    | Array(items: seq<JsValue>)
    | Object(entries: seq<Entry>)
    | Other

  datatype CodecError = CannotEncode | CannotDecode | UnknownPrefix | InvalidHex(error: HexError)

  const STRING_PREFIX := "string:"
  const BYTES_PREFIX := "bytes:"
  /** Assigning to this key sets the prototype and stores no entry. */
  const PROTOTYPE_KEY := "__proto__"

  /** `out[key] = value`. */
  function Assign(out: seq<Entry>, key: string, value: JsValue): seq<Entry> {
    if key == PROTOTYPE_KEY then out
    else if out == [] then [Entry(key, value)]
    else if out[0].key == key then [Entry(key, value)] + out[1..]
    else [out[0]] + Assign(out[1..], key, value)
  }

  // ----- Encoding ----------------------------------------------------------------------------------

  function ToJson(data: JsValue): Result<JsValue, CodecError>
    decreases data, 0
  {
    match data
    case Number(_) => Ok(data)
    case Bool(_) => Ok(data)
    case Null => Ok(Null)
    case String(text) => Ok(String(STRING_PREFIX + text))
    case Bytes(bytes) => Ok(String(BYTES_PREFIX + ToHex(bytes)))
    case Array(items) =>
      var r := ItemsToJson(items);
      if r.Ok? then Ok(Array(r.value)) else Err(r.error)
    case Object(entries) =>
      var r := EntriesToJson(entries);
      if r.Ok? then Ok(Object(r.value)) else Err(r.error)
    case _ => Err(CannotEncode)
  }

  function ItemsToJson(items: seq<JsValue>): Result<seq<JsValue>, CodecError>
    decreases items, 1
  {
    if items == [] then Ok([])
    else
      var before, last := ItemsToJson(items[..|items| - 1]), ToJson(items[|items| - 1]);
      if before.Err? then before
      else if last.Err? then Err(last.error)
      else Ok(before.value + [last.value])
  }

  function EntriesToJson(entries: seq<Entry>): Result<seq<Entry>, CodecError>
    decreases entries, 1
  {
    if entries == [] then Ok([])
    else
      var before, last := EntriesToJson(entries[..|entries| - 1]), entries[|entries| - 1];
      if before.Err? || last.value.Undefined? then before
      else
        var r := ToJson(last.value);
        if r.Err? then Err(r.error) else Ok(Assign(before.value, last.key, r.value))
  }

  // ----- Decoding ----------------------------------------------------------------------------------

  predicate StartsWith(s: string, prefix: string) {
    |prefix| <= |s| && s[..|prefix|] == prefix
  }

  function TextFromJson(text: string): Result<JsValue, CodecError> {
    if StartsWith(text, STRING_PREFIX) then Ok(String(text[|STRING_PREFIX|..]))
    else if StartsWith(text, BYTES_PREFIX) then
      var r := FromHex(text[|BYTES_PREFIX|..]);
      if r.Ok? then Ok(Bytes(r.value)) else Err(InvalidHex(r.error))
    else Err(UnknownPrefix)
  }

  function FromJson(data: JsValue): Result<JsValue, CodecError>
    decreases data, 0
  {
    match data
    case Number(_) => Ok(data)
    case Bool(_) => Ok(data)
    case Null => Ok(Null)
    case String(text) => TextFromJson(text)
    case Array(items) =>
      var r := ItemsFromJson(items);
      if r.Ok? then Ok(Array(r.value)) else Err(r.error)
    case Object(entries) =>
      var r := EntriesFromJson(entries);
      if r.Ok? then Ok(Object(r.value)) else Err(r.error)
    case _ => Err(CannotDecode)
  }

  function ItemsFromJson(items: seq<JsValue>): Result<seq<JsValue>, CodecError>
    decreases items, 1
  {
    if items == [] then Ok([])
    else
      var before, last := ItemsFromJson(items[..|items| - 1]), FromJson(items[|items| - 1]);
      if before.Err? then before
      else if last.Err? then Err(last.error)
      else Ok(before.value + [last.value])
  }

  function EntriesFromJson(entries: seq<Entry>): Result<seq<Entry>, CodecError>
    decreases entries, 1
  {
    if entries == [] then Ok([])
    else
      var before, last := EntriesFromJson(entries[..|entries| - 1]), entries[|entries| - 1];
      var r := FromJson(last.value);
      if before.Err? then before
      else if r.Err? then Err(r.error)
      else Ok(Assign(before.value, last.key, r.value))
  }

  // ----- The code that fills objects key by key -------------------------------------------------------

  lemma {:induction false} ItemsPrefixFails(items: seq<JsValue>, k: nat, encode: bool)
    requires k <= |items|
    ensures encode && ItemsToJson(items[..k]).Err? ==> ItemsToJson(items) == ItemsToJson(items[..k])
    ensures !encode && ItemsFromJson(items[..k]).Err? ==> ItemsFromJson(items) == ItemsFromJson(items[..k])
    decreases |items|
  {
    if k == |items| {
      assert items[..k] == items;
    } else {
      assert items[..|items| - 1][..k] == items[..k];
      ItemsPrefixFails(items[..|items| - 1], k, encode);
    }
  }

  lemma {:induction false} EntriesPrefixFails(entries: seq<Entry>, k: nat, encode: bool)
    requires k <= |entries|
    ensures encode && EntriesToJson(entries[..k]).Err? ==> EntriesToJson(entries) == EntriesToJson(entries[..k])
    ensures !encode && EntriesFromJson(entries[..k]).Err? ==> EntriesFromJson(entries) == EntriesFromJson(entries[..k])
    decreases |entries|
  {
    if k == |entries| {
      assert entries[..k] == entries;
    } else {
      assert entries[..|entries| - 1][..k] == entries[..k];
      EntriesPrefixFails(entries[..|entries| - 1], k, encode);
    }
  }

  method EncodeObject(entries: seq<Entry>) returns (r: Result<JsValue, CodecError>)
    ensures r == ToJson(Object(entries))
    decreases entries, 1
  {
    var out: seq<Entry> := [];
    for i := 0 to |entries|
      invariant EntriesToJson(entries[..i]) == Ok(out)
    {
      assert entries[..i + 1][..i] == entries[..i];
      var value := entries[i].value;
      if value == Undefined {
        continue;
      }
      var json := Encode(value);
      if json.Err? {
        EntriesPrefixFails(entries, i + 1, true);
        return json;
      }
      out := Assign(out, entries[i].key, json.value);
    }
    assert entries[..|entries|] == entries;
    return Ok(Object(out));
  }

  method Encode(data: JsValue) returns (r: Result<JsValue, CodecError>)
    ensures r == ToJson(data)
    decreases data, 0
  {
    match data
    case Number(_) => return Ok(data);
    case Bool(_) => return Ok(data);
    case Null => return Ok(Null);
    case String(text) => return Ok(String(STRING_PREFIX + text));
    case Bytes(bytes) =>
      var hex := EncodeHex(bytes);
      return Ok(String(BYTES_PREFIX + hex));
    case Array(items) =>
      var out: seq<JsValue> := [];
      for i := 0 to |items|
        invariant ItemsToJson(items[..i]) == Ok(out)
      {
        assert items[..i + 1][..i] == items[..i];
        var json := Encode(items[i]);
        if json.Err? {
          ItemsPrefixFails(items, i + 1, true);
          return json;
        }
        out := out + [json.value];
      }
      assert items[..|items|] == items;
      return Ok(Array(out));
    case Object(entries) =>
      r := EncodeObject(entries);
    case _ => return Err(CannotEncode);
  }

  method DecodeObject(entries: seq<Entry>) returns (r: Result<JsValue, CodecError>)
    ensures r == FromJson(Object(entries))
    decreases entries, 1
  {
    var out: seq<Entry> := [];
    for i := 0 to |entries|
      invariant EntriesFromJson(entries[..i]) == Ok(out)
    {
      assert entries[..i + 1][..i] == entries[..i];
      var value := Decode(entries[i].value);
      if value.Err? {
        EntriesPrefixFails(entries, i + 1, false);
        return value;
      }
      out := Assign(out, entries[i].key, value.value);
    }
    assert entries[..|entries|] == entries;
    return Ok(Object(out));
  }

  method Decode(data: JsValue) returns (r: Result<JsValue, CodecError>)
    ensures r == FromJson(data)
    decreases data, 0
  {
    match data
    case Number(_) => return Ok(data);
    case Bool(_) => return Ok(data);
    case Null => return Ok(Null);
    case String(text) => return TextFromJson(text);
    case Array(items) =>
      var out: seq<JsValue> := [];
      for i := 0 to |items|
        invariant ItemsFromJson(items[..i]) == Ok(out)
      {
        assert items[..i + 1][..i] == items[..i];
        var value := Decode(items[i]);
        if value.Err? {
          ItemsPrefixFails(items, i + 1, false);
          return value;
        }
        out := out + [value.value];
      }
      assert items[..|items|] == items;
      return Ok(Array(out));
    case Object(entries) =>
      r := DecodeObject(entries);
    case _ => return Err(CannotDecode);
  }
}
