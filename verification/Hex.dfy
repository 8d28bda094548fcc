/** `Encoding.toHex` and `Encoding.fromHex` (packages/iov-encoding/src/encoding.ts). */
module Hex {
  import opened Results

  datatype HexError = OddLength | InvalidCharacters

  function HexChar(d: nat): char
    requires d < 16
  {
    if d < 10 then ('0' as int + d) as char else ('a' as int + d - 10) as char
  }

  function HexValue(c: char): (r: Option<nat>)
    ensures r.Some? ==> r.value < 16
  {
    if '0' <= c <= '9' then Some(c as int - '0' as int)
    else if 'a' <= c <= 'f' then Some(c as int - 'a' as int + 10)
    else if 'A' <= c <= 'F' then Some(c as int - 'A' as int + 10)
    else None
  }

  function Lower(c: char): char {
    if 'A' <= c <= 'Z' then (c as int + 32) as char else c
  }

  function ToHex(data: seq<byte>): (s: string)
    ensures |s| == 2 * |data|
  {
    if data == [] then ""
    else
      var b := data[|data| - 1];
      ToHex(data[..|data| - 1]) + [HexChar(b / 16), HexChar(b % 16)]
  }

  function FromPairs(s: string): (r: Result<seq<byte>, HexError>)
    requires |s| % 2 == 0
    ensures r.Ok? ==> 2 * |r.value| == |s|
  {
    if s == "" then Ok([])
    else
      var before := FromPairs(s[..|s| - 2]);
      var hi, lo := HexValue(s[|s| - 2]), HexValue(s[|s| - 1]);
      if before.Err? then before
      else if hi.None? || lo.None? then Err(InvalidCharacters)
      else Ok(before.value + [16 * hi.value + lo.value])
  }

  function FromHex(s: string): Result<seq<byte>, HexError> {
    if |s| % 2 != 0 then Err(OddLength) else FromPairs(s)
  }

  method EncodeHex(data: seq<byte>) returns (out: string)
    ensures out == ToHex(data)
  {
    out := "";
    for i := 0 to |data|
      invariant out == ToHex(data[..i])
    {
      assert data[..i + 1][..i] == data[..i];
      out := out + [HexChar(data[i] / 16), HexChar(data[i] % 16)];
    }
    assert data[..|data|] == data;
  }

  lemma {:induction false} BadPrefix(s: string, k: nat)
    requires |s| % 2 == 0 && k % 2 == 0 && k <= |s| && FromPairs(s[..k]).Err?
    ensures FromPairs(s) == Err(InvalidCharacters)
    decreases |s|
  {
    if k == |s| {
      assert s[..k] == s;
      ErrorIsInvalidCharacters(s);
    } else {
      assert s[..|s| - 2][..k] == s[..k];
      BadPrefix(s[..|s| - 2], k);
    }
  }

  lemma {:induction false} ErrorIsInvalidCharacters(s: string)
    requires |s| % 2 == 0 && FromPairs(s).Err?
    ensures FromPairs(s) == Err(InvalidCharacters)
  {
    if s != "" && FromPairs(s[..|s| - 2]).Err? {
      ErrorIsInvalidCharacters(s[..|s| - 2]);
    }
  }

  method DecodeHex(hexstring: string) returns (r: Result<seq<byte>, HexError>)
    ensures r == FromHex(hexstring)
  {
    if |hexstring| % 2 != 0 {
      return Err(OddLength);
    }
    var listOfInts: seq<byte> := [];
    var i := 0;
    while i < |hexstring|
      invariant i <= |hexstring| && i % 2 == 0
      invariant FromPairs(hexstring[..i]) == Ok(listOfInts)
    {
      var hi, lo := HexValue(hexstring[i]), HexValue(hexstring[i + 1]);
      assert hexstring[..i + 2][..i] == hexstring[..i];
      if hi.None? || lo.None? {
        BadPrefix(hexstring, i + 2);
        return Err(InvalidCharacters);
      }
      listOfInts := listOfInts + [16 * hi.value + lo.value];
      i := i + 2;
    }
    assert hexstring[..|hexstring|] == hexstring;
    return Ok(listOfInts);
  }

  /** The digits, written out. */
  lemma HexDigits(d: nat)
    requires d < 16
    ensures HexChar(d) == "0123456789abcdef"[d]
    ensures HexValue("0123456789abcdef"[d]) == Some(d) && HexValue("0123456789ABCDEF"[d]) == Some(d)
  {
  }

  lemma {:induction false} HexRoundTrip(data: seq<byte>)
    ensures FromHex(ToHex(data)) == Ok(data)
  {
    if data != [] {
      var before, b := data[..|data| - 1], data[|data| - 1];
      HexRoundTrip(before);
      var s := ToHex(data);
      assert s[..|s| - 2] == ToHex(before);
      assert data == before + [b];
    }
  }

  /** Decoding is case-insensitive, and encoding gives back the lower-case text. */
  lemma {:induction false} LowerCaseRoundTrip(s: string)
    requires FromHex(s).Ok?
    ensures ToHex(FromHex(s).value) == seq(|s|, i requires 0 <= i < |s| => Lower(s[i]))
  {
    if s != "" {
      var before := s[..|s| - 2];
      LowerCaseRoundTrip(before);
      var data := FromHex(s).value;
      assert data[..|data| - 1] == FromHex(before).value;
      var hi, lo := HexValue(s[|s| - 2]).value, HexValue(s[|s| - 1]).value;
      assert data[|data| - 1] / 16 == hi && data[|data| - 1] % 16 == lo;
    }
  }
}
