/** The encodings for hashing block headers (packages/iov-tendermint-rpc/src/encodings.ts):
    base-128 varints, versions and timestamps. */
module AminoEncoding {
  import opened Results

  const INT32_LIMIT := 0x8000_0000

  // ----- The bit operators of JavaScript, for all integers -----------------------------------------------

  function ToInt32(n: int): int {
    (n + INT32_LIMIT) % (2 * INT32_LIMIT) - INT32_LIMIT
  }

  /** `n & 0xff`. */
  function LowByte(n: int): byte {
    ToInt32(n) % 256
  }

  /** `b | 0x80`. */
  function WithHighBit(b: byte): byte {
    if b < 128 then b + 128 else b
  }

  /** `n >> 7`, which keeps the sign. */
  function ShiftRight7(n: int): int {
    ToInt32(n) / 128
  }

  function EncodeInt(n: int): (bytes: seq<byte>)
    ensures bytes != []
    decreases if n < 0 then 0 else n
  {
    if n >= 0x80 then [WithHighBit(LowByte(n))] + EncodeInt(ShiftRight7(n)) else [LowByte(n)]
  }

  function Field(tag: byte, n: int): seq<byte> {
    if n != 0 then [tag] + EncodeInt(n) else []
  }

  function EncodeVersion(block: int, app: int): seq<byte> {
    Field(0x08, block) + Field(0x10, app)
  }

  /** JavaScript's `%`, whose result has the sign of the dividend. */
  function Remainder(n: int, d: int): int
    requires d > 0
  {
    if n >= 0 then n % d else -((-n) % d)
  }

  function EncodeTime(milliseconds: int, nanoseconds: int): seq<byte> {
    Field(0x08, milliseconds / 1000) + Field(0x10, nanoseconds + Remainder(milliseconds, 1000) * 1_000_000)
  }

  /** A bit operator first takes the number modulo 2^32, between -2^31 and 2^31; `& 0xff` gives the last eight
      bits, `>> 7` divides by 128 and rounds down. */
  lemma BitOperators(n: int)
    ensures -0x8000_0000 <= ToInt32(n) < 0x8000_0000 && (n - ToInt32(n)) % 0x1_0000_0000 == 0
    ensures (n - LowByte(n)) % 256 == 0
    ensures 128 * ShiftRight7(n) <= ToInt32(n) < 128 * ShiftRight7(n) + 128
  {
  }

  /** Division is rounded towards zero: the remainder has the sign of the dividend. */
  lemma RemainderTruncates(n: int, d: int) returns (q: int)
    requires d > 0
    ensures n == q * d + Remainder(n, d) && -d < Remainder(n, d) < d
    ensures (n >= 0 ==> Remainder(n, d) >= 0) && (n <= 0 ==> Remainder(n, d) <= 0)
  {
    if n >= 0 {
      q := n / d;
    } else {
      q := -((-n) / d);
      assert -n == (-n) / d * d + (-n) % d;
      assert q * d == -((-n) / d * d);
    }
  }

  /** A timestamp has its whole seconds, rounded down, in field 1 and in field 2 the nanoseconds with the
      milliseconds that `%` leaves, which are negative before 1970. */
  lemma TimeFields(milliseconds: int, nanoseconds: int, seconds: int, q: int, rest: int)
    requires 1000 * seconds <= milliseconds < 1000 * seconds + 1000
    requires milliseconds == 1000 * q + rest && -1000 < rest < 1000
    requires (milliseconds >= 0 ==> rest >= 0) && (milliseconds <= 0 ==> rest <= 0)
    ensures EncodeTime(milliseconds, nanoseconds) == Field(0x08, seconds) + Field(0x10, nanoseconds + rest * 1_000_000)
  {
    assert seconds == milliseconds / 1000;
    assert rest == Remainder(milliseconds, 1000);
  }

  // ----- Reading, as Protocol Buffers define it -------------------------------------------------------------

  /** The value of a base-128 varint at the start of the bytes, and how many bytes it takes. */
  function ReadVarint(bytes: seq<byte>): (r: Option<(nat, nat)>)
    ensures r.Some? ==> 1 <= r.value.1 <= |bytes|
  {
    if bytes == [] then None
    else if bytes[0] < 128 then Some((bytes[0], 1))
    else
      match ReadVarint(bytes[1..])
      case None => None
      case Some((value, length)) => Some((bytes[0] - 128 + 128 * value, length + 1))
  }

  /** An optional varint field: absent stands for zero. */
  function ReadField(bytes: seq<byte>, tag: byte): Option<(nat, seq<byte>)> {
    if bytes == [] || bytes[0] != tag then Some((0, bytes))
    else
      match ReadVarint(bytes[1..])
      case None => None
      case Some((value, length)) => Some((value, bytes[1 + length..]))
  }

  function ReadMessage(bytes: seq<byte>): Option<(nat, nat)> {
    match ReadField(bytes, 0x08)
    case None => None
    case Some((first, rest)) =>
      match ReadField(rest, 0x10)
      case None => None
      case Some((second, end)) => if end == [] then Some((first, second)) else None
  }

  function ReadTime(bytes: seq<byte>): Option<(int, int)> {
    match ReadMessage(bytes)
    case None => None
    case Some((seconds, nanos)) => Some((seconds * 1000 + nanos / 1_000_000, nanos % 1_000_000))
  }

  // ----- Varints ----------------------------------------------------------------------------------------------

  predicate InRange(n: int) {
    0 <= n < INT32_LIMIT
  }

  lemma Step(n: int)
    requires InRange(n)
    ensures ToInt32(n) == n && LowByte(n) == n % 256 && ShiftRight7(n) == n / 128
    ensures WithHighBit(LowByte(n)) == 128 + n % 128
  {
  }

  lemma {:induction false} ReadsBack(n: int, rest: seq<byte>)
    requires InRange(n)
    ensures ReadVarint(EncodeInt(n) + rest) == Some((n, |EncodeInt(n)|))
    decreases n
  {
    Step(n);
    if n >= 128 {
      ReadsBack(n / 128, rest);
      assert (EncodeInt(n) + rest)[1..] == EncodeInt(n / 128) + rest;
    }
  }

  lemma FirstByteOutOfRange(n: int, rest: seq<byte>)
    requires n >= INT32_LIMIT
    ensures
      var bytes, m := EncodeInt(n) + rest, ShiftRight7(n);
      && bytes[0] >= 128 && bytes[1..] == EncodeInt(m) + rest
      && |EncodeInt(n)| == 1 + |EncodeInt(m)| && 128 * m < INT32_LIMIT
  {
    var m, b := ShiftRight7(n), WithHighBit(LowByte(n));
    assert EncodeInt(n) + rest == [b] + (EncodeInt(m) + rest);
  }

  /** Outside the range the first bytes no longer hold the value. What follows the encoding in a
      message is nothing or a tag below 128. */
  lemma MisreadsOutOfRange(n: int, rest: seq<byte>)
    requires n >= INT32_LIMIT && (rest == [] || rest[0] < 128)
    ensures
      var r := ReadVarint(EncodeInt(n) + rest);
      r.Some? ==> r.value.0 < INT32_LIMIT
  {
    var m, bytes := ShiftRight7(n), EncodeInt(n) + rest;
    FirstByteOutOfRange(n, rest);
    if m >= 0 {
      ReadsBack(m, rest);
    } else {
      var tail := EncodeInt(m) + rest;
      assert tail[0] == LowByte(m) && tail[1..] == rest;
      assert rest != [] ==> ReadVarint(rest) == Some((rest[0] as nat, 1));
      assert ReadVarint(bytes).Some? ==> ReadVarint(tail).Some?;
    }
  }

  /** An integer is read back from its encoding if and only if it is in [0, 2^31). */
  lemma {:induction false} ReadsBackIff(n: int)
    ensures ReadVarint(EncodeInt(n)) == Some((n, |EncodeInt(n)|)) <==> 0 <= n < 0x8000_0000
  {
    assert EncodeInt(n) + [] == EncodeInt(n);
    if InRange(n) {
      ReadsBack(n, []);
    } else if n >= INT32_LIMIT {
      MisreadsOutOfRange(n, []);
    }
  }

  /** No varint for the same number is shorter. */
  lemma {:induction false} EncodingIsMinimal(n: int, bytes: seq<byte>)
    requires 0 <= n < 0x8000_0000 && ReadVarint(bytes) == Some((n, |bytes|))
    ensures |EncodeInt(n)| <= |bytes|
  {
    Step(n);
    if n >= 128 {
      EncodingIsMinimal(n / 128, bytes[1..]);
    }
  }

  /** No encoding is the beginning of another one. */
  lemma {:induction false} EncodingIsPrefixFree(m: int, n: int)
    requires 0 <= m < 0x8000_0000 && 0 <= n < 0x8000_0000 && EncodeInt(m) <= EncodeInt(n)
    ensures m == n
  {
    var rest := EncodeInt(n)[|EncodeInt(m)|..];
    assert EncodeInt(n) == EncodeInt(m) + rest && EncodeInt(n) + [] == EncodeInt(n);
    ReadsBack(m, rest);
    ReadsBack(n, []);
  }

  // ----- Messages ------------------------------------------------------------------------------------------------

  lemma FieldBytes(tag: byte, n: int, rest: seq<byte>)
    ensures n == 0 ==> Field(tag, n) + rest == rest
    ensures n != 0 ==> (Field(tag, n) + rest)[0] == tag && (Field(tag, n) + rest)[1..] == EncodeInt(n) + rest
  {
  }

  lemma ReadsFieldBack(tag: byte, n: int, rest: seq<byte>)
    requires InRange(n) && (rest == [] || rest[0] != tag)
    ensures ReadField(Field(tag, n) + rest, tag) == Some((n, rest))
  {
    FieldBytes(tag, n, rest);
    if n != 0 {
      ReadsBack(n, rest);
      var bytes, code := Field(tag, n) + rest, EncodeInt(n);
      assert bytes[1 + |code|..] == bytes[1..][|code|..] == rest;
    }
  }

  lemma MisreadsField(tag: byte, n: int, rest: seq<byte>)
    requires !InRange(n) && (rest == [] || rest[0] < 128)
    ensures
      var r := ReadField(Field(tag, n) + rest, tag);
      r.Some? ==> r.value.0 != n
  {
    FieldBytes(tag, n, rest);
    if n >= INT32_LIMIT {
      MisreadsOutOfRange(n, rest);
    }
  }

  /** A version is read back from its encoding if and only if both numbers are in [0, 2^31). */
  lemma VersionReadsBackIff(block: int, app: int)
    ensures ReadMessage(EncodeVersion(block, app)) == Some((block, app))
       <==> 0 <= block < 0x8000_0000 && 0 <= app < 0x8000_0000
  {
    var second := Field(0x10, app);
    assert second + [] == second;
    if InRange(block) {
      ReadsFieldBack(0x08, block, second);
      if InRange(app) {
        ReadsFieldBack(0x10, app, []);
      } else {
        MisreadsField(0x10, app, []);
      }
    } else {
      MisreadsField(0x08, block, second);
    }
  }

  /** How far the reader of an out-of-range integer gets: to the end of its encoding, or one byte
      further. */
  lemma MisreadLength(n: int, rest: seq<byte>)
    requires n >= INT32_LIMIT && (rest == [] || rest[0] < 128)
    ensures
      var r := ReadVarint(EncodeInt(n) + rest);
      r.Some? ==> r.value.1 == |EncodeInt(n)| || (rest != [] && r.value.1 == |EncodeInt(n)| + 1)
  {
    var m, bytes := ShiftRight7(n), EncodeInt(n) + rest;
    FirstByteOutOfRange(n, rest);
    if m >= 0 {
      ReadsBack(m, rest);
    } else {
      var tail := EncodeInt(m) + rest;
      assert tail[0] == LowByte(m) && tail[1..] == rest;
      assert rest != [] ==> ReadVarint(rest) == Some((rest[0] as nat, 1));
      assert ReadVarint(bytes).Some? ==> ReadVarint(tail).Some?;
    }
  }

  lemma SecondFieldAfterMisread(a: int, b: int)
    requires a >= INT32_LIMIT && InRange(b)
    ensures
      var r := ReadMessage(EncodeVersion(a, b));
      r.Some? ==> r.value.0 < INT32_LIMIT && r.value.1 == b
  {
    var code, second := EncodeInt(a), Field(0x10, b);
    var bytes := Field(0x08, a) + second;
    FieldBytes(0x08, a, second);
    MisreadsOutOfRange(a, second);
    MisreadLength(a, second);
    var r := ReadVarint(code + second);
    if r.Some? {
      var rest := bytes[1 + r.value.1..];
      assert rest == (code + second)[r.value.1..];
      assert ReadField(bytes, 0x08) == Some((r.value.0, rest));
      AfterMisread(code, b, r.value.1, rest);
    }
  }

  lemma AfterMisread(code: seq<byte>, b: int, length: nat, rest: seq<byte>)
    requires InRange(b) && length <= |code + Field(0x10, b)| && rest == (code + Field(0x10, b))[length..]
    requires length == |code| || (Field(0x10, b) != [] && length == |code| + 1)
    ensures
      var r := ReadField(rest, 0x10);
      r.Some? && r.value.1 == [] ==> r.value.0 == b
  {
    if length == |code| {
      assert rest == Field(0x10, b) == Field(0x10, b) + [];
      ReadsFieldBack(0x10, b, []);
    } else {
      assert rest == EncodeInt(b);
    }
  }

  /** A timestamp is read back from its encoding if and only if it is neither before 1970 nor 2^31 or
      more seconds after its beginning. */
  lemma TimeReadsBackIff(milliseconds: int, nanoseconds: int)
    requires 0 <= nanoseconds < 1_000_000
    ensures ReadTime(EncodeTime(milliseconds, nanoseconds)) == Some((milliseconds, nanoseconds))
       <==> 0 <= milliseconds < 1000 * 0x8000_0000
  {
    if milliseconds >= 0 {
      var seconds, nanos := milliseconds / 1000, nanoseconds + milliseconds % 1000 * 1_000_000;
      assert 0 <= nanos < 1_000_000_000;
      assert nanos / 1_000_000 == milliseconds % 1000 && nanos % 1_000_000 == nanoseconds;
      assert EncodeTime(milliseconds, nanoseconds) == EncodeVersion(seconds, nanos);
      if seconds < INT32_LIMIT {
        VersionReadsBackIff(seconds, nanos);
      } else {
        SecondFieldAfterMisread(seconds, nanos);
      }
    }
  }
}
