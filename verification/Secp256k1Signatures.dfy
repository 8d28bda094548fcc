/** `Secp256k1Signature` and `ExtendedSecp256k1Signature`
    (packages/iov-crypto/src/secp256k1signature.ts). */
module Secp256k1Signatures {
  import opened Results
  import opened BigEndian

  type Bytes = seq<byte>

  datatype Signature = Signature(r: Bytes, s: Bytes)

  datatype ExtendedSignature = ExtendedSignature(signature: Signature, recovery: nat)

  datatype SignatureError =
    | PrefixExpected
    | LengthMismatch
    | IntegerTagExpected
    | LengthNotSupported
    | InvalidR
    | InvalidS
    | InvalidDataLength
    | InvalidRecovery
    | LengthTooSmall

  const SEQUENCE_TAG: byte := 0x30
  const INTEGER_TAG: byte := 0x02

  // ----- Construction ------------------------------------------------------------------------------------

  /** An unsigned integer of at most 32 bytes without leading zeros. */
  predicate IsUnpadded(b: Bytes) {
    1 <= |b| <= 32 && b[0] != 0
  }

  predicate Valid(sig: Signature) {
    IsUnpadded(sig.r) && IsUnpadded(sig.s)
  }

  /** The constructor admits 4 although its message speaks of 0, 1, 2, 3. */
  predicate ValidExtended(sig: ExtendedSignature) {
    Valid(sig.signature) && sig.recovery <= 4
  }

  function NewSignature(r: Bytes, s: Bytes): Result<Signature, SignatureError> {
    if !IsUnpadded(r) then Err(InvalidR)
    else if !IsUnpadded(s) then Err(InvalidS)
    else Ok(Signature(r, s))
  }

  function NewExtended(r: Bytes, s: Bytes, recovery: nat): Result<ExtendedSignature, SignatureError> {
    var sig := NewSignature(r, s);
    if sig.Err? then Err(sig.error)
    else if recovery > 4 then Err(InvalidRecovery)
    else Ok(ExtendedSignature(sig.value, recovery))
  }

  function Trimmed(b: Bytes): Bytes {
    if b != [] && b[0] == 0 then Trimmed(b[1..]) else b
  }

  method TrimLeadingNullBytes(inData: Bytes) returns (out: Bytes)
    ensures out == Trimmed(inData)
  {
    var numberOfLeadingNullBytes := 0;
    for i := 0 to |inData|
      invariant numberOfLeadingNullBytes == i
      invariant Trimmed(inData) == Trimmed(inData[i..])
    {
      if inData[i] == 0 {
        numberOfLeadingNullBytes := numberOfLeadingNullBytes + 1;
      } else {
        break;
      }
    }
    out := inData[numberOfLeadingNullBytes..];
  }

  // ----- DER -----------------------------------------------------------------------------------------------

  /** Reading past the end gives `undefined`. */
  function At(data: Bytes, pos: nat): Option<byte> {
    if pos < |data| then Some(data[pos]) else None
  }

  /** `Uint8Array.slice`, which cuts at the end of the data. */
  function Slice(data: Bytes, from: nat, end: nat): Bytes
    requires from <= end
  {
    if end <= |data| then data[from..end] else if from <= |data| then data[from..] else []
  }

  /** Tag, length and content of an INTEGER, and the position after it. A missing length byte makes
      the content empty and the position undefined, so that nothing can be read there. */
  function ReadInteger(data: Bytes, pos: nat): Result<(Bytes, nat), SignatureError> {
    if At(data, pos) != Some(INTEGER_TAG) then Err(IntegerTagExpected)
    else
      match At(data, pos + 1)
      case None => Ok(([], |data|))
      case Some(length) =>
        if length >= 0x80 then Err(LengthNotSupported)
        else Ok((Slice(data, pos + 2, pos + 2 + length), pos + 2 + length))
  }

  function FromDer(data: Bytes): Result<Signature, SignatureError> {
    if At(data, 0) != Some(SEQUENCE_TAG) then Err(PrefixExpected)
    else if At(data, 1).None? || |data| - 2 != At(data, 1).value then Err(LengthMismatch)
    else
      var r := ReadInteger(data, 2);
      if r.Err? then Err(r.error)
      else
        var s := ReadInteger(data, r.value.1);
        if s.Err? then Err(s.error)
        else NewSignature(Trimmed(r.value.0), Trimmed(s.value.0))
  }

  /** The parser itself, which moves through the data position by position. */
  method ParseDer(data: Bytes) returns (result: Result<Signature, SignatureError>)
    ensures result == FromDer(data)
  {
    var pos := 0;
    if At(data, pos) != Some(SEQUENCE_TAG) {
      return Err(PrefixExpected);
    }
    pos := pos + 1;
    var bodyLength := At(data, pos);
    pos := pos + 1;
    if bodyLength.None? || |data| - pos != bodyLength.value {
      return Err(LengthMismatch);
    }
    var r := ReadInteger(data, pos);
    if r.Err? {
      return Err(r.error);
    }
    pos := r.value.1;
    var s := ReadInteger(data, pos);
    if s.Err? {
      return Err(s.error);
    }
    var rData := TrimLeadingNullBytes(r.value.0);
    var sData := TrimLeadingNullBytes(s.value.0);
    return NewSignature(rData, sData);
  }

  function DerInteger(b: Bytes): (r: Bytes)
    requires IsUnpadded(b)
    ensures 1 <= |r| <= 33
  {
    if b[0] >= 0x80 then [0] + b else b
  }

  /** SEQUENCE { INTEGER, INTEGER } with one-byte lengths. */
  function Frame(a: Bytes, b: Bytes): Bytes
    requires |a| + |b| + 4 < 256
  {
    [SEQUENCE_TAG, |a| + |b| + 4] + [INTEGER_TAG, |a|] + a + [INTEGER_TAG, |b|] + b
  }

  function ToDer(sig: Signature): Bytes
    requires Valid(sig)
  {
    Frame(DerInteger(sig.r), DerInteger(sig.s))
  }

  // ----- Fixed length -----------------------------------------------------------------------------------------

  function Padded(b: Bytes, length: nat): Result<Bytes, SignatureError> {
    if length < |b| then Err(LengthTooSmall) else Ok(Zeros(length - |b|) + b)
  }

  function FromFixedLength(data: Bytes): Result<Signature, SignatureError> {
    if |data| != 64 then Err(InvalidDataLength)
    else NewSignature(Trimmed(data[..32]), Trimmed(data[32..64]))
  }

  function ExtendedFromFixedLength(data: Bytes): Result<ExtendedSignature, SignatureError> {
    if |data| != 65 then Err(InvalidDataLength)
    else NewExtended(Trimmed(data[..32]), Trimmed(data[32..64]), data[64])
  }

  function FixedPair(sig: Signature): (b: Bytes)
    requires Valid(sig)
    ensures |b| == 64
  {
    Padded(sig.r, 32).value + Padded(sig.s, 32).value
  }

  function ToFixedLength(sig: ExtendedSignature): (b: Bytes)
    requires ValidExtended(sig)
    ensures |b| == 65
  {
    FixedPair(sig.signature) + [sig.recovery]
  }

  // ----- Trimming and padding -----------------------------------------------------------------------------------

  lemma {:induction false} TrimPads(b: Bytes)
    ensures |Trimmed(b)| <= |b| && b == Zeros(|b| - |Trimmed(b)|) + Trimmed(b)
    ensures Trimmed(b) == [] || Trimmed(b)[0] != 0
    ensures Trimmed(b) == [] <==> AllZero(b)
  {
    if b != [] && b[0] == 0 {
      TrimPads(b[1..]);
      assert b == [0] + b[1..];
      assert Zeros(|b| - |Trimmed(b)|) == [0] + Zeros(|b| - 1 - |Trimmed(b)|);
      assert AllZero(b) <==> AllZero(b[1..]);
    }
  }

  lemma {:induction false} TrimOfPadded(k: nat, b: Bytes)
    requires b != [] && b[0] != 0
    ensures Trimmed(Zeros(k) + b) == b
  {
    if k > 0 {
      assert (Zeros(k) + b)[1..] == Zeros(k - 1) + b;
      TrimOfPadded(k - 1, b);
    } else {
      assert Zeros(k) + b == b;
    }
  }

  lemma FixedLengthHalves(r: Bytes, s: Bytes, data: Bytes)
    requires IsUnpadded(r) && IsUnpadded(s)
    requires |data| >= 64 && data[..64] == Padded(r, 32).value + Padded(s, 32).value
    ensures Trimmed(data[..32]) == r && Trimmed(data[32..64]) == s
  {
    TrimOfPadded(32 - |r|, r);
    TrimOfPadded(32 - |s|, s);
    assert data[..32] == data[..64][..32] == Padded(r, 32).value;
    assert data[32..64] == data[..64][32..] == Padded(s, 32).value;
  }

  /** The fixed-length forms decode to what was encoded. */
  lemma FixedLengthRoundTrip(sig: Signature, recovery: nat)
    requires Valid(sig) && recovery <= 4
    ensures FromFixedLength(FixedPair(sig)) == Ok(sig)
    ensures ExtendedFromFixedLength(ToFixedLength(ExtendedSignature(sig, recovery)))
      == Ok(ExtendedSignature(sig, recovery))
  {
    var pair, all := FixedPair(sig), ToFixedLength(ExtendedSignature(sig, recovery));
    assert pair[..64] == pair && all[..64] == pair;
    FixedLengthHalves(sig.r, sig.s, pair);
    FixedLengthHalves(sig.r, sig.s, all);
  }

  /** Exactly the data of the right length with two non-zero integers, and a recovery parameter of at
      most 4, is accepted, and encoding gives the data back. */
  lemma FixedLengthAcceptsIff(data: Bytes)
    ensures FromFixedLength(data).Ok? <==> |data| == 64 && !AllZero(data[..32]) && !AllZero(data[32..64])
    ensures FromFixedLength(data).Ok? ==> FixedPair(FromFixedLength(data).value) == data
    ensures ExtendedFromFixedLength(data).Ok? <==>
      |data| == 65 && !AllZero(data[..32]) && !AllZero(data[32..64]) && data[64] <= 4
    ensures ExtendedFromFixedLength(data).Ok? ==> ToFixedLength(ExtendedFromFixedLength(data).value) == data
  {
    if |data| == 64 || |data| == 65 {
      HalvesGivenBack(data);
      assert |data| == 64 ==> data[..64] == data;
      assert |data| == 65 ==> data == data[..64] + [data[64]];
    }
  }

  lemma HalvesGivenBack(data: Bytes)
    requires |data| >= 64
    ensures
      var r, s := Trimmed(data[..32]), Trimmed(data[32..64]);
      && (IsUnpadded(r) <==> !AllZero(data[..32])) && (IsUnpadded(s) <==> !AllZero(data[32..64]))
      && (IsUnpadded(r) && IsUnpadded(s) ==> FixedPair(Signature(r, s)) == data[..64])
  {
    TrimPads(data[..32]);
    TrimPads(data[32..64]);
    assert data[..32] + data[32..64] == data[..64];
  }

  // ----- DER round trip --------------------------------------------------------------------------------------------

  /** Section 8.3 of ITU-T X.690: the first nine bits are not all equal; a non-negative INTEGER has its
      first bit clear. */
  predicate IsDerNonNegative(content: Bytes) {
    && content != []
    && content[0] < 0x80
    && (|content| > 1 && content[0] == 0 ==> content[1] >= 0x80)
  }

  lemma DerIntegerIsMinimal(b: Bytes)
    requires IsUnpadded(b)
    ensures IsDerNonNegative(DerInteger(b)) && Value(DerInteger(b)) == Value(b) && |DerInteger(b)| <= 33
    ensures Trimmed(DerInteger(b)) == b
  {
    LeadingZeros(1, b);
    assert Zeros(1) + b == [0] + b;
    TrimOfPadded(1, b);
    TrimOfPadded(0, b);
    assert Zeros(0) + b == b;
  }

  lemma DerIntegerOfTrimmed(content: Bytes)
    requires IsDerNonNegative(content) && IsUnpadded(Trimmed(content))
    ensures DerInteger(Trimmed(content)) == content
  {
    if content[0] == 0 {
      assert content == [0] + content[1..];
    }
  }

  /** Two INTEGERs, followed by any other bytes within the announced length. */
  function FrameThen(a: Bytes, b: Bytes, rest: Bytes): Bytes
    requires |a| + |b| + |rest| + 4 < 256
  {
    [SEQUENCE_TAG, |a| + |b| + |rest| + 4] + [INTEGER_TAG, |a|] + a + [INTEGER_TAG, |b|] + b + rest
  }

  lemma FrameThenNothing(a: Bytes, b: Bytes)
    requires |a| + |b| + 4 < 256
    ensures FrameThen(a, b, []) == Frame(a, b)
  {
  }

  lemma ReadsAt(data: Bytes, pos: nat, content: Bytes)
    requires pos + 2 + |content| <= |data| && |content| < 0x80
    requires data[pos] == INTEGER_TAG && data[pos + 1] == |content| && data[pos + 2..pos + 2 + |content|] == content
    ensures ReadInteger(data, pos) == Ok((content, pos + 2 + |content|))
  {
  }

  lemma FrameLayout(a: Bytes, b: Bytes, rest: Bytes)
    requires |a| + |b| + |rest| + 4 < 256
    ensures
      var data := FrameThen(a, b, rest);
      && |data| == |a| + |b| + |rest| + 6
      && data[0] == SEQUENCE_TAG && data[1] == |data| - 2
      && data[2] == INTEGER_TAG && data[3] == |a| && data[4..4 + |a|] == a
      && data[4 + |a|] == INTEGER_TAG && data[5 + |a|] == |b| && data[6 + |a|..6 + |a| + |b|] == b
  {
    var data := FrameThen(a, b, rest);
    var front := [SEQUENCE_TAG, |a| + |b| + |rest| + 4] + [INTEGER_TAG, |a|] + a;
    assert data == front + ([INTEGER_TAG, |b|] + b + rest);
    assert front[4..4 + |a|] == a;
  }

  lemma ParsesLayout(data: Bytes, a: Bytes, b: Bytes)
    requires |a| < 0x80 && |b| < 0x80 && 6 + |a| + |b| <= |data|
    requires data[0] == SEQUENCE_TAG && data[1] as int == |data| - 2
    requires data[2] == INTEGER_TAG && data[3] == |a| && data[4..4 + |a|] == a
    requires data[4 + |a|] == INTEGER_TAG && data[5 + |a|] == |b| && data[6 + |a|..6 + |a| + |b|] == b
    ensures FromDer(data) == NewSignature(Trimmed(a), Trimmed(b))
  {
    ReadsAt(data, 2, a);
    ReadsAt(data, 4 + |a|, b);
  }

  lemma ParsesFrame(a: Bytes, b: Bytes, rest: Bytes)
    requires |a| < 0x80 && |b| < 0x80 && |a| + |b| + |rest| + 4 < 256
    ensures FromDer(FrameThen(a, b, rest)) == NewSignature(Trimmed(a), Trimmed(b))
  {
    FrameLayout(a, b, rest);
    ParsesLayout(FrameThen(a, b, rest), a, b);
  }

  /** Decoding an encoded signature gives the signature, for every valid signature. */
  lemma DerRoundTrip(sig: Signature)
    requires Valid(sig)
    ensures FromDer(ToDer(sig)) == Ok(sig)
  {
    var a, b := DerInteger(sig.r), DerInteger(sig.s);
    DerIntegerIsMinimal(sig.r);
    DerIntegerIsMinimal(sig.s);
    ParsesFrame(a, b, []);
    FrameThenNothing(a, b);
  }

  /** Data as section 2.2.3 of RFC 3279 asks for it: two minimal non-negative INTEGERs that fill the
      sequence. */
  ghost predicate IsStrictDer(data: Bytes) {
    exists a: Bytes, b: Bytes ::
      IsEncodingOf(data, a, b)
  }

  /** A SEQUENCE of two INTEGERs with these contents, byte by byte. */
  ghost predicate IsEncodingOf(data: Bytes, a: Bytes, b: Bytes) {
    && |a| <= 33 && |b| <= 33 && IsDerNonNegative(a) && IsDerNonNegative(b)
    && data == [0x30, |a| + |b| + 4, 0x02, |a|] + a + [0x02, |b|] + b
  }

  lemma FrameBytes(a: Bytes, b: Bytes)
    requires |a| + |b| + 4 < 256
    ensures Frame(a, b) == [0x30, |a| + |b| + 4, 0x02, |a|] + a + [0x02, |b|] + b
  {
  }

  /** What is encoded is strict DER with both integers unchanged in value, and every length in it fits
      the one-byte form. */
  lemma {:induction false} EncodesStrictDer(sig: Signature)
    requires Valid(sig)
    ensures IsStrictDer(ToDer(sig))
    ensures exists a: Bytes, b: Bytes ::
      && IsEncodingOf(ToDer(sig), a, b) && Value(a) == Value(sig.r) && Value(b) == Value(sig.s)
      && |a| < 0x80 && |b| < 0x80 && |ToDer(sig)| - 2 < 0x80
  {
    var a, b := DerInteger(sig.r), DerInteger(sig.s);
    DerIntegerIsMinimal(sig.r);
    DerIntegerIsMinimal(sig.s);
    FrameBytes(a, b);
    assert IsEncodingOf(ToDer(sig), a, b);
  }

  /** Of the data it accepts, the decoder inverts the encoder exactly on strict DER. */
  lemma {:induction false} EncodingGivesBackIff(data: Bytes)
    requires FromDer(data).Ok?
    ensures ToDer(FromDer(data).value) == data <==> IsStrictDer(data)
  {
    var sig := FromDer(data).value;
    if ToDer(sig) == data {
      EncodesStrictDer(sig);
    }
    if IsStrictDer(data) {
      var a: Bytes, b: Bytes :| IsEncodingOf(data, a, b);
      FrameBytes(a, b);
      ParsesFrame(a, b, []);
      FrameThenNothing(a, b);
      DerIntegerOfTrimmed(a);
      DerIntegerOfTrimmed(b);
    }
  }

  /** The decoder is lenient: bytes after the second integer and extra leading zeros are accepted and
      forgotten. */
  lemma AcceptsTrailingBytesAndZeros(sig: Signature, zeros: nat, rest: Bytes)
    requires Valid(sig) && zeros + |rest| <= 64
    ensures FromDer(FrameThen(Zeros(zeros) + sig.r, sig.s, rest)) == Ok(sig)
  {
    ParsesFrame(Zeros(zeros) + sig.r, sig.s, rest);
    TrimOfPadded(zeros, sig.r);
    TrimOfPadded(0, sig.s);
    assert Zeros(0) + sig.s == sig.s;
  }

  // ----- What the decoder accepts -----------------------------------------------------------------------------------

  /** An INTEGER starts at the position: its tag, a length below 128 and as much content as there is. */
  ghost predicate IntegerAt(data: Bytes, pos: nat, content: Bytes) {
    && pos + 1 < |data| && data[pos] == 0x02 && data[pos + 1] < 0x80
    && content == if pos + 2 + data[pos + 1] <= |data| then data[pos + 2..pos + 2 + data[pos + 1]] else data[pos + 2..]
  }

  /** Two INTEGERs follow the announced length, and both are positive numbers below 256^32. */
  ghost predicate IsReadable(data: Bytes, r: Bytes, s: Bytes) {
    && |data| >= 2 && data[0] == 0x30 && data[1] as int == |data| - 2
    && IntegerAt(data, 2, r) && IntegerAt(data, 4 + data[3], s)
    && 0 < Value(r) < Pow256(32) && 0 < Value(s) < Pow256(32)
  }

  /** A number without leading zeros fits k bytes if and only if it has at most k. */
  lemma FitsIff(t: Bytes, k: nat)
    requires t != [] && t[0] != 0
    ensures |t| <= k <==> Value(t) < Pow256(k)
    ensures Value(t) > 0
  {
    ValueBound(t);
    LeadingByteCounts(t);
    if |t| <= k {
      PowersGrow(|t|, k);
    } else {
      PowersGrow(k, |t| - 1);
    }
  }

  lemma TrimmedValue(b: Bytes)
    ensures Value(Trimmed(b)) == Value(b)
    ensures Trimmed(b) == [] <==> Value(b) == 0
  {
    TrimPads(b);
    LeadingZeros(|b| - |Trimmed(b)|, Trimmed(b));
    ZeroIffAllZero(b);
  }

  lemma TrimmedFits(b: Bytes)
    ensures IsUnpadded(Trimmed(b)) <==> 0 < Value(b) < Pow256(32)
    ensures Value(Trimmed(b)) == Value(b)
  {
    TrimmedValue(b);
    TrimPads(b);
    if Trimmed(b) != [] {
      FitsIff(Trimmed(b), 32);
    }
  }

  lemma ReadsIntegerAt(data: Bytes, pos: nat)
    ensures ReadInteger(data, pos).Err? <==>
      pos >= |data| || data[pos] != 0x02 || (pos + 1 < |data| && data[pos + 1] >= 0x80)
    ensures forall content: Bytes | IntegerAt(data, pos, content) ::
      ReadInteger(data, pos) == Ok((content, pos + 2 + data[pos + 1]))
    ensures pos + 1 == |data| && data[pos] == 0x02 ==> ReadInteger(data, pos) == Ok(([], |data|))
  {
  }

  /** The content of an INTEGER that can be read. */
  ghost function ContentAt(data: Bytes, pos: nat): (content: Bytes)
    requires pos + 1 < |data| && data[pos] == 0x02 && data[pos + 1] < 0x80
    ensures IntegerAt(data, pos, content)
  {
    if pos + 2 + data[pos + 1] <= |data| then data[pos + 2..pos + 2 + data[pos + 1]] else data[pos + 2..]
  }

  lemma NewSignatureIff(r: Bytes, s: Bytes)
    ensures
      var sig := NewSignature(Trimmed(r), Trimmed(s));
      && (sig.Ok? <==> 0 < Value(r) < Pow256(32) && 0 < Value(s) < Pow256(32))
      && (sig.Ok? ==> Value(sig.value.r) == Value(r) && Value(sig.value.s) == Value(s))
  {
    TrimmedFits(r);
    TrimmedFits(s);
  }

  /** Data that can be read gives the signature with the two numbers. */
  lemma ReadableIsAccepted(data: Bytes, r: Bytes, s: Bytes)
    requires IsReadable(data, r, s)
    ensures FromDer(data).Ok?
    ensures Value(FromDer(data).value.r) == Value(r) && Value(FromDer(data).value.s) == Value(s)
  {
    ReadsIntegerAt(data, 2);
    ReadsIntegerAt(data, 4 + data[3]);
    NewSignatureIff(r, s);
  }

  /** What the decoder reads before it looks at the numbers. */
  lemma ReadsBoth(data: Bytes) returns (r: Bytes, s: Bytes)
    requires FromDer(data).Ok?
    ensures |data| >= 2 && data[0] == 0x30 && data[1] as int == |data| - 2
    ensures FromDer(data) == NewSignature(Trimmed(r), Trimmed(s))
    ensures s == [] || (IntegerAt(data, 2, r) && IntegerAt(data, 4 + data[3], s))
  {
    ReadsIntegerAt(data, 2);
    var first := ReadInteger(data, 2).value;
    ReadsIntegerAt(data, first.1);
    r, s := first.0, ReadInteger(data, first.1).value.0;
  }

  lemma AcceptedIsReadable(data: Bytes) returns (r: Bytes, s: Bytes)
    requires FromDer(data).Ok?
    ensures IsReadable(data, r, s)
  {
    r, s := ReadsBoth(data);
    NewSignatureIff(r, s);
  }

  /** The decoder accepts data if and only if it is a SEQUENCE tag and the length of the rest, followed by two
      INTEGERs with positive values below 256^32; the second may be cut off or followed by other bytes. */
  lemma AcceptsIff(data: Bytes)
    ensures FromDer(data).Ok? <==> exists r: Bytes, s: Bytes :: IsReadable(data, r, s)
  {
    if FromDer(data).Ok? {
      var r, s := AcceptedIsReadable(data);
    }
    if r: Bytes, s: Bytes :| IsReadable(data, r, s) {
      ReadableIsAccepted(data, r, s);
    }
  }

  /** Which error the frame gives. */
  lemma FrameErrors(data: Bytes)
    ensures FromDer(data) == Err(PrefixExpected) <==> |data| == 0 || data[0] != 0x30
    ensures FromDer(data) == Err(LengthMismatch) <==>
      |data| > 0 && data[0] == 0x30 && (|data| == 1 || data[1] as int != |data| - 2)
    ensures |data| > 2 && data[0] == 0x30 && data[1] as int == |data| - 2 && data[2] != 0x02 ==>
      FromDer(data) == Err(IntegerTagExpected)
    ensures |data| > 3 && data[0] == 0x30 && data[1] as int == |data| - 2 && data[2] == 0x02 && data[3] >= 0x80 ==>
      FromDer(data) == Err(LengthNotSupported)
  {
  }

  // ----- What the fixed-length forms say ---------------------------------------------------------------------------

  lemma HalvesAreNumbers(data: Bytes)
    requires |data| >= 64
    ensures
      var sig := NewSignature(Trimmed(data[..32]), Trimmed(data[32..64]));
      && (sig == Err(InvalidR) <==> Value(data[..32]) == 0)
      && (sig == Err(InvalidS) <==> Value(data[..32]) != 0 && Value(data[32..64]) == 0)
      && (sig.Ok? <==> Value(data[..32]) != 0 && Value(data[32..64]) != 0)
      && (sig.Ok? ==> Value(sig.value.r) == Value(data[..32]) && Value(sig.value.s) == Value(data[32..64]))
  {
    TrimmedFits(data[..32]);
    TrimmedFits(data[32..64]);
    ValueBound(data[..32]);
    ValueBound(data[32..64]);
  }

  /** What fixed-length data decodes to: its two 32-byte numbers, or which error. */
  lemma FixedLengthNumbers(data: Bytes)
    ensures FromFixedLength(data) == Err(InvalidDataLength) <==> |data| != 64
    ensures |data| == 64 ==>
      && (FromFixedLength(data) == Err(InvalidR) <==> Value(data[..32]) == 0)
      && (FromFixedLength(data) == Err(InvalidS) <==> Value(data[..32]) != 0 && Value(data[32..]) == 0)
    ensures FromFixedLength(data).Ok? ==>
      var sig := FromFixedLength(data).value;
      Value(sig.r) == Value(data[..32]) && Value(sig.s) == Value(data[32..])
  {
    if |data| == 64 {
      HalvesAreNumbers(data);
      assert data[32..64] == data[32..];
    }
  }

  /** The extended form carries one byte more. */
  lemma ExtendedNumbers(data: Bytes)
    ensures ExtendedFromFixedLength(data) == Err(InvalidDataLength) <==> |data| != 65
    ensures |data| == 65 ==>
      var result := ExtendedFromFixedLength(data);
      && (result == Err(InvalidR) <==> Value(data[..32]) == 0)
      && (result == Err(InvalidS) <==> Value(data[..32]) != 0 && Value(data[32..64]) == 0)
      && (result == Err(InvalidRecovery) <==>
          Value(data[..32]) != 0 && Value(data[32..64]) != 0 && data[64] > 4)
      && (result.Ok? ==>
          && Value(result.value.signature.r) == Value(data[..32])
          && Value(result.value.signature.s) == Value(data[32..64])
          && result.value.recovery == data[64])
  {
    if |data| == 65 {
      HalvesAreNumbers(data);
    }
  }

  /** Padding to a length keeps the number, and is refused exactly when the bytes are too many. */
  lemma PaddingKeepsTheNumber(b: Bytes, length: nat)
    ensures Padded(b, length) == Err(LengthTooSmall) <==> length < |b|
    ensures Padded(b, length).Ok? <==> |b| <= length
    ensures |b| <= length ==> |Padded(b, length).value| == length && Value(Padded(b, length).value) == Value(b)
  {
    if |b| <= length {
      LeadingZeros(length - |b|, b);
    }
  }
}
