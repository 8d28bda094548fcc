/** `Decimal` (packages/iov-encoding/src/decimal.ts). */
module DecimalNumbers {
  import opened Results
  import opened Digits

  const MAX_FRACTIONAL_DIGITS := 100

  /** Stands for atomics / 10^fractionalDigits. */
  datatype Decimal = Decimal(atomics: nat, fractionalDigits: nat)

  datatype DecimalError =
    | NegativeFractionalDigits
    | TooManyFractionalDigitsRequested
    | InvalidCharacter(position: nat)
    | FractionalPartMissing
    | MoreThanOneSeparator
    | MoreFractionalDigitsThanSupported
    | FractionalDigitsDoNotMatch

  predicate Acceptable(c: char) {
    IsDigit(c) || c == '.'
  }

  /** The position of the first character that is neither a digit nor a point. */
  function FirstBad(s: string): (i: nat)
    ensures i <= |s| && forall j | 0 <= j < i :: Acceptable(s[j])
    ensures i < |s| ==> !Acceptable(s[i])
  {
    if s == [] || !Acceptable(s[0]) then 0 else 1 + FirstBad(s[1..])
  }

  function FirstPoint(s: string): (i: nat)
    ensures i <= |s| && forall j | 0 <= j < i :: s[j] != '.'
    ensures i < |s| ==> s[i] == '.'
  {
    if s == [] || s[0] == '.' then 0 else 1 + FirstPoint(s[1..])
  }

  function FromParts(whole: string, fractional: string, fractionalDigits: nat): Result<Decimal, DecimalError>
    requires AllDigits(whole) && AllDigits(fractional)
  {
    if |fractional| > fractionalDigits then Err(MoreFractionalDigitsThanSupported)
    else Ok(Decimal(ParseNat(whole + PadEnd(fractional, fractionalDigits)), fractionalDigits))
  }

  function FromUserInput(input: string, fractionalDigits: int): Result<Decimal, DecimalError> {
    if fractionalDigits < 0 then Err(NegativeFractionalDigits)
    else if fractionalDigits > MAX_FRACTIONAL_DIGITS then Err(TooManyFractionalDigitsRequested)
    else if FirstBad(input) < |input| then Err(InvalidCharacter(FirstBad(input) + 1))
    else
      var point := FirstPoint(input);
      if point == |input| then FromParts(input, "", fractionalDigits)
      else
        var whole, fractional := input[..point], input[point + 1..];
        if FirstPoint(fractional) < |fractional| then Err(MoreThanOneSeparator)
        else if fractional == "" then Err(FractionalPartMissing)
        else
          assert forall j | 0 <= j < |fractional| :: fractional[j] == input[point + 1 + j];
          TrimThenPad(fractional);
          FromParts(whole, TrimZeros(fractional), fractionalDigits)
  }

  function Text(whole: nat, fractional: nat, fractionalDigits: nat): string {
    if fractional == 0 then PrintNat(whole)
    else PrintNat(whole) + "." + TrimZeros(PadStart(PrintNat(fractional), fractionalDigits))
  }

  function ToString(d: Decimal): string {
    var factor := Pow10(d.fractionalDigits);
    Text(Quotient(d.atomics, factor), Residue(d.atomics, factor), d.fractionalDigits)
  }

  function Plus(a: Decimal, b: Decimal): Result<Decimal, DecimalError> {
    if a.fractionalDigits != b.fractionalDigits then Err(FractionalDigitsDoNotMatch)
    else
      ParsePrint(b.atomics);
      var sum := a.atomics + ParseNat(PrintNat(b.atomics));
      ParsePrint(sum);
      Ok(Decimal(ParseNat(PrintNat(sum)), a.fractionalDigits))
  }

  // ----- Printing and parsing undo each other -------------------------------------------------

  lemma TrimNonZero(s: string)
    requires AllDigits(s) && ParseNat(s) > 0
    ensures TrimZeros(s) != []
  {
    TrimThenPad(s);
    if TrimZeros(s) == [] {
      assert s == Zeros(|s|);
      ParseZeros(|s|);
    }
  }

  lemma FractionPrinted(fractional: nat, k: nat)
    requires 0 < fractional < Pow10(k)
    ensures
      var padded := PadStart(PrintNat(fractional), k);
      |padded| == k && AllDigits(padded) && ParseNat(padded) == fractional
  {
    assert k >= 1;
    PrintLength(fractional, k);
    ParsePrint(fractional);
    ParsePadded(PrintNat(fractional), k);
  }

  lemma ParsesParts(whole: string, t: string, k: nat)
    requires AllDigits(whole) && AllDigits(t) && t != [] && k <= MAX_FRACTIONAL_DIGITS
    ensures AllDigits(TrimZeros(t))
    ensures FromUserInput(whole + "." + t, k) == FromParts(whole, TrimZeros(t), k)
  {
    var s, point := whole + "." + t, |whole|;
    TrimThenPad(t);
    assert s[point] == '.' && s[..point] == whole && s[point + 1..] == t;
    forall i | 0 <= i < |s|
      ensures Acceptable(s[i])
    {
      assert s[i] == if i < point then whole[i] else if i == point then '.' else t[i - point - 1];
    }
    assert FirstBad(s) == |s| && FirstPoint(s) == point && FirstPoint(t) == |t|;
  }

  lemma ParsesInteger(whole: string, k: nat)
    requires AllDigits(whole) && k <= MAX_FRACTIONAL_DIGITS
    ensures FromUserInput(whole, k) == FromParts(whole, "", k)
  {
    assert FirstBad(whole) == |whole| && FirstPoint(whole) == |whole|;
  }

  lemma IntegerPrinted(whole: nat, k: nat)
    requires k <= MAX_FRACTIONAL_DIGITS
    ensures FromUserInput(PrintNat(whole), k) == Ok(Decimal(TimesPow10(whole, k), k))
  {
    var digits := PrintNat(whole);
    ParsePrint(whole);
    ParsesInteger(digits, k);
    ParseConcatenation(digits, Zeros(k));
    ParseZeros(k);
    assert PadEnd("", k) == Zeros(k);
  }

  lemma TrimmedParts(digits: string, padded: string, d: Decimal)
    requires AllDigits(digits) && AllDigits(padded) && AllDigits(digits + padded)
    requires |padded| == d.fractionalDigits <= MAX_FRACTIONAL_DIGITS && ParseNat(padded) > 0
    requires d.atomics == ParseNat(digits + padded)
    ensures FromUserInput(digits + "." + TrimZeros(padded), d.fractionalDigits) == Ok(d)
  {
    TrimThenPad(padded);
    TrimNonZero(padded);
    TrimAgain(padded);
    ParsesParts(digits, TrimZeros(padded), d.fractionalDigits);
  }

  lemma FractionReadBack(whole: nat, padded: string, d: Decimal)
    requires AllDigits(padded) && |padded| == d.fractionalDigits <= MAX_FRACTIONAL_DIGITS && ParseNat(padded) > 0
    requires d.atomics == TimesPow10(whole, d.fractionalDigits) + ParseNat(padded)
    ensures FromUserInput(PrintNat(whole) + "." + TrimZeros(padded), d.fractionalDigits) == Ok(d)
  {
    ParsePrint(whole);
    ParseConcatenation(PrintNat(whole), padded);
    TrimmedParts(PrintNat(whole), padded, d);
  }

  lemma TrimAgain(s: string)
    requires AllDigits(s)
    ensures AllDigits(TrimZeros(s)) && TrimZeros(TrimZeros(s)) == TrimZeros(s)
  {
    TrimThenPad(s);
    assert forall i | 0 <= i < |TrimZeros(s)| :: TrimZeros(s)[i] == s[i];
  }

  /** Reading back a printed decimal gives the decimal. */
  lemma PrintThenParse(d: Decimal)
    requires d.fractionalDigits <= 100
    ensures FromUserInput(ToString(d), d.fractionalDigits) == Ok(d)
  {
    var k := d.fractionalDigits;
    var whole, fractional := Quotient(d.atomics, Pow10(k)), Residue(d.atomics, Pow10(k));
    Division(d.atomics, k);
    if fractional == 0 {
      IntegerPrinted(whole, k);
    } else {
      FractionPrinted(fractional, k);
      FractionReadBack(whole, PadStart(PrintNat(fractional), k), d);
    }
  }

  // ----- Accepted inputs keep their exact value --------------------------------------------------

  ghost function Whole(input: string): string {
    input[..FirstPoint(input)]
  }

  ghost function Fraction(input: string): string {
    var point := FirstPoint(input);
    if point == |input| then "" else input[point + 1..]
  }

  /** Digits with at most one point, which digits follow. */
  ghost predicate IsNumeral(input: string) {
    && AllDigits(Whole(input)) && AllDigits(Fraction(input))
    && (FirstPoint(input) < |input| ==> Fraction(input) != "")
  }

  /** A numeral stands for Numerator / 10^Scale. */
  ghost function Numerator(input: string): nat
    requires IsNumeral(input)
  {
    ParseConcatenation(Whole(input), Fraction(input));
    ParseNat(Whole(input) + Fraction(input))
  }

  ghost function Scale(input: string): nat {
    |Fraction(input)|
  }

  /** The numeral times 10^fractionalDigits is the integer q. */
  ghost predicate Represents(input: string, fractionalDigits: nat, q: nat)
    requires IsNumeral(input)
  {
    TimesPow10(q, Scale(input)) == TimesPow10(Numerator(input), fractionalDigits)
  }

  lemma {:induction false} SyntaxErrors(input: string, fractionalDigits: int)
    requires 0 <= fractionalDigits <= 100
    ensures FromUserInput(input, fractionalDigits).Ok? ==> IsNumeral(input)
    ensures IsNumeral(input) ==>
      var r := FromUserInput(input, fractionalDigits);
      r.Ok? || r.error == MoreFractionalDigitsThanSupported
  {
    var point := FirstPoint(input);
    if point < |input| {
      var fractional := input[point + 1..];
      if FirstBad(input) == |input| && FirstPoint(fractional) == |fractional| {
        assert AllDigits(fractional);
      }
    }
    if IsNumeral(input) {
      forall i | 0 <= i < |input|
        ensures Acceptable(input[i])
      {
        assert input[i] ==
          if i < point then input[..point][i] else if i == point then '.' else input[point + 1..][i - point - 1];
      }
    }
  }

  /** The first character that is neither a digit nor a point, if there is one. */
  ghost predicate IsFirstBad(input: string, p: nat) {
    && p < |input| && !('0' <= input[p] <= '9') && input[p] != '.'
    && forall j | 0 <= j < p :: '0' <= input[j] <= '9' || input[j] == '.'
  }

  /** The number of fractional digits is checked first, then the characters, then the points. */
  lemma ParseErrors(input: string, fractionalDigits: int)
    ensures
      var r := FromUserInput(input, fractionalDigits);
      && (r == Err(NegativeFractionalDigits) <==> fractionalDigits < 0)
      && (r == Err(TooManyFractionalDigitsRequested) <==> fractionalDigits > 100)
      && (forall p: nat | 0 <= fractionalDigits <= 100 && IsFirstBad(input, p) :: r == Err(InvalidCharacter(p + 1)))
      && (r.Err? && r.error.InvalidCharacter? ==> exists p: nat :: IsFirstBad(input, p))
  {
    var p := FirstBad(input);
    if p < |input| {
      assert IsFirstBad(input, p);
    }
  }

  /** One point must have digits behind it, and there may be only one. */
  lemma PointErrors(a: string, b: string, c: string, fractionalDigits: int)
    requires 0 <= fractionalDigits <= 100 && AllDigits(a) && AllDigits(b)
    requires forall i | 0 <= i < |c| :: '0' <= c[i] <= '9' || c[i] == '.'
    ensures FromUserInput(a + ".", fractionalDigits) == Err(FractionalPartMissing)
    ensures FromUserInput(a + "." + b + "." + c, fractionalDigits) == Err(MoreThanOneSeparator)
  {
    var one, two := a + ".", a + "." + b + "." + c;
    assert one[|a|] == '.';
    assert forall i | 0 <= i < |a| :: one[i] == a[i] && two[i] == a[i] && IsDigit(a[i]);
    assert FirstBad(one) == |one|;
    assert FirstPoint(one) == |a|;
    assert one[|a| + 1..] == "";
    assert two[|a|] == '.' && two[|a| + 1..] == b + "." + c;
    forall i | 0 <= i < |two|
      ensures Acceptable(two[i])
    {
      if i > |a| {
        assert two[i] == (b + "." + c)[i - |a| - 1];
      }
    }
    assert FirstPoint(two) == |a|;
    assert (b + "." + c)[|b|] == '.';
    assert FirstPoint(b + "." + c) == |b|;
  }

  lemma TrimmedDigits(s: string)
    requires AllDigits(s)
    ensures AllDigits(TrimZeros(s)) && |TrimZeros(s)| <= |s|
    ensures s == TrimZeros(s) + Zeros(|s| - |TrimZeros(s)|)
  {
    TrimThenPad(s);
    var t := TrimZeros(s);
    assert forall i | 0 <= i < |t| :: t[i] == s[i];
    if |t| == |s| {
      assert t + Zeros(0) == t;
    }
  }

  lemma ParseThenZeros(s: string, m: nat)
    requires AllDigits(s)
    ensures AllDigits(s + Zeros(m)) && ParseNat(s + Zeros(m)) == TimesPow10(ParseNat(s), m)
  {
    ParseConcatenation(s, Zeros(m));
    ParseZeros(m);
  }

  /** The value of a numeral in terms of its parts without the trailing zeros of the fraction. */
  lemma TrimmedValue(whole: string, fractional: string)
    requires AllDigits(whole) && AllDigits(fractional)
    ensures
      var t := TrimZeros(fractional);
      && |t| <= |fractional| && AllDigits(t) && AllDigits(whole + t) && AllDigits(whole + fractional)
      && ParseNat(whole + fractional) == TimesPow10(ParseNat(whole + t), |fractional| - |t|)
  {
    var t := TrimZeros(fractional);
    TrimmedDigits(fractional);
    ParseConcatenation(whole, t);
    ParseThenZeros(whole + t, |fractional| - |t|);
    assert whole + fractional == (whole + t) + Zeros(|fractional| - |t|);
  }

  lemma AcceptedValue(whole: string, t: string, m: nat, k: nat)
    requires AllDigits(whole) && AllDigits(t) && |t| <= k
    ensures AllDigits(whole + t) && AllDigits(whole + PadEnd(t, k))
    ensures TimesPow10(ParseNat(whole + PadEnd(t, k)), |t| + m) == TimesPow10(TimesPow10(ParseNat(whole + t), m), k)
  {
    ParseConcatenation(whole, t);
    var p := ParseNat(whole + t);
    ParseThenZeros(whole + t, k - |t|);
    assert whole + PadEnd(t, k) == (whole + t) + Zeros(k - |t|);
    TimesCompose(p, k - |t|, |t| + m);
    TimesCompose(p, m, k);
  }

  lemma NotRepresentable(p: nat, e: nat, m: nat, k: nat, q: nat)
    requires e > k && p % 10 != 0
    ensures TimesPow10(q, e + m) != TimesPow10(TimesPow10(p, m), k)
  {
    var x := TimesPow10(q, e - k - 1);
    TimesCompose(p, m, k);
    TimesCompose(q, e - k, m + k);
    assert TimesPow10(q, e - k) == 10 * x;
    if TimesPow10(10 * x, m + k) == TimesPow10(p, m + k) {
      TimesIsInjective(10 * x, p, m + k);
    }
  }

  /** A numeral is accepted if and only if it denotes a multiple of 10^-fractionalDigits, and then the
      result has exactly the value of the numeral. */
  lemma AcceptsExactlyTheRepresentable(input: string, fractionalDigits: int)
    requires 0 <= fractionalDigits <= 100 && IsNumeral(input)
    ensures
      var r := FromUserInput(input, fractionalDigits);
      && (r.Ok? ==> r.value.fractionalDigits == fractionalDigits)
      && (r.Ok? ==> Represents(input, fractionalDigits, r.value.atomics))
      && (r.Err? ==> r.error == MoreFractionalDigitsThanSupported)
      && (r.Err? ==> forall q :: !Represents(input, fractionalDigits, q))
  {
    var k, whole, fractional := fractionalDigits as nat, Whole(input), Fraction(input);
    ParsesNumeral(input, k);
    PartsAreExact(whole, fractional, k, 0);
    forall q: nat
      ensures FromUserInput(input, k).Err? ==> !Represents(input, k, q)
    {
      PartsAreExact(whole, fractional, k, q);
    }
  }

  lemma ParsesNumeral(input: string, k: nat)
    requires k <= MAX_FRACTIONAL_DIGITS && IsNumeral(input)
    ensures AllDigits(TrimZeros(Fraction(input)))
    ensures FromUserInput(input, k) == FromParts(Whole(input), TrimZeros(Fraction(input)), k)
  {
    if FirstPoint(input) == |input| {
      assert Whole(input) == input;
      ParsesInteger(input, k);
    } else {
      assert input == Whole(input) + "." + Fraction(input);
      ParsesParts(Whole(input), Fraction(input), k);
    }
  }

  lemma PartsAreExact(whole: string, fractional: string, k: nat, q: nat)
    requires AllDigits(whole) && AllDigits(fractional) && AllDigits(TrimZeros(fractional))
    ensures AllDigits(whole + fractional)
    ensures
      var r, n, e := FromParts(whole, TrimZeros(fractional), k), ParseNat(whole + fractional), |fractional|;
      && (r.Ok? ==> r.value.fractionalDigits == k && TimesPow10(r.value.atomics, e) == TimesPow10(n, k))
      && (r.Err? ==> TimesPow10(q, e) != TimesPow10(n, k))
  {
    var t := TrimZeros(fractional);
    var m := |fractional| - |t|;
    TrimmedValue(whole, fractional);
    if |t| <= k {
      AcceptedValue(whole, t, m, k);
    } else {
      LastDigit(whole, fractional);
      NotRepresentable(ParseNat(whole + t), |t|, m, k, q);
    }
  }

  lemma LastDigit(whole: string, fractional: string)
    requires TrimZeros(fractional) != [] && AllDigits(whole + TrimZeros(fractional))
    ensures ParseNat(whole + TrimZeros(fractional)) % 10 != 0
  {
    TrimThenPad(fractional);
    var s := whole + TrimZeros(fractional);
    assert s[|s| - 1] != '0';
  }

  // ----- The form of the text ----------------------------------------------------------------------------

  lemma {:induction false} NoLeadingZero(n: nat)
    ensures PrintNat(n)[0] == '0' ==> n == 0 && |PrintNat(n)| == 1
    ensures AllDigits(PrintNat(n))
  {
    ParsePrint(n);
    if n >= 10 {
      NoLeadingZero(n / 10);
    }
  }

  /** The text is a numeral without superfluous zeros: it begins with 0 only before the point or alone, and a
      fraction does not end with 0. */
  lemma PrintsNoExtraZeros(d: Decimal)
    requires d.fractionalDigits <= 100
    ensures
      var s := ToString(d);
      && IsNumeral(s) && FirstPoint(s) > 0
      && (s[0] == '0' ==> FirstPoint(s) == 1)
      && (FirstPoint(s) < |s| ==> s[|s| - 1] != '0')
  {
    var s, k := ToString(d), d.fractionalDigits;
    var whole, fractional := Quotient(d.atomics, Pow10(k)), Residue(d.atomics, Pow10(k));
    PrintThenParse(d);
    SyntaxErrors(s, k);
    NoLeadingZero(whole);
    if fractional == 0 {
      assert FirstPoint(s) == |s|;
    } else {
      FractionPrinted(fractional, k);
      var padded := PadStart(PrintNat(fractional), k);
      TrimThenPad(padded);
      TrimNonZero(padded);
      assert s[|PrintNat(whole)|] == '.';
      assert FirstPoint(s) == |PrintNat(whole)|;
    }
  }

  // ----- Printing depends on the value only ---------------------------------------------------------

  lemma PrintTenfold(n: nat)
    requires n > 0
    ensures PrintNat(10 * n) == PrintNat(n) + "0"
  {
  }

  lemma FractionTenfold(fractional: nat, k: nat)
    requires 0 < fractional < Pow10(k)
    ensures TrimZeros(PadStart(PrintNat(10 * fractional), k + 1)) == TrimZeros(PadStart(PrintNat(fractional), k))
  {
    var p := PrintNat(fractional);
    assert k >= 1;
    PrintLength(fractional, k);
    PrintTenfold(fractional);
    var padded := PadStart(p, k);
    assert PadStart(p + "0", k + 1) == padded + "0";
    assert (padded + "0")[..|padded|] == padded;
  }

  ghost predicate PrintAlike(d: Decimal, e: Decimal) {
    ToString(d) == ToString(e)
  }

  lemma AlikeIsTransitive(d: Decimal, e: Decimal, f: Decimal)
    requires PrintAlike(d, e) && PrintAlike(e, f)
    ensures PrintAlike(d, f)
  {
  }

  /** The same value with one more fractional digit. */
  ghost function Tenfold(d: Decimal): Decimal {
    Decimal(10 * d.atomics, d.fractionalDigits + 1)
  }

  /** The integer part and the fraction in smallest units. */
  ghost predicate HasParts(d: Decimal, whole: nat, fractional: nat) {
    && Quotient(d.atomics, Pow10(d.fractionalDigits)) == whole
    && Residue(d.atomics, Pow10(d.fractionalDigits)) == fractional
  }

  lemma TenfoldParts(d: Decimal, whole: nat, fractional: nat)
    requires HasParts(d, whole, fractional)
    ensures HasParts(Tenfold(d), whole, 10 * fractional) && fractional < Pow10(d.fractionalDigits)
  {
    Division(d.atomics, d.fractionalDigits);
    DivisionIsUnique(10 * d.atomics, d.fractionalDigits + 1, whole, 10 * fractional);
  }

  lemma TextTenfold(whole: nat, fractional: nat, k: nat)
    requires fractional < Pow10(k)
    ensures Text(whole, 10 * fractional, k + 1) == Text(whole, fractional, k)
  {
    if fractional > 0 {
      FractionTenfold(fractional, k);
    }
  }

  lemma TextOfParts(d: Decimal, whole: nat, fractional: nat)
    requires HasParts(d, whole, fractional)
    ensures ToString(d) == Text(whole, fractional, d.fractionalDigits)
  {
  }

  lemma PrintsOneMoreDigit(d: Decimal)
    ensures PrintAlike(Tenfold(d), d)
  {
    var k := d.fractionalDigits;
    var q, r := Quotient(d.atomics, Pow10(k)), Residue(d.atomics, Pow10(k));
    TenfoldParts(d, q, r);
    TextOfParts(d, q, r);
    TextOfParts(Tenfold(d), q, 10 * r);
    TextTenfold(q, r, k);
  }

  lemma TenfoldPrintsAlike(e: Decimal, d: Decimal)
    requires PrintAlike(e, d)
    ensures PrintAlike(Tenfold(e), d)
  {
    PrintsOneMoreDigit(e);
    AlikeIsTransitive(Tenfold(e), e, d);
  }

  /** The same value with j more fractional digits. */
  ghost function Rescaled(d: Decimal, j: nat): Decimal {
    if j == 0 then d else Tenfold(Rescaled(d, j - 1))
  }

  lemma {:induction false} RescaledValue(d: Decimal, j: nat)
    ensures Rescaled(d, j) == Decimal(TimesPow10(d.atomics, j), d.fractionalDigits + j)
  {
    if j > 0 {
      RescaledValue(d, j - 1);
    }
  }

  lemma {:induction false} PrintsMoreDigits(d: Decimal, j: nat)
    ensures PrintAlike(Rescaled(d, j), d)
  {
    if j > 0 {
      PrintsMoreDigits(d, j - 1);
      TenfoldPrintsAlike(Rescaled(d, j - 1), d);
    }
  }

  lemma SameValuePrintsAlike(d: Decimal, e: Decimal)
    requires TimesPow10(d.atomics, e.fractionalDigits) == TimesPow10(e.atomics, d.fractionalDigits)
    ensures PrintAlike(d, e)
  {
    var f := Rescaled(d, e.fractionalDigits);
    PrintsMoreDigits(d, e.fractionalDigits);
    PrintsMoreDigits(e, d.fractionalDigits);
    RescaledValue(d, e.fractionalDigits);
    RescaledValue(e, d.fractionalDigits);
    AlikeIsSymmetric(f, d);
    AlikeIsTransitive(d, f, e);
  }

  lemma AlikeIsSymmetric(d: Decimal, e: Decimal)
    requires PrintAlike(d, e)
    ensures PrintAlike(e, d)
  {
  }

  /** Two decimals print the same if and only if they have the same value, whatever their number of
      fractional digits. */
  lemma SameTextIffSameValue(d: Decimal, e: Decimal)
    requires d.fractionalDigits <= 100 && e.fractionalDigits <= 100
    ensures ToString(d) == ToString(e) <==>
      TimesPow10(d.atomics, e.fractionalDigits) == TimesPow10(e.atomics, d.fractionalDigits)
  {
    var k, l := d.fractionalDigits, e.fractionalDigits;
    if TimesPow10(d.atomics, l) == TimesPow10(e.atomics, k) {
      SameValuePrintsAlike(d, e);
    }
    if ToString(d) == ToString(e) {
      PrintThenParse(d);
      PrintThenParse(e);
      SameNumeral(d, e, ToString(d));
    }
  }

  /** Decimals parsed from the same text have the same value. */
  lemma SameNumeral(d: Decimal, e: Decimal, s: string)
    requires d.fractionalDigits <= 100 && e.fractionalDigits <= 100
    requires FromUserInput(s, d.fractionalDigits) == Ok(d) && FromUserInput(s, e.fractionalDigits) == Ok(e)
    ensures TimesPow10(d.atomics, e.fractionalDigits) == TimesPow10(e.atomics, d.fractionalDigits)
  {
    var k, l := d.fractionalDigits, e.fractionalDigits;
    SyntaxErrors(s, k);
    AcceptsExactlyTheRepresentable(s, k);
    AcceptsExactlyTheRepresentable(s, l);
    CrossMultiply(d.atomics, k, e.atomics, l, Numerator(s), Scale(s));
  }

  lemma CrossMultiply(a: nat, k: nat, b: nat, l: nat, n: nat, e: nat)
    requires TimesPow10(a, e) == TimesPow10(n, k) && TimesPow10(b, e) == TimesPow10(n, l)
    ensures TimesPow10(a, l) == TimesPow10(b, k)
  {
    TimesCompose(a, e, l);
    TimesCompose(a, l, e);
    TimesCompose(b, e, k);
    TimesCompose(b, k, e);
    TimesCompose(n, k, l);
    TimesCompose(n, l, k);
    TimesIsInjective(TimesPow10(a, l), TimesPow10(b, k), e);
  }

  /** `plus` adds the values; it needs equal numbers of fractional digits. */
  lemma PlusAddsValues(a: Decimal, b: Decimal)
    ensures Plus(a, b) ==
      if a.fractionalDigits == b.fractionalDigits
      then Ok(Decimal(a.atomics + b.atomics, a.fractionalDigits))
      else Err(FractionalDigitsDoNotMatch)
  {
    ParsePrint(b.atomics);
    ParsePrint(a.atomics + b.atomics);
  }
}
