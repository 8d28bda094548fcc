/** Result types for operations that can throw, and bytes. */
module Results {
  datatype Option<+T> = None | Some(value: T)

  datatype Result<+T, +E> = Ok(value: T) | Err(error: E)

  type byte = x: int | 0 <= x < 256
}

/** Facts about sequences and their multisets. */
module Sequences {

  ghost predicate NoDuplicates<T(!new)>(s: seq<T>) {
    forall i, j | 0 <= i < j < |s| :: s[i] != s[j]
  }

  /** Appends an element if the condition holds. */
  function AppendIf<T>(condition: bool, s: seq<T>, x: T): seq<T> {
    if condition then s + [x] else s
  }

  lemma Associative<T>(a: seq<T>, b: seq<T>, c: seq<T>)
    ensures a + (b + c) == a + b + c
  {
  }

  lemma AppendNothing<T>(a: seq<T>)
    ensures a + [] == a && [] + a == a
  {
  }

  lemma SplitAt<T>(s: seq<T>, k: nat)
    requires k <= |s|
    ensures s[..k] + s[k..] == s
  {
  }

  lemma TailOfAppend<T>(a: seq<T>, b: seq<T>)
    ensures a <= a + b && (a + b)[|a|..] == b
  {
  }

  lemma FrontOfAppend<T>(a: seq<T>, x: T)
    ensures (a + [x])[..|a|] == a && (a + [x])[|a|] == x
  {
  }

  lemma {:induction false} MultiplicityOfDistinct<T(!new)>(s: seq<T>, x: T)
    requires NoDuplicates(s)
    ensures multiset(s)[x] == if x in s then 1 else 0
  {
    if s != [] {
      var before, last := s[..|s| - 1], s[|s| - 1];
      assert s == before + [last];
      MultiplicityOfDistinct(before, x);
    }
  }

  /** Duplicate-free sequences with the same members are permutations of each other. */
  lemma SameMembersSameMultiset<T(!new)>(a: seq<T>, b: seq<T>)
    requires NoDuplicates(a) && NoDuplicates(b)
    requires forall x :: x in a <==> x in b
    ensures multiset(a) == multiset(b)
  {
    forall x: T
      ensures multiset(a)[x] == multiset(b)[x]
    {
      MultiplicityOfDistinct(a, x);
      MultiplicityOfDistinct(b, x);
    }
  }

  lemma SameMultisetSameMembers<T>(a: seq<T>, b: seq<T>, x: T)
    requires multiset(a) == multiset(b)
    ensures x in a <==> x in b
  {
    assert x in a <==> x in multiset(a);
    assert x in b <==> x in multiset(b);
  }
}

/** Decimal digit strings of natural numbers, as BN.js reads and writes them. */
module Digits {

  predicate IsDigit(c: char) {
    '0' <= c <= '9'
  }

  predicate AllDigits(s: string) {
    forall i | 0 <= i < |s| :: IsDigit(s[i])
  }

  /** n * 10^k. */
  function TimesPow10(n: nat, k: nat): nat {
    if k == 0 then n else 10 * TimesPow10(n, k - 1)
  }

  function Pow10(k: nat): (p: nat)
    ensures p > 0
  {
    TimesIsPositive(1, k);
    TimesPow10(1, k)
  }

  /** Leading zeros are allowed and the empty string is zero. */
  function ParseNat(s: string): nat
    requires AllDigits(s)
  {
    if s == [] then 0 else 10 * ParseNat(s[..|s| - 1]) + (s[|s| - 1] as int - '0' as int)
  }

  function PrintNat(n: nat): (s: string)
    ensures s != []
  {
    if n < 10 then [('0' as int + n) as char] else PrintNat(n / 10) + [('0' as int + n % 10) as char]
  }

  function Zeros(k: nat): (s: string)
    ensures |s| == k && AllDigits(s)
  {
    seq(k, _ => '0')
  }

  function PadStart(s: string, length: nat): string {
    if |s| < length then Zeros(length - |s|) + s else s
  }

  function PadEnd(s: string, length: nat): string {
    if |s| < length then s + Zeros(length - |s|) else s
  }

  function TrimZeros(s: string): string {
    if s != [] && s[|s| - 1] == '0' then TrimZeros(s[..|s| - 1]) else s
  }

  lemma {:induction false} ParsePrint(n: nat)
    ensures AllDigits(PrintNat(n)) && ParseNat(PrintNat(n)) == n
  {
    var d := [('0' as int + n % 10) as char];
    if n < 10 {
      assert PrintNat(n)[..0] == [];
    } else {
      ParsePrint(n / 10);
      assert (PrintNat(n / 10) + d)[..|PrintNat(n / 10)|] == PrintNat(n / 10);
    }
  }

  lemma {:induction false} TimesIsPositive(n: nat, k: nat)
    requires n > 0
    ensures TimesPow10(n, k) > 0
  {
    if k > 0 {
      TimesIsPositive(n, k - 1);
    }
  }

  lemma {:induction false} TimesZero(k: nat)
    ensures TimesPow10(0, k) == 0
  {
    if k > 0 {
      TimesZero(k - 1);
    }
  }

  lemma {:induction false} TimesSum(m: nat, n: nat, k: nat)
    ensures TimesPow10(m + n, k) == TimesPow10(m, k) + TimesPow10(n, k)
  {
    if k > 0 {
      TimesSum(m, n, k - 1);
    }
  }

  lemma {:induction false} TimesCompose(n: nat, a: nat, b: nat)
    ensures TimesPow10(TimesPow10(n, a), b) == TimesPow10(n, a + b)
  {
    if b > 0 {
      TimesCompose(n, a, b - 1);
    }
  }

  lemma {:induction false} TimesIsInjective(m: nat, n: nat, k: nat)
    requires TimesPow10(m, k) == TimesPow10(n, k)
    ensures m == n
  {
    if k > 0 {
      TimesIsInjective(m, n, k - 1);
    }
  }

  /** `div` and `mod` of natural numbers; see DivisionOf. */
  function Quotient(n: nat, d: nat): nat
    requires d > 0
  {
    if n < d then 0 else 1 + Quotient(n - d, d)
  }

  function Residue(n: nat, d: nat): (r: nat)
    requires d > 0
    ensures r < d
  {
    if n < d then n else Residue(n - d, d)
  }

  lemma {:induction false} ProductIsTimes(q: nat, k: nat)
    ensures q * Pow10(k) == TimesPow10(q, k)
  {
    if k > 0 {
      ProductIsTimes(q, k - 1);
    }
  }

  lemma Division(n: nat, k: nat)
    ensures n == TimesPow10(Quotient(n, Pow10(k)), k) + Residue(n, Pow10(k))
  {
    ProductIsTimes(Quotient(n, Pow10(k)), k);
    DivisionOf(n, Pow10(k));
  }

  lemma {:induction false} DivisionOf(n: nat, d: nat)
    requires d > 0
    ensures n == Quotient(n, d) * d + Residue(n, d)
  {
    if n >= d {
      DivisionOf(n - d, d);
    }
  }

  lemma {:induction false} TimesIsBelow(q: nat, q': nat, k: nat)
    requires q < q'
    ensures TimesPow10(q, k) + Pow10(k) <= TimesPow10(q', k)
  {
    if k > 0 {
      TimesIsBelow(q, q', k - 1);
    }
  }

  lemma DivisionIsUnique(n: nat, k: nat, q: nat, r: nat)
    requires n == TimesPow10(q, k) + r && r < Pow10(k)
    ensures Quotient(n, Pow10(k)) == q && Residue(n, Pow10(k)) == r
  {
    Division(n, k);
    var q' := Quotient(n, Pow10(k));
    if q < q' {
      TimesIsBelow(q, q', k);
    } else if q' < q {
      TimesIsBelow(q', q, k);
    }
  }

  lemma {:induction false} ParseConcatenation(a: string, b: string)
    requires AllDigits(a) && AllDigits(b)
    ensures AllDigits(a + b) && ParseNat(a + b) == TimesPow10(ParseNat(a), |b|) + ParseNat(b)
  {
    if b == [] {
      assert a + b == a;
    } else {
      var before := b[..|b| - 1];
      assert (a + b)[..|a + b| - 1] == a + before;
      ParseConcatenation(a, before);
    }
  }

  lemma {:induction false} ParseZeros(k: nat)
    ensures ParseNat(Zeros(k)) == 0
  {
    if k > 0 {
      assert Zeros(k)[..k - 1] == Zeros(k - 1);
      ParseZeros(k - 1);
    }
  }

  lemma ParsePadded(s: string, length: nat)
    requires AllDigits(s) && |s| <= length
    ensures AllDigits(PadEnd(s, length)) && ParseNat(PadEnd(s, length)) == TimesPow10(ParseNat(s), length - |s|)
    ensures AllDigits(PadStart(s, length)) && ParseNat(PadStart(s, length)) == ParseNat(s)
  {
    if |s| < length {
      var zeros := Zeros(length - |s|);
      ParseConcatenation(s, zeros);
      ParseConcatenation(zeros, s);
      ParseZeros(length - |s|);
      TimesZero(|s|);
    }
  }

  lemma {:induction false} PrintLength(n: nat, k: nat)
    requires 1 <= k && n < Pow10(k)
    ensures |PrintNat(n)| <= k
  {
    if n >= 10 {
      assert k > 1 by { assert TimesPow10(1, 1) == 10; }
      PrintLength(n / 10, k - 1);
    }
  }

  lemma {:induction false} TrimThenPad(s: string)
    ensures
      var t := TrimZeros(s);
      && t <= s
      && s == PadEnd(t, |s|)
      && (t == [] || t[|t| - 1] != '0')
      && TrimZeros(t) == t
  {
    if s != [] && s[|s| - 1] == '0' {
      TrimThenPad(s[..|s| - 1]);
      var t := TrimZeros(s);
      assert Zeros(|s| - |t|) == Zeros(|s| - 1 - |t|) + ['0'];
      assert s == s[..|s| - 1] + ['0'];
    }
  }
}

/** Unsigned integers as big-endian bytes. */
module BigEndian {
  import opened Results

  function Pow256(k: nat): (p: nat)
    ensures p > 0
  {
    if k == 0 then 1 else 256 * Pow256(k - 1)
  }

  function Value(bytes: seq<byte>): nat {
    if bytes == [] then 0 else 256 * Value(bytes[..|bytes| - 1]) + bytes[|bytes| - 1]
  }

  function ToBytes(n: nat, length: nat): (bytes: seq<byte>)
    ensures |bytes| == length
  {
    if length == 0 then [] else ToBytes(n / 256, length - 1) + [n % 256]
  }

  predicate AllZero(bytes: seq<byte>) {
    forall i | 0 <= i < |bytes| :: bytes[i] == 0
  }

  function Zeros(k: nat): (bytes: seq<byte>)
    ensures |bytes| == k
  {
    seq(k, _ => 0)
  }

  lemma {:induction false} ValueOfBytes(n: nat, length: nat)
    requires n < Pow256(length)
    ensures Value(ToBytes(n, length)) == n
  {
    if length > 0 {
      ValueOfBytes(n / 256, length - 1);
      var b := ToBytes(n, length);
      assert b[..|b| - 1] == ToBytes(n / 256, length - 1);
    }
  }

  lemma {:induction false} ValueBound(bytes: seq<byte>)
    ensures Value(bytes) < Pow256(|bytes|)
  {
    if bytes != [] {
      ValueBound(bytes[..|bytes| - 1]);
    }
  }

  lemma {:induction false} ZeroIffAllZero(bytes: seq<byte>)
    ensures Value(bytes) == 0 <==> AllZero(bytes)
  {
    if bytes != [] {
      ZeroIffAllZero(bytes[..|bytes| - 1]);
    }
  }

  lemma {:induction false} LeadingZeros(k: nat, bytes: seq<byte>)
    ensures Value(Zeros(k) + bytes) == Value(bytes)
  {
    var all := Zeros(k) + bytes;
    if bytes == [] {
      assert all == Zeros(k);
      ZeroIffAllZero(all);
    } else {
      assert all[..|all| - 1] == Zeros(k) + bytes[..|bytes| - 1];
      LeadingZeros(k, bytes[..|bytes| - 1]);
    }
  }

  /** Bytes are determined by their number and their value. */
  lemma {:induction false} SameValueSameBytes(a: seq<byte>, b: seq<byte>)
    requires |a| == |b| && Value(a) == Value(b)
    ensures a == b
  {
    if a != [] {
      var n := |a| - 1;
      SameValueSameBytes(a[..n], b[..n]);
      assert a == a[..n] + [a[n]] && b == b[..n] + [b[n]];
    }
  }

  /** A number of n bytes that does not begin with zero needs all of them. */
  lemma {:induction false} LeadingByteCounts(bytes: seq<byte>)
    requires bytes != [] && bytes[0] != 0
    ensures Value(bytes) >= Pow256(|bytes| - 1)
  {
    if |bytes| > 1 {
      LeadingByteCounts(bytes[..|bytes| - 1]);
    } else {
      assert bytes[..0] == [];
    }
  }

  lemma {:induction false} PowersGrow(k: nat, l: nat)
    requires k <= l
    ensures Pow256(k) <= Pow256(l)
  {
    if k < l {
      PowersGrow(k, l - 1);
    }
  }
}
