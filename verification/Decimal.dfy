/** Decimal texts: digits, the number grammar of section 6 of RFC 8259, and what a text is worth. */
module Decimal {

  const MAGNITUDE := 100000000
  const PRECISION := 8

  function Pow10(k: nat): (r: nat)
    ensures r >= 1
  {
    if k == 0 then 1 else 10 * Pow10(k - 1)
  }

  /** n with k zeros behind it. */
  function Shift(n: nat, k: nat): nat { if k == 0 then n else 10 * Shift(n, k - 1) }

  function DigitChar(d: nat): char
    requires d < 10
  {
    '0' + d as char
  }

  predicate IsDigit(c: char) { '0' <= c <= '9' }

  function DigitValue(c: char): (d: nat)
    requires IsDigit(c)
    ensures d < 10
  {
    (c - '0') as nat
  }

  predicate AllDigits(s: string) { forall i :: 0 <= i < |s| ==> IsDigit(s[i]) }

  /** The shortest decimal digits of n. */
  function Digits(n: nat): (s: string)
    ensures AllDigits(s) && |s| >= 1
  {
    if n < 10 then [DigitChar(n)] else Digits(n / 10) + [DigitChar(n % 10)]
  }

  /** The last k decimal digits of n, with leading zeros. */
  function Pad(n: nat, k: nat): (s: string)
    ensures AllDigits(s) && |s| == k
  {
    if k == 0 then "" else Pad(n / 10, k - 1) + [DigitChar(n % 10)]
  }

  function StripZeros(s: string): (r: string)
    ensures r <= s
  {
    if |s| > 0 && s[|s| - 1] == '0' then StripZeros(s[..|s| - 1]) else s
  }

  // ---- the grammar ----

  ghost predicate IsSign(s: string) { s == "" || s == "-" }

  predicate IsIntPart(s: string) { |s| >= 1 && AllDigits(s) && (|s| >= 2 ==> s[0] != '0') }

  predicate IsFracPart(s: string) { s == "" || (|s| >= 2 && s[0] == '.' && AllDigits(s[1..])) }

  predicate IsExpPart(s: string) {
    s == "" ||
    (|s| >= 2 && (s[0] == 'e' || s[0] == 'E') &&
     (AllDigits(s[1..]) || (|s| >= 3 && (s[1] == '+' || s[1] == '-') && AllDigits(s[2..]))))
  }

  ghost predicate IsParts(s: string, sign: string, whole: string, frac: string, exp: string) {
    s == sign + whole + frac + exp && IsSign(sign) && IsIntPart(whole) && IsFracPart(frac) && IsExpPart(exp)
  }

  /** number = [ minus ] int [ frac ] [ exp ] */
  ghost predicate IsNumber(s: string) {
    exists sign, whole, frac, exp :: IsParts(s, sign, whole, frac, exp)
  }

  // ---- the value of a text without exponent ----

  function NatOf(s: string): nat
    requires AllDigits(s)
  {
    if s == "" then 0 else 10 * NatOf(s[..|s| - 1]) + DigitValue(s[|s| - 1])
  }

  function FractionValue(f: string): real
    requires AllDigits(f)
  {
    NatOf(f) as real / Pow10(|f|) as real
  }

  function FindDot(s: string): (k: nat)
    ensures k <= |s|
    ensures forall i :: 0 <= i < k ==> s[i] != '.'
    ensures k < |s| ==> s[k] == '.'
  {
    if s == "" || s[0] == '.' then 0 else 1 + FindDot(s[1..])
  }

  predicate IsPlain(s: string) {
    var k := FindDot(s);
    AllDigits(s[..k]) && (k < |s| ==> AllDigits(s[k + 1..]))
  }

  function PlainValue(s: string): real
    requires IsPlain(s)
  {
    var k := FindDot(s);
    NatOf(s[..k]) as real +
    if k < |s| then FractionValue(s[k + 1..]) else 0.0
  }

  function Magnitude(s: string): string { if |s| > 0 && s[0] == '-' then s[1..] else s }

  function Value(s: string): real
    requires IsPlain(Magnitude(s))
  {
    if |s| > 0 && s[0] == '-' then -PlainValue(s[1..]) else PlainValue(s)
  }

  predicate HasTrailingZero(s: string) {
    FindDot(s) < |s| && s[|s| - 1] == '0'
  }

  // ---- facts ----

  lemma DigitOfChar(c: char)
    requires IsDigit(c)
    ensures DigitChar(DigitValue(c)) == c
  {
  }

  lemma CharOfDigit(d: nat)
    requires d < 10
    ensures DigitValue(DigitChar(d)) == d && IsDigit(DigitChar(d)) && (d > 0 ==> DigitChar(d) != '0')
    ensures DigitChar(0) == '0'
  {
  }

  lemma LastDigit(n: nat, d: nat)
    requires d < 10
    ensures (10 * n + d) / 10 == n && (10 * n + d) % 10 == d
  {
  }

  lemma {:induction false} NatOfDigits(n: nat)
    ensures NatOf(Digits(n)) == n
    ensures IsIntPart(Digits(n))
    ensures n > 0 ==> Digits(n)[0] != '0'
  {
    CharOfDigit(n % 10);
    hide DigitChar, DigitValue;
    if n >= 10 {
      NatOfDigits(n / 10);
      assert Digits(n)[..|Digits(n)| - 1] == Digits(n / 10);
    } else {
      assert NatOf([DigitChar(n)][..0]) == 0;
    }
  }

  lemma {:induction false} NatOfPad(n: nat, k: nat)
    requires n < Pow10(k)
    ensures NatOf(Pad(n, k)) == n
  {
    if k == 0 {
    } else {
      CharOfDigit(n % 10);
      hide DigitChar, DigitValue;
      NatOfPad(n / 10, k - 1);
      assert Pad(n, k)[..k - 1] == Pad(n / 10, k - 1);
    }
  }

  /** Dropping trailing zeros of a fraction divides numerator and denominator alike. */
  lemma {:induction false} StripKeepsFraction(s: string)
    requires AllDigits(s)
    ensures AllDigits(StripZeros(s))
    ensures NatOf(s) == Shift(NatOf(StripZeros(s)), |s| - |StripZeros(s)|)
    ensures Pow10(|s|) == Shift(Pow10(|StripZeros(s)|), |s| - |StripZeros(s)|)
    ensures StripZeros(s) == "" || StripZeros(s)[|StripZeros(s)| - 1] != '0'
  {
    if StripZeros(s) != s { StripKeepsFraction(s[..|s| - 1]); }
  }

  lemma {:induction false} ShiftRatio(a: nat, b: nat, k: nat)
    requires b > 0
    ensures Shift(b, k) > 0 && Shift(a, k) as real / Shift(b, k) as real == a as real / b as real
  {
    if k == 0 {
    } else {
      ShiftRatio(a, b, k - 1);
      TenfoldRatio(Shift(a, k - 1), Shift(b, k - 1));
    }
  }

  lemma TenfoldRatio(x: nat, y: nat)
    requires y > 0
    ensures (10 * x) as real / (10 * y) as real == x as real / y as real
  {
    var q := x as real / y as real;
    assert q * y as real == x as real;
    assert q * (10 * y) as real == (10 * x) as real;
  }

  lemma {:induction false} ShiftBound(n: nat, a: nat, k: nat)
    requires n < Pow10(a)
    ensures n <= Shift(n, k) < Pow10(a + k)
  {
    if k == 0 {
    } else {
      ShiftBound(n, a, k - 1);
    }
  }

  lemma {:induction false} FindDotAt(a: string, b: string)
    requires AllDigits(a)
    requires b == "" || b[0] == '.'
    ensures FindDot(a + b) == |a|
  {
    if a == "" {
      assert a + b == b;
    } else {
      FindDotAt(a[1..], b);
      assert (a + b)[1..] == a[1..] + b;
    }
  }

  lemma EndsWithDigit(s: string)
    requires IsNumber(s)
    ensures s != "" && s[|s| - 1] != '.'
  {
    var sign, whole, frac, exp :| IsParts(s, sign, whole, frac, exp);
    var tail := if exp != "" then exp else if frac != "" then frac else whole;
    assert s[|s| - 1] == tail[|tail| - 1];
    if exp != "" {
      assert exp[|exp| - 1] == exp[1..][|exp| - 2];
    } else if frac != "" {
      assert frac[|frac| - 1] == frac[1..][|frac| - 2];
    }
  }
}
