/** What a reader gets back from the texts JsonWriter prints. */
module DoubleTexts {
  import opened Decimal
  import opened JsonWriter

  lemma Magnitude8()
    ensures Pow10(PRECISION) == MAGNITUDE
  {
    assert Pow10(8) == 100000000;
  }

  /** The text of a fraction is worth the fraction, at most eight digits, the last one not 0. */
  lemma FractionDigits(fraction: nat) returns (f: string)
    requires 0 < fraction < MAGNITUDE
    ensures FractionText(fraction) == "." + f
    ensures AllDigits(f) && 1 <= |f| <= PRECISION && f[|f| - 1] != '0'
    ensures FractionValue(f) == fraction as real / 100000000.0
  {
    hide Pad, StripZeros, NatOf, Shift, Pow10;
    var padded := Pad(fraction, PRECISION);
    f := StripZeros(padded);
    Magnitude8();
    NatOfPad(fraction, PRECISION);
    StripKeepsFraction(padded);
    NatOfEmpty();
    if f == "" { ShiftOfZero(PRECISION); }
    ShiftRatio(NatOf(f), Pow10(|f|), PRECISION - |f|);
  }

  lemma NatOfEmpty()
    ensures NatOf("") == 0
  {
  }

  lemma {:induction false} ShiftOfZero(k: nat)
    ensures Shift(0, k) == 0
  {
    if k == 0 {
    } else {
      ShiftOfZero(k - 1);
    }
  }

  lemma WholeValue(whole: string)
    requires AllDigits(whole) && whole != ""
    ensures IsPlain(whole) && PlainValue(whole) == NatOf(whole) as real && !HasTrailingZero(whole)
  {
    FindDotAt(whole, "");
    assert whole + "" == whole && whole[..|whole|] == whole;
  }

  lemma DottedValue(whole: string, f: string)
    requires AllDigits(whole) && AllDigits(f) && f != ""
    ensures var s := whole + ("." + f);
      IsPlain(s) && PlainValue(s) == NatOf(whole) as real + FractionValue(f) &&
      (HasTrailingZero(s) <==> f[|f| - 1] == '0')
  {
    var s := whole + ("." + f);
    FindDotAt(whole, "." + f);
    assert s[..|whole|] == whole && s[|whole| + 1..] == f;
    assert s[|s| - 1] == f[|f| - 1];
  }

  /** Main result on one magnitude: the text of n is a number, in lowest form, worth n * 10^-8. */
  lemma TextIsCanonical(n: nat)
    ensures IsPlain(Text(n)) && PlainValue(Text(n)) == n as real / 100000000.0
    ensures IsParts(Text(n), "", Digits(n / MAGNITUDE), FractionText(n % MAGNITUDE), "")
    ensures !HasTrailingZero(Text(n))
    ensures Text(n)[0] != '-'
  {
    var whole := Digits(n / MAGNITUDE);
    NatOfDigits(n / MAGNITUDE);
    assert IsDigit(whole[0]);
    SplitValue(n);
    if n % MAGNITUDE == 0 {
      WholeValue(whole);
      assert Text(n) == whole;
    } else {
      var f := FractionDigits(n % MAGNITUDE);
      DottedValue(whole, f);
      DottedParts(whole, f);
    }
  }

  lemma DottedParts(whole: string, f: string)
    requires IsIntPart(whole) && AllDigits(f) && f != ""
    ensures IsParts(whole + ("." + f), "", whole, "." + f, "")
  {
    assert ("." + f)[1..] == f;
  }

  lemma SplitValue(n: nat)
    ensures (n / MAGNITUDE) as real + (n % MAGNITUDE) as real / 100000000.0 == n as real / 100000000.0
  {
    assert n == n / MAGNITUDE * MAGNITUDE + n % MAGNITUDE;
  }

  lemma SignedText(d: real)
    requires !UncarriedTie(d)
    ensures Magnitude(Printed(d)) == Text(Units(d))
    ensures IsPlain(Magnitude(Printed(d)))
    ensures Value(Printed(d)) == if d < 0.0 then -(Units(d) as real / 100000000.0) else Units(d) as real / 100000000.0
  {
    TextIsCanonical(Units(d));
    SignInFront(Text(Units(d)));
    hide Text, Units, UncarriedTie, PlainValue, IsPlain;
    assert Printed(d) == Sign(d) + Text(Units(d));
  }

  lemma SignInFront(s: string)
    requires s != "" && s[0] != '-' && IsPlain(s)
    ensures Magnitude("" + s) == s && Value("" + s) == PlainValue(s)
    ensures Magnitude("-" + s) == s && Value("-" + s) == -PlainValue(s)
  {
    hide PlainValue, IsPlain;
    assert ("-" + s)[1..] == s && "" + s == s;
  }

  /** A sign is printed for the numbers below 0, even where they round to 0. */
  lemma SignExactly(d: real)
    ensures Printed(d) != "" && (Printed(d)[0] == '-' <==> d < 0.0)
  {
    if UncarriedTie(d) {
      NatOfDigits(Scaled(d).Floor / MAGNITUDE);
    } else {
      TextIsCanonical(Units(d));
    }
    hide Digits, Text, Units, UncarriedTie, Scaled;
  }

  /** The output is a JSON number exactly when the tie with the missing carry is avoided. */
  lemma GrammaticalExactly(d: real)
    ensures IsNumber(Printed(d)) <==> !UncarriedTie(d)
    ensures UncarriedTie(d) ==> Printed(d) == Sign(d) + Digits(Abs(d).Floor) + "."
  {
    if UncarriedTie(d) {
      UncarriedText(d);
      DotAtEnd(Sign(d) + Digits(Abs(d).Floor));
    } else {
      TextIsCanonical(Units(d));
      hide UncarriedTie, Text, Units;
      SignedNumber(Sign(d), Text(Units(d)), Digits(Units(d) / MAGNITUDE), FractionText(Units(d) % MAGNITUDE));
    }
  }

  lemma UncarriedText(d: real)
    requires UncarriedTie(d)
    ensures Printed(d) == Sign(d) + Digits(Abs(d).Floor) + "."
  {
    hide Digits, Text;
    assert Abs(d).Floor == Scaled(d).Floor / MAGNITUDE;
  }

  lemma DotAtEnd(s: string)
    ensures !IsNumber(s + ".")
  {
    if IsNumber(s + ".") { EndsWithDigit(s + "."); }
  }

  lemma SignedNumber(sign: string, s: string, whole: string, frac: string)
    requires IsSign(sign) && IsParts(s, "", whole, frac, "")
    ensures IsNumber(sign + s)
  {
    assert sign + s == sign + whole + frac + "";
    assert IsParts(sign + s, sign, whole, frac, "");
  }

  /** Concretely, 0.999999995 prints as "0.". */
  lemma UncarriedTieExists()
    ensures UncarriedTie(0.999999995) && Printed(0.999999995) == "0." && !IsNumber("0.")
  {
    assert Scaled(0.999999995) == 99999999.5;
    assert Scaled(0.999999995).Floor == 99999999;
    GrammaticalExactly(0.999999995);
    assert Digits(0) == "0";
    hide Printed;
  }

  /** Within half a unit of 10^-8; at exactly half, an even last digit unless the fraction was 0. */
  lemma Accurate(d: real)
    requires !UncarriedTie(d)
    ensures IsPlain(Magnitude(Printed(d))) && !HasTrailingZero(Magnitude(Printed(d)))
    ensures Abs(Value(Printed(d)) - d) <= 0.000000005
    ensures Abs(Value(Printed(d)) - d) == 0.000000005 ==>
      if Scaled(d).Floor % MAGNITUDE == 0 then Abs(Value(Printed(d))) > Abs(d) else Units(d) % 2 == 0
  {
    SignedText(d);
    TextIsCanonical(Units(d));
    UnitsNearest(d);
    hide Printed, Text, Units, UncarriedTie, Value, IsPlain, HasTrailingZero;
  }

  lemma UnitsNearest(d: real)
    ensures -0.5 <= Units(d) as real - Scaled(d) <= 0.5
    ensures Units(d) as real - Scaled(d) == 0.5 || Units(d) as real - Scaled(d) == -0.5 ==>
      if Scaled(d).Floor % MAGNITUDE == 0 then Units(d) as real > Scaled(d) else Units(d) % 2 == 0
  {
    var f := Scaled(d).Floor;
    hide Scaled;
    assert f as real <= Scaled(d) < f as real + 1.0;
    if f % 2 == 1 { assert (f + 1) % 2 == 0; }
  }

  /** Printing what was read back prints the same text, but for a negative number that rounds to "-0". */
  lemma FixedPoint(d: real)
    requires !UncarriedTie(d)
    ensures IsPlain(Magnitude(Printed(d)))
    ensures Printed(Value(Printed(d))) == if -0.000000005 < d < 0.0 then "0" else Printed(d)
    ensures -0.000000005 < d < 0.0 ==> Printed(d) == "-0"
  {
    SignedText(d);
    var v := Value(Printed(d));
    assert Scaled(v) == Units(d) as real;
    assert Units(v) == Units(d) && !UncarriedTie(v);
    if d < 0.0 && Units(d) == 0 {
      assert Digits(0) == "0";
    }
    UnitsNearest(d);
  }

  lemma Monotone(d: real, e: real)
    requires d <= e && !UncarriedTie(d) && !UncarriedTie(e)
    ensures IsPlain(Magnitude(Printed(d))) && IsPlain(Magnitude(Printed(e)))
    ensures Value(Printed(d)) <= Value(Printed(e))
  {
    SignedText(d);
    SignedText(e);
    if 0.0 <= d { UnitsMonotone(d, e); }
    if e < 0.0 { UnitsMonotone(e, d); }
  }

  lemma UnitsMonotone(d: real, e: real)
    requires Abs(d) <= Abs(e)
    ensures Units(d) <= Units(e)
  {
    assert Scaled(d) <= Scaled(e);
    assert Scaled(d).Floor <= Scaled(e).Floor;
  }

  // ---- Text is the only text of its kind ----

  lemma {:induction false} DigitsOfNat(s: string)
    requires IsIntPart(s)
    ensures Digits(NatOf(s)) == s
  {
    var n, c := |s| - 1, DigitValue(s[|s| - 1]);
    DigitOfChar(s[n]);
    CharOfDigit(0);
    hide DigitChar, DigitValue;
    if n == 0 {
      assert NatOf(s[..0]) == 0 && s == [s[0]];
    } else {
      DigitsOfNat(s[..n]);
      LastDigit(NatOf(s[..n]), c);
      assert s[..n] != Digits(0);
      assert s == s[..n] + [s[n]];
    }
  }

  function Zeros(k: nat): (s: string)
    ensures |s| == k && AllDigits(s)
  {
    if k == 0 then "" else Zeros(k - 1) + "0"
  }

  lemma {:induction false} PadOfDigits(f: string)
    requires AllDigits(f)
    ensures Pad(NatOf(f), |f|) == f
  {
    if f == "" {
    } else {
      var g, c := f[..|f| - 1], f[|f| - 1];
      PadOfDigits(g);
      DigitOfChar(c);
      hide DigitChar, DigitValue;
      LastDigit(NatOf(g), DigitValue(c));
      StripPad(NatOf(f), |f|);
      assert NatOf(f) == 10 * NatOf(g) + DigitValue(c);
      hide Pad, NatOf;
      assert f == g + [c];
    }
  }

  lemma {:induction false} PadOfNat(f: string, k: nat)
    requires AllDigits(f) && |f| <= k
    ensures Pad(Shift(NatOf(f), k - |f|), k) == f + Zeros(k - |f|)
  {
    if |f| < k {
      PadOfNat(f, k - 1);
      var z := k - 1 - |f|;
      TimesTen(Shift(NatOf(f), z), k);
      assert f + Zeros(z) + "0" == f + Zeros(z + 1);
    } else {
      PadOfDigits(f);
    }
  }

  lemma TimesTen(n: nat, k: nat)
    requires k > 0
    ensures Pad(10 * n, k) == Pad(n, k - 1) + "0"
  {
    LastDigit(n, 0);
    CharOfDigit(0);
    StripPad(10 * n, k);
    hide Pad, StripZeros, DigitChar;
  }

  lemma {:induction false} StripPadding(f: string, k: nat)
    requires f != "" && f[|f| - 1] != '0'
    ensures StripZeros(f + Zeros(k)) == f
  {
    if k == 0 {
      assert f + Zeros(0) == f;
    } else {
      StripPadding(f, k - 1);
      assert (f + Zeros(k))[..|f| + k - 1] == f + Zeros(k - 1);
    }
  }

  /** Any number text without sign, exponent or trailing fraction zeros and with at most eight decimals is
      Text of its own value, so Printed has no choice left. */
  lemma CanonicalIsText(s: string, whole: string, frac: string) returns (n: nat)
    requires IsParts(s, "", whole, frac, "") && |frac| <= 1 + PRECISION
    requires frac != "" ==> frac[|frac| - 1] != '0'
    ensures IsPlain(s) && PlainValue(s) == n as real / 100000000.0 && s == Text(n)
  {
    assert s == whole + frac;
    DigitsOfNat(whole);
    var fraction := FractionOf(frac);
    n := NatOf(whole) * MAGNITUDE + fraction;
    Recombine(n, NatOf(whole), fraction);
    TextIsCanonical(n);
  }

  lemma FractionOf(frac: string) returns (fraction: nat)
    requires IsFracPart(frac) && |frac| <= 1 + PRECISION
    requires frac != "" ==> frac[|frac| - 1] != '0'
    ensures fraction < MAGNITUDE && FractionText(fraction) == frac
  {
    if frac == "" { return 0; }
    var f := frac[1..];
    PadOfNat(f, PRECISION);
    StripPadding(f, PRECISION - |f|);
    FractionInRange(f);
    fraction := Shift(NatOf(f), PRECISION - |f|);
  }

  lemma {:induction false} NatBound(f: string)
    requires AllDigits(f)
    ensures NatOf(f) < Pow10(|f|)
  {
    if f == "" {
    } else {
      NatBound(f[..|f| - 1]);
    }
  }

  lemma FractionInRange(f: string)
    requires AllDigits(f) && |f| <= PRECISION && f != "" && f[|f| - 1] != '0'
    ensures 0 < Shift(NatOf(f), PRECISION - |f|) < MAGNITUDE
  {
    NatBound(f);
    Magnitude8();
    ShiftBound(NatOf(f), |f|, PRECISION - |f|);
  }
}
