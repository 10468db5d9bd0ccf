/** The patched JSON writer: a double printed with at most eight rounded decimals. */
module JsonWriter {
  import Bytes
  import opened Decimal

  const INT_MAX := 2147483647
  const BUFFER_SIZE := 20

  function Abs(d: real): real { if d < 0.0 then -d else d }

  function Scaled(d: real): real { Abs(d) * 100000000.0 }

  /** Below this bound the conversion to int, or the carry into it, overflows. */
  predicate InRange(d: real) {
    d >= 0.0 || Scaled(d) <= 214748364799999999.5
  }

  /** Whether f units and a remainder diff round to f + 1: to the nearest; a tie goes to the even neighbour,
      but up when the fraction is 0. */
  predicate RoundsUp(f: nat, diff: real) {
    diff > 0.5 || (diff == 0.5 && (f % MAGNITUDE == 0 || f % 2 == 1))
  }

  /** |d| in units of 10^-8, rounded. */
  function Units(d: real): nat {
    var f := Scaled(d).Floor;
    if RoundsUp(f, Scaled(d) - f as real) then f + 1 else f
  }

  /** The one tie whose carry is missing: a fraction of exactly 0.999999995. */
  predicate UncarriedTie(d: real) {
    var f := Scaled(d).Floor;
    Scaled(d) - f as real == 0.5 && f % MAGNITUDE == MAGNITUDE - 1
  }

  function Sign(d: real): string { if d < 0.0 then "-" else "" }

  function FractionText(fraction: nat): string {
    if fraction == 0 then "" else "." + StripZeros(Pad(fraction, PRECISION))
  }

  function PlainText(number: nat, fraction: nat): string { Digits(number) + FractionText(fraction) }

  /** The canonical text of n * 10^-8. */
  function Text(n: nat): string { PlainText(n / MAGNITUDE, n % MAGNITUDE) }

  function Printed(d: real): string {
    Sign(d) + if UncarriedTie(d) then Digits(Scaled(d).Floor / MAGNITUDE) + "." else Text(Units(d))
  }

  function Reverse(s: string): (r: string)
    ensures |r| == |s|
  {
    if s == "" then "" else [s[|s| - 1]] + Reverse(s[..|s| - 1])
  }

  lemma ReversePush(s: string, c: char)
    ensures Reverse(s + [c]) == [c] + Reverse(s)
  {
    assert (s + [c])[..|s|] == s;
  }

  class Writer {
    var stream: string
    const large: real -> string  // what "%g" prints

    constructor (large: real -> string)
      ensures stream == "" && this.large == large
    {
      stream := "";
      this.large := large;
    }

    method Put(c: char)
      modifies this
      ensures stream == old(stream) + [c]
    {
      stream := stream + [c];
    }

    /** Also tells how much of the buffer was used. */
    method WriteDouble(value: real) returns (ghost used: nat)
      requires InRange(value)
      modifies this
      ensures stream == old(stream) + if value > INT_MAX as real then large(value) else Printed(value)
      ensures used <= BUFFER_SIZE - 1
    {
      hide Printed, PlainText, IsRounded;
      var d := value;
      if d > INT_MAX as real {
        stream := stream + large(d);
        return 0;
      }
      if d < 0.0 {
        Put('-');
        d := -d;
      }
      assert 0.0 <= d && Scaled(d) == Scaled(value) <= 214748364799999999.5;
      hide Scaled;
      var number, fraction := Round(d);
      RoundedText(value, number, fraction);
      Bytes.Associate(old(stream), Sign(value), PlainText(number, fraction));
      used := WriteParts(number, fraction);
    }

    method Round(d: real) returns (number: nat, fraction: nat)
      requires 0.0 <= d && Scaled(d) <= 214748364799999999.5
      ensures number <= INT_MAX
      ensures IsRounded(Scaled(d).Floor, Scaled(d) - Scaled(d).Floor as real, number, fraction)
    {
      number := d.Floor;
      var tmp := (d - number as real) * 100000000.0;
      fraction := tmp.Floor;
      var diff := tmp - fraction as real;
      ghost var f := Split(d, number, fraction);
      RoundParts(f, diff, number, fraction);
      if diff > 0.5 {
        fraction := fraction + 1;
        if fraction >= MAGNITUDE {
          fraction := 0;
          number := number + 1;
        }
      } else if diff == 0.5 && (fraction == 0 || fraction % 2 == 1) {
        fraction := fraction + 1;
      }
    }

    method WriteParts(number: nat, fraction: nat) returns (ghost used: nat)
      requires number <= INT_MAX
      modifies this
      ensures stream == old(stream) + PlainText(number, fraction)
      ensures used <= BUFFER_SIZE - 1
    {
      var buffer := new char[BUFFER_SIZE];
      var p := 0;
      if fraction != 0 {
        p := WriteFraction(buffer, fraction);
        p := Push(buffer, p, '.');
      }
      assert Pow10(10) == 10000000000;
      p := WriteNumber(buffer, p, number);
      used := p;
      Flush(buffer, p);
    }

    /** The whole part, last digit first. */
    method WriteNumber(buffer: array<char>, start: nat, value: nat) returns (p: nat)
      requires buffer.Length == BUFFER_SIZE && start < 10 && value < Pow10(10)
      modifies buffer
      ensures start < p <= start + 10
      ensures Reverse(buffer[..p]) == Digits(value) + old(Reverse(buffer[..start]))
    {
      hide Digits, Reverse;
      // do ... while, first round written out
      var number := value / 10;
      ghost var tail := Reverse(buffer[..start]);
      DigitStep(value, tail);
      p := Push(buffer, start, DigitChar(value % 10));
      ghost var room := 9;
      while number > 0
        invariant 0 <= room <= 9 && start < p <= start + 10 - room
        invariant 0 <= number < Pow10(room)
        invariant Leading(number) + Reverse(buffer[..p]) == Digits(value) + tail
      {
        DigitStep(number, Reverse(buffer[..p]));
        p := Push(buffer, p, DigitChar(number % 10));
        number := number / 10;
        room := room - 1;
      }
    }

    method Flush(buffer: array<char>, length: nat)
      requires 0 < length <= buffer.Length
      modifies this
      ensures stream == old(stream) + Reverse(buffer[..length])
    {
      // do ... while, first round written out
      var p := length - 1;
      assert buffer[..p + 1][..p] == buffer[..p];
      Put(buffer[p]);
      while p != 0
        invariant 0 <= p < buffer.Length
        invariant stream + Reverse(buffer[..p]) == old(stream) + Reverse(buffer[..length])
        decreases p
      {
        p := p - 1;
        Put(buffer[p]);
        assert buffer[..p + 1][..p] == buffer[..p];
      }
    }

    method Push(buffer: array<char>, p: nat, c: char) returns (next: nat)
      requires p < buffer.Length
      modifies buffer
      ensures next == p + 1 && buffer[..p] == old(buffer[..p])
      ensures Reverse(buffer[..next]) == [c] + old(Reverse(buffer[..p]))
    {
      buffer[p] := c;
      ReversePush(buffer[..p], c);
      assert buffer[..p + 1] == buffer[..p] + [c];
      next := p + 1;
    }

    /** The digit loop: significant fraction digits, last one first. */
    method WriteFraction(buffer: array<char>, value: nat) returns (p: nat)
      requires buffer.Length == BUFFER_SIZE && value != 0
      modifies buffer
      ensures p <= PRECISION
      ensures Reverse(buffer[..p]) == StripZeros(Pad(value, PRECISION))
    {
      var fraction := value;
      var nodigits := true;
      p := 0;
      ghost var goal := StripZeros(Pad(value, PRECISION));
      var x := 0;
      while x < PRECISION
        invariant p <= x <= PRECISION && (nodigits ==> p == 0)
        invariant goal == Remaining(fraction, PRECISION - x, nodigits, Reverse(buffer[..p]))
      {
        var c := fraction % 10;
        RemainingStep(fraction, PRECISION - x, nodigits, Reverse(buffer[..p]));
        if !(c == 0 && nodigits) {
          p := Push(buffer, p, DigitChar(c));
          nodigits := false;
        }
        fraction := fraction / 10;
        x := x + 1;
      }
    }
  }

  /** What the digit loop will have written, given the digits to come and those already there. */
  ghost function Remaining(fraction: nat, k: nat, nodigits: bool, written: string): string {
    if nodigits then StripZeros(Pad(fraction, k)) else Pad(fraction, k) + written
  }

  lemma RemainingStep(fraction: nat, k: nat, nodigits: bool, written: string)
    requires k > 0 && (nodigits ==> written == "")
    ensures var c := DigitChar(fraction % 10);
      Remaining(fraction, k, nodigits, written) ==
      if fraction % 10 == 0 && nodigits then Remaining(fraction / 10, k - 1, true, written)
      else Remaining(fraction / 10, k - 1, false, [c] + written)
  {
    StripPad(fraction, k);
    var c := DigitChar(fraction % 10);
    assert (Pad(fraction / 10, k - 1) + [c]) + written == Pad(fraction / 10, k - 1) + ([c] + written);
  }

  /** The digits of n, none for 0. */
  ghost function Leading(n: nat): string { if n == 0 then "" else Digits(n) }

  lemma DigitStep(n: nat, written: string)
    ensures Digits(n) + written == Leading(n / 10) + ([DigitChar(n % 10)] + written)
  {
    assert Digits(n) == Leading(n / 10) + [DigitChar(n % 10)];
  }

  lemma StripPad(n: nat, k: nat)
    requires k > 0
    ensures Pad(n, k) == Pad(n / 10, k - 1) + [DigitChar(n % 10)]
    ensures StripZeros(Pad(n, k)) == if n % 10 == 0 then StripZeros(Pad(n / 10, k - 1)) else Pad(n, k)
  {
    CharOfDigit(n % 10);
    hide DigitChar;
    assert Pad(n, k)[..k - 1] == Pad(n / 10, k - 1);
  }

  /** Scaling before or after splitting off the whole part is the same. */
  lemma Split(d: real, number: int, fraction: int) returns (f: nat)
    requires 0.0 <= d && number == d.Floor
    requires fraction == ((d - number as real) * 100000000.0).Floor
    ensures 0 <= number && 0 <= fraction < MAGNITUDE
    ensures f == Scaled(d).Floor && f / MAGNITUDE == number && f % MAGNITUDE == fraction
    ensures Scaled(d) - f as real == (d - number as real) * 100000000.0 - fraction as real
  {
    f := number * MAGNITUDE + fraction;
  }

  /** What the rounding branches leave: the carry exists in the first one only. */
  predicate IsRounded(f: nat, diff: real, number: nat, fraction: nat) {
    if diff > 0.5 && f % MAGNITUDE == MAGNITUDE - 1 then number == f / MAGNITUDE + 1 && fraction == 0
    else number == f / MAGNITUDE && fraction == f % MAGNITUDE + if RoundsUp(f, diff) then 1 else 0
  }

  lemma {:induction false} NothingButZeros(n: nat, k: nat)
    ensures StripZeros(Pad(Shift(n, k), k)) == ""
  {
    if k == 0 {
    } else {
      LastDigit(Shift(n, k - 1), 0);
      StripPad(Shift(n, k), k);
      hide Pad, StripZeros;
      NothingButZeros(n, k - 1);
    }
  }

  /** Tie rule and overflow may look at the fraction alone. */
  lemma RoundParts(f: nat, diff: real, number: nat, fraction: nat)
    requires 0.0 <= diff && f as real + diff <= 214748364799999999.5
    requires f / MAGNITUDE == number && f % MAGNITUDE == fraction
    ensures RoundsUp(f, diff) <==> diff > 0.5 || (diff == 0.5 && (fraction == 0 || fraction % 2 == 1))
    ensures number <= INT_MAX && (number == INT_MAX && fraction == MAGNITUDE - 1 ==> diff <= 0.5)
  {
  }

  lemma RoundedText(d: real, number: nat, fraction: nat)
    requires IsRounded(Scaled(d).Floor, Scaled(d) - Scaled(d).Floor as real, number, fraction)
    ensures Printed(d) == Sign(d) + PlainText(number, fraction)
  {
    hide Digits, Scaled, Pad, StripZeros;
    if UncarriedTie(d) {
      LostCarry();
    } else {
      RoundedUnits(d, number, fraction);
      hide PlainText, Units, IsRounded, UncarriedTie;
    }
  }

  lemma LostCarry()
    ensures FractionText(MAGNITUDE) == "."
  {
    assert Shift(1, 8) == 100000000;
    NothingButZeros(1, PRECISION);
  }

  lemma RoundedUnits(d: real, number: nat, fraction: nat)
    requires IsRounded(Scaled(d).Floor, Scaled(d) - Scaled(d).Floor as real, number, fraction) && !UncarriedTie(d)
    ensures Units(d) / MAGNITUDE == number && Units(d) % MAGNITUDE == fraction
  {
    hide Scaled;
    Recombine(Units(d), number, fraction);
  }

  lemma Recombine(n: nat, number: nat, fraction: nat)
    requires n == number * MAGNITUDE + fraction && fraction < MAGNITUDE
    ensures n / MAGNITUDE == number && n % MAGNITUDE == fraction
  {
  }
}
