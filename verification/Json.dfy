/** JSON values as the parser hands them out. */
module Json {
  import Decimal

  type Member = (string, Value)

  datatype Value =
    | Null
    | Bool(b: bool)
    | Int(n: int)
    | Real(x: real)
    | Str(s: string)
    | Arr(items: seq<Value>)
    | Obj(members: seq<Member>)

  predicate Int32(n: int) { -0x8000_0000 <= n < 0x8000_0000 }

  predicate IsInt(v: Value) { v.Int? && Int32(v.n) }

  predicate IsNumber(v: Value) { v.Int? || v.Real? }

  function GetDouble(v: Value): real
    requires IsNumber(v)
  {
    if v.Int? then v.n as real else v.x
  }

  /** The first member of that name; null if there is none. */
  function Lookup(members: seq<Member>, name: string): Value {
    if members == [] then Null
    else if members[0].0 == name then members[0].1
    else Lookup(members[1..], name)
  }

  predicate HasMember(members: seq<Member>, name: string) {
    members != [] && (members[0].0 == name || HasMember(members[1..], name))
  }

  lemma {:induction false} LookupConcat(ms: seq<Member>, m: Member, name: string)
    ensures Lookup(ms + [m], name) ==
            (if HasMember(ms, name) then Lookup(ms, name) else if m.0 == name then m.1 else Null)
    ensures HasMember(ms + [m], name) <==> HasMember(ms, name) || m.0 == name
  {
    if ms != [] {
      LookupConcat(ms[1..], m, name);
      assert (ms + [m])[1..] == ms[1..] + [m];
    } else {
      assert ([] + [m])[1..] == [];
    }
  }

  function Get(v: Value, name: string): Value
    requires v.Obj?
  {
    Lookup(v.members, name)
  }

  // ---- numbers in names ----

  predicate IsSpace(c: char) { c == ' ' || '\t' <= c <= '\r' }

  function SkipSpace(s: string): (r: string)
    ensures |r| <= |s|
  {
    if s != "" && IsSpace(s[0]) then SkipSpace(s[1..]) else s
  }

  /** The digits s starts with, behind those already read. */
  function LeadingNumber(s: string, read: nat): nat {
    if s != "" && Decimal.IsDigit(s[0]) then LeadingNumber(s[1..], 10 * read + (s[0] - '0') as nat) else read
  }

  function Saturate(n: int): int {
    if n < -0x8000_0000_0000_0000 then -0x8000_0000_0000_0000
    else if n >= 0x8000_0000_0000_0000 then 0x7fff_ffff_ffff_ffff
    else n
  }

  /** strtol to base 10: what precedes and follows the number is ignored, and no number at all is 0. */
  function StrToL(s: string): int {
    var t := SkipSpace(s);
    Saturate(
      if t != "" && t[0] == '-' then 0 - LeadingNumber(t[1..], 0) as int
      else if t != "" && t[0] == '+' then LeadingNumber(t[1..], 0)
      else LeadingNumber(t, 0))
  }

  /** A long converted to an int: the low 32 bits. */
  function Narrow(n: int): int {
    if Int32(n) then n else (n + 0x8000_0000) % 0x1_0000_0000 - 0x8000_0000
  }

  function Unsigned(s: string): string { if s != "" && (s[0] == '-' || s[0] == '+') then s[1..] else s }

  /** A whole text that is a 32-bit integer. */
  predicate LexicalInt(s: string) {
    Unsigned(s) != "" && Decimal.AllDigits(Unsigned(s)) && Int32(StrToL(s))
  }

  // ---- what number a name stands for ----

  /** Nothing, or something that is no digit. */
  predicate NoMoreDigits(rest: string) { rest == "" || !Decimal.IsDigit(rest[0]) }

  /** Digits are read from the left, behind those of a number already read. */
  lemma {:induction false} LeadingDigits(before: string, digits: string, rest: string)
    requires Decimal.AllDigits(before) && Decimal.AllDigits(digits) && NoMoreDigits(rest)
    ensures Decimal.AllDigits(before + digits)
    ensures LeadingNumber(digits + rest, Decimal.NatOf(before)) == Decimal.NatOf(before + digits)
    decreases |digits|
  {
    if digits == "" {
      assert digits + rest == rest && before + digits == before;
    } else {
      var more := before + [digits[0]];
      assert more[..|more| - 1] == before;
      assert (digits + rest)[1..] == digits[1..] + rest && more + digits[1..] == before + digits;
      LeadingDigits(more, digits[1..], rest);
    }
  }

  lemma NumberInFront(n: nat, rest: string)
    requires NoMoreDigits(rest)
    ensures LeadingNumber(Decimal.Digits(n) + rest, 0) == n
    ensures Decimal.Digits(n) != "" && Decimal.IsDigit(Decimal.Digits(n)[0])
  {
    Decimal.NatOfDigits(n);
    LeadingDigits("", Decimal.Digits(n), rest);
    assert "" + Decimal.Digits(n) == Decimal.Digits(n);
  }

  predicate AllSpace(s: string) { forall i :: 0 <= i < |s| ==> IsSpace(s[i]) }

  lemma {:induction false} SpaceInFront(space: string, s: string)
    requires AllSpace(space) && (s == "" || !IsSpace(s[0]))
    ensures SkipSpace(space + s) == s
  {
    if space == "" {
      assert space + s == s;
    } else {
      assert (space + s)[1..] == space[1..] + s;
      SpaceInFront(space[1..], s);
    }
  }

  lemma BehindSpace(space: string, sign: string, digits: string, rest: string)
    requires AllSpace(space) && sign in {"", "-", "+"} && digits != "" && Decimal.IsDigit(digits[0])
    ensures StrToL(space + sign + digits + rest) ==
            Saturate(if sign == "-" then 0 - LeadingNumber(digits + rest, 0) as int
                     else LeadingNumber(digits + rest, 0))
  {
    var number := sign + digits + rest;
    assert space + sign + digits + rest == space + number;
    assert number[0] == (if sign == "" then digits[0] else sign[0]);
    assert number[if sign == "" then 0 else 1..] == digits + rest;
    SpaceInFront(space, number);
    hide SkipSpace, LeadingNumber, Saturate;
  }

  /** A name stands for the number whose decimal digits it shows, with its sign, whatever white space comes before
      and whatever comes behind; numbers that are no long are the nearest that is. */
  lemma StrToLReads(space: string, sign: string, n: nat, rest: string)
    requires AllSpace(space) && sign in {"", "-", "+"} && NoMoreDigits(rest)
    ensures StrToL(space + sign + Decimal.Digits(n) + rest) ==
            if sign == "-" then (if n <= 0x8000_0000_0000_0000 then 0 - n as int else -0x8000_0000_0000_0000)
            else (if n < 0x8000_0000_0000_0000 then n as int else 0x7fff_ffff_ffff_ffff)
  {
    hide StrToL, Decimal.Digits, LeadingNumber;
    NumberInFront(n, rest);
    BehindSpace(space, sign, Decimal.Digits(n), rest);
  }

  lemma UnsignedOf(sign: string, digits: string, rest: string)
    requires sign in {"", "-", "+"} && Decimal.AllDigits(digits) && NoMoreDigits(rest)
    requires sign == digits == "" && rest != "" ==> rest[0] != '-' && rest[0] != '+'
    ensures Unsigned(sign + digits + rest) == digits + rest
    ensures Decimal.AllDigits(digits + rest) <==> rest == ""
  {
    var s := sign + digits + rest;
    assert s[|sign|..] == digits + rest;
    if s != "" { assert s[0] == (if sign != "" then sign[0] else if digits != "" then digits[0] else rest[0]); }
    if rest != "" { assert (digits + rest)[|digits|] == rest[0]; }
  }

  lemma AllLeading(digits: string)
    requires Decimal.AllDigits(digits)
    ensures LeadingNumber(digits, 0) == Decimal.NatOf(digits)
  {
    LeadingDigits("", digits, "");
    assert digits + "" == digits && "" + digits == digits;
  }

  lemma NothingAround(s: string, t: string)
    ensures "" + s + t + "" == s + t && t + "" == t
  {
  }

  lemma SignedDigits(sign: string, digits: string)
    requires sign in {"", "-", "+"} && Decimal.AllDigits(digits) && digits != ""
    ensures StrToL(sign + digits) ==
            Saturate(if sign == "-" then 0 - Decimal.NatOf(digits) as int else Decimal.NatOf(digits))
  {
    hide LeadingNumber, StrToL, Decimal.NatOf, Saturate;
    AllLeading(digits);
    NothingAround(sign, digits);
    BehindSpace("", sign, digits, "");
  }

  /** A whole text is an integer if it is nothing but digits behind at most one sign, and they stand for an int. */
  lemma LexicalIntExactly(sign: string, digits: string, rest: string)
    requires sign in {"", "-", "+"} && Decimal.AllDigits(digits) && NoMoreDigits(rest)
    requires sign == digits == "" && rest != "" ==> rest[0] != '-' && rest[0] != '+'
    ensures var n := Decimal.NatOf(digits) as int;
      && (LexicalInt(sign + digits + rest) <==> digits != "" && rest == "" && Int32(if sign == "-" then -n else n))
      && (LexicalInt(sign + digits + rest) ==> StrToL(sign + digits + rest) == if sign == "-" then -n else n)
  {
    UnsignedOf(sign, digits, rest);
    hide StrToL, Decimal.NatOf, Unsigned, Decimal.AllDigits, NoMoreDigits;
    if digits != "" && rest == "" {
      SignedDigits(sign, digits);
      assert sign + digits + rest == sign + digits;
    }
  }

  /** A name that shows no number stands for 0. */
  lemma NoNumber(s: string)
    requires SkipSpace(s) == "" || (NoMoreDigits(SkipSpace(s)) && SkipSpace(s)[0] != '-' && SkipSpace(s)[0] != '+')
    ensures StrToL(s) == 0
  {
  }

  /** A long becomes the int that has the same low 32 bits. */
  lemma NarrowKeepsLowBits(n: int)
    ensures Int32(Narrow(n)) && (Narrow(n) - n) % 0x1_0000_0000 == 0
  {
  }

  /** The digits of a number, with its sign. */
  function NameOf(n: int): string {
    if n < 0 then "-" + Decimal.Digits(-n) else Decimal.Digits(n)
  }

  lemma NameIsLexical(n: int)
    requires Int32(n)
    ensures LexicalInt(NameOf(n))
  {
    var digits := Decimal.Digits(if n < 0 then -n else n);
    Decimal.NatOfDigits(if n < 0 then -n else n);
    hide LexicalInt, Decimal.Digits, Decimal.NatOf;
    LexicalIntExactly(if n < 0 then "-" else "", digits, "");
    assert (if n < 0 then "-" else "") + digits + "" == NameOf(n);
  }

  lemma NameStandsForNumber(n: int)
    requires -0x8000_0000_0000_0000 <= n < 0x8000_0000_0000_0000
    ensures StrToL(NameOf(n)) == n
  {
    hide StrToL, Decimal.Digits;
    var sign, digits := if n < 0 then "-" else "", Decimal.Digits(if n < 0 then -n else n);
    StrToLReads("", sign, if n < 0 then -n else n, "");
    assert "" + sign + digits + "" == NameOf(n);
  }
}
