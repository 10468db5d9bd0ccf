/** Loose numbers in front of packed blocks: serialising writes none, and where there are some the parser may err. */
module MixedNumbers {
  import opened Bytes
  import opened Wire
  import opened WireLaws
  import opened Codec
  import opened CodecLaws
  import opened Descriptors
  import opened MessageParser
  import opened MessageWriter

  /** Not a loose number, and no nested message that mixes. */
  predicate PlainToken(d: Descriptor, t: Token) {
    var i := Find(d.fields, t.number);
    i < |d.fields| ==> PartUnmixed(d.fields[i], t.payload) && !IsLoose(d.fields[i], TagOf(t))
  }

  predicate AllPlain(d: Descriptor, ts: seq<Token>) {
    forall i :: 0 <= i < |ts| ==> PlainToken(d, ts[i])
  }

  lemma {:induction false} PlainIsUnmixed(d: Descriptor, ts: seq<Token>)
    requires TokensOk(ts) && AllPlain(d, ts)
    ensures Unmixed(d, EncodeTokens(ts))
    decreases |ts|
  {
    if ts == [] {
    } else {
      PlainIsUnmixed(d, ts[1..]);
      UnmixedToken(d, ts[0], EncodeTokens(ts[1..]));
    }
  }

  lemma UnmixedToken(d: Descriptor, t: Token, rest: seq<byte>)
    requires TokenOk(t) && PlainToken(d, t) && Unmixed(d, rest)
    ensures Unmixed(d, EncodeToken(t) + rest)
  {
    hide ReadPayload, Wire.ReadTag, EncodePayload, Varint, PayloadOk, PartUnmixed, Find;
    var tag, body := Varint(TagOf(t)), EncodePayload(t.number, t.payload);
    TagRoundTrip(t.number, TypeOf(t.payload), body + rest);
    Associate(tag, body, rest);
    PayloadRoundTrip(t.number, t.payload, rest);
    assert UnmixedAfter(d, TagOf(t), body + rest);
  }

  /** What a field of numbers or of messages takes is not unknown. */
  lemma TakenIsKnown(d: Descriptor, t: Token)
    requires WellFormed(d)
    requires var i := Find(d.fields, t.number);
      i < |d.fields| && TypeOf(t.payload) == WireTypeOf(d.fields[i].kind) &&
      (d.fields[i].kind.Sub? || d.fields[i].mode.Packed?)
    ensures !Uninterpreted(d, t)
  {
    var i := Find(d.fields, t.number);
    KindOk(d, i);
    TagType(t.number, TypeOf(t.payload));
    hide WellFormed, Find, Parse, ReadPacked, FromWire, Store;
    var f := d.fields[i];
    assert !Decode(f, t.payload).Foreign?;
    StoreKeepsUnknown(d, Empty(d), i);
  }

  lemma StoreKeepsUnknown(d: Descriptor, m: Message, i: nat)
    requires i < |d.fields| == |m.slots|
    ensures forall vs, t :: Store(d, m, i, vs) != AddUnknown(m, t)
  {
    forall vs, t ensures Store(d, m, i, vs) != AddUnknown(m, t) {
      assert |Store(d, m, i, vs).unknown| < |AddUnknown(m, t).unknown|;
    }
  }

  /** No field claims an unknown token, so it is not a number of a field either. */
  lemma UnknownIsPlain(d: Descriptor, t: Token)
    requires WellFormed(d) && Uninterpreted(d, t)
    ensures PlainToken(d, t)
  {
    var i := Find(d.fields, t.number);
    TagType(t.number, TypeOf(t.payload));
    hide WellFormed, Find, Apply, Uninterpreted, Unmixed;
    if i < |d.fields| && TypeOf(t.payload) == WireTypeOf(d.fields[i].kind) {
      if d.fields[i].kind.Sub? || d.fields[i].mode.Packed? { TakenIsKnown(d, t); }
    }
  }

  lemma ValIsPlain(d: Descriptor, i: nat, v: Val)
    requires WellFormed(d) && i < |d.fields| && !d.fields[i].mode.Packed?
    requires ValOk(d.fields[i].kind, v) && ValFits(d.fields[i].kind, v)
    ensures PlainToken(d, Token(d.fields[i].number, PayloadOf(d.fields[i].kind, v)))
    decreases d, 0
  {
    var f := d.fields[i];
    KindOk(d, i);
    if f.kind.Sub? { WrittenIsUnmixed(f.kind.desc, v.message, v.message); }
    hide WellFormed, Find, Encode, Unmixed, MessageOk;
  }

  lemma {:induction false} ValsArePlain(d: Descriptor, i: nat, vs: seq<Val>)
    requires WellFormed(d) && i < |d.fields| && !d.fields[i].mode.Packed?
    requires forall j :: 0 <= j < |vs| ==> ValOk(d.fields[i].kind, vs[j]) && ValFits(d.fields[i].kind, vs[j])
    ensures AllPlain(d, ValTokens(d.fields[i], vs))
    decreases d, 1, |vs|
  {
    hide WellFormed, PlainToken, ValOk, ValFits, PayloadOf;
    if vs == [] {
    } else {
      ValIsPlain(d, i, vs[0]);
      ValsArePlain(d, i, vs[1..]);
    }
  }

  lemma SlotIsPlain(d: Descriptor, i: nat, vs: seq<Val>)
    requires WellFormed(d) && i < |d.fields| && SlotOk(d.fields[i], vs) && SlotFits(d.fields[i], vs)
    ensures AllPlain(d, SlotTokens(d.fields[i], vs))
    decreases d, 2
  {
    hide WellFormed, PlainToken, PackedBytes, ValTokens, ValOk, ValFits;
    if d.fields[i].mode.Packed? {
      BlockIsPlain(d, i, []);
      SlotOfNumbers(d.fields[i], vs);
      BlockIsPlain(d, i, PackedBytes(d.fields[i].kind, vs));
    } else {
      ValsArePlain(d, i, vs);
    }
  }

  lemma BlockIsPlain(d: Descriptor, i: nat, bytes: seq<byte>)
    requires WellFormed(d) && i < |d.fields| && d.fields[i].mode.Packed?
    ensures IsNumeric(d.fields[i].kind) && PlainToken(d, Token(d.fields[i].number, DelimitedP(bytes)))
  {
    KindOk(d, i);
    hide WellFormed, Find, Unmixed;
  }

  lemma {:induction false} FieldsArePlain(d: Descriptor, m: Message, i: nat)
    requires WellFormed(d) && MessageOk(d, m) && AllFit(d, m) && i <= |d.fields|
    ensures AllPlain(d, TokensFrom(d, m, i))
    decreases d, 3, |d.fields| - i
  {
    hide WellFormed, SlotTokens, PlainToken;
    if i == |d.fields| {
      forall j | 0 <= j < |m.unknown| ensures PlainToken(d, m.unknown[j]) {
        UnknownIsPlain(d, m.unknown[j]);
      }
    } else {
      assert SlotOk(d.fields[i], m.slots[i]) && SlotFits(d.fields[i], m.slots[i]);
      SlotIsPlain(d, i, m.slots[i]);
      FieldsArePlain(d, m, i + 1);
    }
  }

  /** What serialising writes is unmixed, and so is one message written behind another. */
  lemma {:induction false} WrittenIsUnmixed(d: Descriptor, a: Message, b: Message)
    requires WellFormed(d) && MessageOk(d, a) && Fits(d, a) && MessageOk(d, b) && Fits(d, b)
    ensures Unmixed(d, Encode(d, a)) && Unmixed(d, Encode(d, a) + Encode(d, b))
    decreases d, 4
  {
    var ts, us := TokensFrom(d, a, 0), TokensFrom(d, b, 0);
    EverythingFits(d, a);
    EverythingFits(d, b);
    FieldsArePlain(d, a, 0);
    FieldsArePlain(d, b, 0);
    hide WellFormed, MessageOk, AllFit, PlainToken, Unmixed, TokensFrom, EncodeTokens, TokensOk;
    PlainIsUnmixed(d, ts);
    TokensOkConcat(ts, us);
    PlainIsUnmixed(d, ts + us);
    EncodeTokensConcat(ts, us);
  }

  /** Loose numbers one behind the other do not mix, and neither does one block. So the parser, too, reads both
      encodings of repeated numbers alike. */
  lemma LooseOrPacked(d: Descriptor, m: Message, i: nat, vs: seq<Val>)
    requires WellFormed(d) && |m.slots| == |d.fields| && i < |d.fields|
    requires d.fields[i].mode.Packed? && SlotOk(d.fields[i], vs)
    requires NumbersOk(d.fields[i].kind, vs) && |PackedBytes(d.fields[i].kind, vs)| < LENGTH_LIMIT
    ensures var f := d.fields[i];
      var (packed, loose) :=
        (EncodeTokens([Token(f.number, DelimitedP(PackedBytes(f.kind, vs)))]), EncodeTokens(ValTokens(f, vs)));
      && Unmixed(d, packed) && Unmixed(d, loose)
      && ParseInto(d, m, packed) == ParseInto(d, m, loose) == Some(Store(d, m, i, vs))
  {
    var f := d.fields[i];
    PackedOrNot(d, m, i, vs);
    var t := Token(f.number, DelimitedP(PackedBytes(f.kind, vs)));
    BlockIsPlain(d, i, PackedBytes(f.kind, vs));
    BlockFits(d, i, vs);
    NumbersAreUnmixed(d, i, vs);
    hide WellFormed, ParseInto, PlainToken, PackedBytes, EncodeTokens, ValTokens, Unmixed, SlotOk;
    PlainIsUnmixed(d, [t]);
  }

  lemma BlockFits(d: Descriptor, i: nat, vs: seq<Val>)
    requires WellFormed(d) && i < |d.fields| && NumbersOk(d.fields[i].kind, vs)
    requires |PackedBytes(d.fields[i].kind, vs)| < LENGTH_LIMIT
    ensures TokensOk([Token(d.fields[i].number, DelimitedP(PackedBytes(d.fields[i].kind, vs)))])
  {
    KindOk(d, i);
    hide WellFormed, PackedBytes;
    var t := Token(d.fields[i].number, DelimitedP(PackedBytes(d.fields[i].kind, vs)));
    assert TokenOk(t) && [t][1..] == [];
  }

  lemma {:induction false} NumbersAreUnmixed(d: Descriptor, i: nat, vs: seq<Val>)
    requires WellFormed(d) && i < |d.fields| && d.fields[i].mode.Packed? && SlotOk(d.fields[i], vs)
    ensures Unmixed(d, EncodeTokens(ValTokens(d.fields[i], vs)))
    ensures !BlockNext(d.fields[i], EncodeTokens(ValTokens(d.fields[i], vs)))
    decreases |vs|
  {
    var f := d.fields[i];
    KindOk(d, i);
    if vs == [] {
    } else {
      NumbersAreUnmixed(d, i, vs[1..]);
      ValTokensSplit(f, vs);
      hide WellFormed, EncodeTokens, EncodeToken, ValTokens, Unmixed, PayloadOf;
      NumberInFront(d, i, vs[0], EncodeTokens(ValTokens(f, vs[1..])));
    }
  }

  lemma NumberInFront(d: Descriptor, i: nat, v: Val, rest: seq<byte>)
    requires WellFormed(d) && i < |d.fields| && d.fields[i].mode.Packed? && ValOk(d.fields[i].kind, v)
    requires Unmixed(d, rest) && !BlockNext(d.fields[i], rest)
    ensures var b := EncodeToken(Token(d.fields[i].number, PayloadOf(d.fields[i].kind, v))) + rest;
      Unmixed(d, b) && !BlockNext(d.fields[i], b)
  {
    var f := d.fields[i];
    KindOk(d, i);
    NumberPayloadOk(f.kind, v.n);
    var t := Token(f.number, PayloadOf(f.kind, v));
    var tag, body := MakeTag(f.number, WireTypeOf(f.kind)), EncodePayload(f.number, t.payload);
    TagType(f.number, WireTypeOf(f.kind));
    TagRoundTrip(f.number, WireTypeOf(f.kind), body + rest);
    PayloadRoundTrip(f.number, t.payload, rest);
    Associate(Varint(tag), body, rest);
    assert Varint(tag) == [tag as byte];
    hide WellFormed, Find, Unmixed, ReadPayload, Wire.ReadTag, EncodePayload, PayloadOf, Varint;
    assert UnmixedAfter(d, tag, body + rest);
  }

  // ---- where numbers are mixed ----

  const INTEGERS := 5  // index of value_integer in FIELD
  const LOOSE := 48    // its tag as a number that is not packed
  const BLOCK := 50    // its tag as a packed block

  lemma SmallVarint(v: byte, rest: seq<byte>)
    requires v < 128
    ensures Wire.ReadVarint([v] + rest) == Some((v as nat, rest))
    ensures Wire.ReadVarint32([v] + rest) == Some((v as nat, rest))
  {
    assert Varint(v as nat) == [v];
    hide Varint, ReadGroups;
    VarintRoundTrip(v as nat, rest);
  }

  lemma IntegersAt()
    ensures |FIELD.fields| == 8 && FIELD.fields[INTEGERS].kind == Int64 && FIELD.fields[INTEGERS].mode == Packed
    ensures FIELD.fields[INTEGERS].number == 6 && Find(FIELD.fields, 6) == INTEGERS
    ensures FIELD.fields[0].kind == Text && FIELD.fields[0].mode == Singular && Find(FIELD.fields, 1) == 0
  {
    FieldIsWellFormed();
    KindOk(FIELD, INTEGERS);
    KindOk(FIELD, 0);
  }

  lemma LooseNumber(m: Message, v: byte, rest: seq<byte>)
    requires |m.slots| == |FIELD.fields| && v < 128
    ensures INTEGERS < |FIELD.fields|
    ensures Outcome(FIELD, m, LOOSE, [v] + rest) == Some((Store(FIELD, m, INTEGERS, [Num(v as int)]), rest))
  {
    IntegersAt();
    SmallVarint(v, rest);
    hide FIELD, Find, Wire.ReadVarint;
  }

  lemma OnePacked(v: byte, rest: seq<byte>)
    requires v < 128 && ReadPacked(Int64, rest).Some?
    ensures ReadPacked(Int64, [v] + rest) == Some([Num(v as int)] + ReadPacked(Int64, rest).value)
  {
    SmallVarint(v, rest);
    hide Wire.ReadVarint, Wire.ReadFixed;
    assert FromWire(Int64, v as nat) == v as int;
  }

  lemma TwoPacked(v: byte, w: byte)
    requires v < 128 && w < 128
    ensures ReadPacked(Int64, [v, w]) == Some([Num(v as int), Num(w as int)])
  {
    assert [v, w] == [v] + [w] && [w] == [w] + [];
    assert ReadPacked(Int64, []) == Some([]);
    hide ReadPacked;
    OnePacked(w, []);
    OnePacked(v, [w]);
    assert [Num(w as int)] + [] == [Num(w as int)];
    assert [Num(v as int)] + [Num(w as int)] == [Num(v as int), Num(w as int)];
  }

  lemma PackedBlock(m: Message, v: byte, w: byte)
    requires |m.slots| == |FIELD.fields| && v < 128 && w < 128
    ensures INTEGERS < |FIELD.fields|
    ensures Outcome(FIELD, m, BLOCK, [2, v, w]) == Some((Store(FIELD, m, INTEGERS, [Num(v as int), Num(w as int)]), []))
  {
    IntegersAt();
    assert [2, v, w] == [2] + [v, w] && [v, w][..2] == [v, w] && [v, w][2..] == [];
    SmallVarint(2, [v, w]);
    TwoPacked(v, w);
    hide FIELD, Find, Wire.ReadVarint, ReadVarint32, ReadPacked, Store;
    assert ReadDelimited([2, v, w]) == Some(([v, w], []));
  }

  lemma NameAsNumber(m: Message, v: byte)
    requires |m.slots| == |FIELD.fields| && v < 128
    ensures Outcome(FIELD, m, 8, [v]) == Some((AddUnknown(m, Token(1, VarintP(v as nat))), []))
  {
    IntegersAt();
    assert [v] == [v] + [];
    SmallVarint(v, []);
    hide FIELD, Find, Wire.ReadVarint;
  }

  lemma ParseLast(m: Message, tag: byte, b: seq<byte>, next: Message)
    requires |m.slots| == |next.slots| == |FIELD.fields| && 0 < tag < 128
    requires Outcome(FIELD, m, tag as nat, b) == Some((next, []))
    ensures ParseInto(FIELD, m, [tag] + b) == Some(next)
  {
    ReadSmallTag(tag as nat, b);
    PlainLoop(FIELD, m, [tag] + b);
    PlainLoop(FIELD, next, []);
    hide FIELD, ParseInto, Outcome;
  }

  const MIXED: seq<byte> := [50, 2, 8, 1]

  lemma MixedPlainly(m: Message)
    requires |m.slots| == |FIELD.fields|
    ensures INTEGERS < |FIELD.fields|
    ensures ParseInto(FIELD, m, MIXED) == Some(Store(FIELD, m, INTEGERS, [Num(8), Num(1)]))
  {
    IntegersAt();
    PackedBlock(m, 8, 1);
    hide FIELD, Find, ParseInto, Outcome, Store;
    assert MIXED == [50] + [2, 8, 1];
    ParseLast(m, 50, [2, 8, 1], Store(FIELD, m, INTEGERS, [Num(8), Num(1)]));
  }

  lemma MixedAhead(m: Message)
    requires |m.slots| == |FIELD.fields|
    ensures INTEGERS < |FIELD.fields|
    ensures MoreNumbers(FIELD, m, INTEGERS, MIXED, 1) == Some((Store(FIELD, m, INTEGERS, [Num(2)]), [8, 1]))
  {
    IntegersAt();
    NoneYet(FIELD, m, INTEGERS, MIXED);
    OneMoreNumber(FIELD, m, INTEGERS, MIXED, 0);
    assert MIXED[1..] == [2] + [8, 1];
    LooseNumber(m, 2, [8, 1]);
    hide FIELD, Find, MoreNumbers, Outcome, Store;
  }

  lemma RestOfMixed(m: Message)
    requires |m.slots| == |FIELD.fields|
    ensures ParseInto(FIELD, m, [8, 1]) == Some(AddUnknown(m, Token(1, VarintP(1))))
  {
    NameAsNumber(m, 1);
    hide FIELD, ParseInto, Outcome;
    assert [8, 1] == [8] + [1];
    ParseLast(m, 8, [1], AddUnknown(m, Token(1, VarintP(1))));
  }

  /** Behind the loose number 5 stands the block of 8 and 1. The bytes mean 5, 8, 1; reading one number ahead
      takes the length of the block for a number and its content for another field, and succeeds. */
  lemma MixedMatters()
    ensures INTEGERS < |FIELD.fields|
    ensures var (m, b) := (Empty(FIELD), [5] + MIXED);
      var (plain, ahead) := (Outcome(FIELD, m, LOOSE, b), OutcomeAhead(FIELD, m, LOOSE, b, 1));
      && plain.Some? && ahead.Some?
      && var (p, a) := (ParseInto(FIELD, plain.value.0, plain.value.1), ParseInto(FIELD, ahead.value.0, ahead.value.1));
         && p.Some? && p.value.slots[INTEGERS] == [Num(5), Num(8), Num(1)]
         && a.Some? && a.value.slots[INTEGERS] == [Num(5), Num(2)]
  {
    IntegersAt();
    hide FIELD, Find, ParseInto, MoreNumbers, Outcome, MIXED, Store;
    var m := Empty(FIELD);
    var five := Store(FIELD, m, INTEGERS, [Num(5)]);
    LooseNumber(m, 5, MIXED);
    MixedPlainly(five);
    MixedAhead(five);
    var two := Store(FIELD, five, INTEGERS, [Num(2)]);
    RestOfMixed(two);
    StoredTwice([Num(5)], [Num(8), Num(1)]);
    StoredTwice([Num(5)], [Num(2)]);
    assert [Num(5)] + [Num(8), Num(1)] == [Num(5), Num(8), Num(1)] && [Num(5)] + [Num(2)] == [Num(5), Num(2)];
    assert IsLoose(FIELD.fields[INTEGERS], LOOSE);
  }

  lemma StoredTwice(vs: seq<Val>, ws: seq<Val>)
    ensures INTEGERS < |FIELD.fields|
    ensures var once := Store(FIELD, Empty(FIELD), INTEGERS, vs);
      |once.slots| == |FIELD.fields| && Store(FIELD, once, INTEGERS, ws).slots[INTEGERS] == vs + ws
  {
    IntegersAt();
    hide FIELD, Find;
    assert [] + vs == vs;
  }
}
