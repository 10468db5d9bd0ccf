/** Tokens read back as written, and reading one is not disturbed by what follows it. */
module WireLaws {
  import opened Bytes
  import opened Wire

  // ---- locality ----

  lemma DelimitedLocal(b: seq<byte>, more: seq<byte>)
    requires ReadDelimited(b).Some?
    ensures ReadDelimited(b + more) == Extend(ReadDelimited(b), more)
  {
    hide ReadVarint32;
    VarintLocal(b, more);
    var (n, rest) := ReadVarint32(b).value;
    RawLocal(rest, n, more);
  }

  lemma FixedLocal(b: seq<byte>, width: nat, more: seq<byte>)
    requires width <= |b|
    ensures ReadFixed(b + more, width) == Extend(ReadFixed(b, width), more)
  {
    RawLocal(b, width, more);
    hide LittleEndian;
  }

  lemma TagLocal(b: seq<byte>, more: seq<byte>)
    requires ReadTag(b).Some?
    ensures ReadTag(b + more) == Extend(ReadTag(b), more)
  {
    hide ReadVarint32;
    VarintLocal(b, more);
  }

  lemma {:induction false} PayloadLocal(tag: nat, b: seq<byte>, more: seq<byte>)
    requires ReadPayload(tag, b).Some?
    ensures ReadPayload(tag, b + more) == Extend(ReadPayload(tag, b), more)
    decreases |b|, 1
  {
    hide ReadVarint, ReadDelimited, ReadFixed, ReadGroup;
    var wireType := tag % 8;
    if wireType == VARINT {
      VarintLocal(b, more);
    } else if wireType == FIXED64 {
      FixedLocal(b, 8, more);
    } else if wireType == DELIMITED {
      DelimitedLocal(b, more);
    } else if wireType == START_GROUP {
      GroupLocal(tag / 8, b, more);
    } else {
      FixedLocal(b, 4, more);
    }
  }

  lemma {:induction false} GroupLocal(number: nat, b: seq<byte>, more: seq<byte>)
    requires ReadGroup(number, b).Some?
    ensures ReadGroup(number, b + more) == Extend(ReadGroup(number, b), more)
    decreases |b|, 0
  {
    hide ReadTag, ReadPayload;
    TagLocal(b, more);
    var (tag, rest) := ReadTag(b).value;
    if tag % 8 != END_GROUP {
      PayloadLocal(tag, rest, more);
      GroupLocal(number, ReadPayload(tag, rest).value.1, more);
    }
  }

  lemma TokenLocal(b: seq<byte>, more: seq<byte>)
    requires ReadToken(b).Some?
    ensures ReadToken(b + more) == Extend(ReadToken(b), more)
  {
    hide ReadTag, ReadPayload;
    TagLocal(b, more);
    var (tag, rest) := ReadTag(b).value;
    PayloadLocal(tag, rest, more);
  }

  function Prepend(ts: seq<Token>, r: Option<seq<Token>>): Option<seq<Token>> {
    match r
    case None => None
    case Some(us) => Some(ts + us)
  }

  /** Well-formed bytes in front only add their tokens. */
  lemma {:induction false} TokensOfConcat(a: seq<byte>, b: seq<byte>)
    requires ReadTokens(a).Some?
    ensures ReadTokens(a + b) == Prepend(ReadTokens(a).value, ReadTokens(b))
    decreases |a|
  {
    hide ReadToken;
    if a == [] {
      assert a + b == b;
      if ReadTokens(b).Some? { assert [] + ReadTokens(b).value == ReadTokens(b).value; }
    } else {
      TokenLocal(a, b);
      var (t, rest) := ReadToken(a).value;
      TokensOfConcat(rest, b);
      if ReadTokens(b).Some? {
        Associate([t], ReadTokens(rest).value, ReadTokens(b).value);
      }
    }
  }

  // ---- round trip ----

  lemma FixedRoundTrip(n: nat, width: nat, rest: seq<byte>)
    requires n < Pow256(width)
    ensures ReadFixed(ToLittleEndian(n, width) + rest, width) == Some((n, rest))
  {
    LittleEndianRoundTrip(n, width);
    RawRoundTrip(ToLittleEndian(n, width), rest);
    hide LittleEndian, ToLittleEndian;
  }

  lemma DelimitedRoundTrip(bytes: seq<byte>, rest: seq<byte>)
    requires |bytes| < TWO32
    ensures ReadDelimited(Varint(|bytes|) + bytes + rest) == Some((bytes, rest))
  {
    hide Varint, ReadVarint32, ReadRaw;
    Associate(Varint(|bytes|), bytes, rest);
    VarintRoundTrip(|bytes|, bytes + rest);
    RawRoundTrip(bytes, rest);
  }

  lemma TagRoundTrip(number: nat, wireType: nat, rest: seq<byte>)
    requires number < NUMBER_LIMIT && wireType < 8 && MakeTag(number, wireType) != 0
    ensures ReadTag(Varint(MakeTag(number, wireType)) + rest) == Some((MakeTag(number, wireType), rest))
    ensures MakeTag(number, wireType) / 8 == number && MakeTag(number, wireType) % 8 == wireType
  {
    hide Varint, ReadVarint32;
    VarintRoundTrip(MakeTag(number, wireType), rest);
  }

  lemma {:induction false} PayloadRoundTrip(number: nat, p: Payload, rest: seq<byte>)
    requires number < NUMBER_LIMIT && PayloadOk(p)
    ensures ReadPayload(MakeTag(number, TypeOf(p)), EncodePayload(number, p) + rest) == Some((p, rest))
    decreases p, 0
  {
    hide ReadVarint, ReadDelimited, ReadFixed, ReadGroup, Varint, ToLittleEndian, EncodeTokens;
    assert MakeTag(number, TypeOf(p)) % 8 == TypeOf(p) && MakeTag(number, TypeOf(p)) / 8 == number;
    match p
    case VarintP(v) => VarintRoundTrip(v, rest);
    case Fixed64P(bits) => FixedRoundTrip(bits, 8, rest);
    case DelimitedP(bytes) => DelimitedRoundTrip(bytes, rest);
    case GroupP(tokens) => GroupRoundTrip(number, tokens, rest);
    case Fixed32P(word) => FixedRoundTrip(word, 4, rest);
  }

  lemma {:induction false} TokenRoundTrip(t: Token, rest: seq<byte>)
    requires TokenOk(t)
    ensures ReadToken(EncodeToken(t) + rest) == Some((t, rest))
    ensures EncodeToken(t) != []
    decreases t, 1
  {
    hide ReadPayload, ReadTag, EncodePayload, Varint, PayloadOk;
    var tag, body := Varint(TagOf(t)), EncodePayload(t.number, t.payload);
    TagRoundTrip(t.number, TypeOf(t.payload), body + rest);
    Associate(tag, body, rest);
    PayloadRoundTrip(t.number, t.payload, rest);
  }

  lemma {:induction false} GroupRoundTrip(number: nat, ts: seq<Token>, rest: seq<byte>)
    requires number < NUMBER_LIMIT && TokensOk(ts)
    ensures ReadGroup(number, EncodeTokens(ts) + Varint(MakeTag(number, END_GROUP)) + rest) == Some((ts, rest))
    decreases ts
  {
    hide ReadPayload, ReadTag, Varint, EncodeToken, TokenOk;
    var end := Varint(MakeTag(number, END_GROUP));
    if ts == [] {
      TagRoundTrip(number, END_GROUP, rest);
      assert [] + end + rest == end + rest;
    } else {
      var tail := EncodeTokens(ts[1..]) + end + rest;
      TokenRoundTrip(ts[0], tail);
      assert EncodeTokens(ts) + end + rest == EncodeToken(ts[0]) + tail;
      GroupRoundTrip(number, ts[1..], rest);
      NotAnEnd(EncodeToken(ts[0]) + tail);
      assert [ts[0]] + ts[1..] == ts;
    }
  }

  lemma NotAnEnd(b: seq<byte>)
    requires ReadToken(b).Some?
    ensures ReadTag(b).Some? && ReadTag(b).value.0 % 8 != END_GROUP
  {
    hide ReadTag;
  }

  /** Everything that can be written is read back. */
  lemma {:induction false} TokensRoundTrip(ts: seq<Token>)
    requires TokensOk(ts)
    ensures ReadTokens(EncodeTokens(ts)) == Some(ts)
    decreases ts
  {
    hide ReadToken, EncodeToken, TokenOk;
    if ts == [] {
    } else {
      TokenRoundTrip(ts[0], EncodeTokens(ts[1..]));
      TokensRoundTrip(ts[1..]);
      assert [ts[0]] + ts[1..] == ts;
    }
  }

  lemma {:induction false} EncodeTokensConcat(ts: seq<Token>, us: seq<Token>)
    ensures EncodeTokens(ts + us) == EncodeTokens(ts) + EncodeTokens(us)
  {
    hide EncodeToken;
    if ts == [] {
      assert ts + us == us;
    } else {
      assert (ts + us)[1..] == ts[1..] + us;
      EncodeTokensConcat(ts[1..], us);
    }
  }

  // ---- whatever is read can be written ----

  lemma {:induction false} ReadPayloadIsOk(tag: nat, b: seq<byte>)
    requires tag < TWO32 && ReadPayload(tag, b).Some?
    ensures PayloadOk(ReadPayload(tag, b).value.0)
    decreases |b|, 1
  {
    hide ReadVarint, ReadDelimited, ReadFixed, ReadGroup;
    if tag % 8 == START_GROUP { ReadGroupIsOk(tag / 8, b); }
  }

  lemma {:induction false} ReadGroupIsOk(number: nat, b: seq<byte>)
    requires ReadGroup(number, b).Some?
    ensures TokensOk(ReadGroup(number, b).value.0)
    decreases |b|, 0
  {
    hide ReadTag, ReadPayload, PayloadOk;
    var (tag, rest) := ReadTag(b).value;
    if tag % 8 != END_GROUP {
      ReadPayloadIsOk(tag, rest);
      var (payload, rest2) := ReadPayload(tag, rest).value;
      ReadGroupIsOk(number, rest2);
      var ts := ReadGroup(number, b).value.0;
      assert ts[1..] == ReadGroup(number, rest2).value.0;
    }
  }

  lemma ReadTokenIsOk(b: seq<byte>)
    requires ReadToken(b).Some?
    ensures TokenOk(ReadToken(b).value.0)
  {
    hide ReadTag, ReadPayload, PayloadOk;
    var (tag, rest) := ReadTag(b).value;
    ReadPayloadIsOk(tag, rest);
  }

  lemma {:induction false} ReadTokensAreOk(b: seq<byte>)
    requires ReadTokens(b).Some?
    ensures TokensOk(ReadTokens(b).value)
    decreases |b|
  {
    hide ReadToken, TokenOk;
    if b == [] {
    } else {
      ReadTokenIsOk(b);
      var (t, rest) := ReadToken(b).value;
      ReadTokensAreOk(rest);
      assert ([t] + ReadTokens(rest).value)[1..] == ReadTokens(rest).value;
    }
  }

  // ---- sizes ----

  lemma {:induction false} TokenInside(ts: seq<Token>, i: nat)
    requires i < |ts|
    ensures |EncodeToken(ts[i])| <= |EncodeTokens(ts)|
  {
    hide EncodeToken;
    if i == 0 {
    } else {
      TokenInside(ts[1..], i - 1);
    }
  }
}
