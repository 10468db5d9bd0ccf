/** The wire format of protocol buffers: base 128 varints, tags and tokens, groups included.
    Defined after the Protocol Buffers Encoding guide; the runtime library is not part of this model. */
module Wire {
  import opened Bytes

  const TWO32 := 0x1_0000_0000
  const TWO64 := 0x1_0000_0000_0000_0000
  const NUMBER_LIMIT := 0x2000_0000
  const LENGTH_LIMIT := 0x8000_0000
  const MAX_VARINT := 10

  // ---- varints ----

  /** Seven bits a byte, low bits first. */
  function Varint(v: nat): (bs: seq<byte>)
    ensures |bs| == VarintSize(v)
  {
    if v < 128 then [v as byte] else [(128 + v % 128) as byte] + Varint(v / 128)
  }

  function VarintSize(v: nat): (n: nat)
    ensures n >= 1
  {
    if v < 128 then 1 else 1 + VarintSize(v / 128)
  }

  /** At most k bytes; what is left over comes along. */
  function ReadGroups(b: seq<byte>, k: nat): (r: Option<(nat, seq<byte>)>)
    ensures r.Some? ==> |r.value.1| < |b|
  {
    if k == 0 || b == [] then None
    else if b[0] < 128 then Some((b[0] as nat, b[1..]))
    else
      match ReadGroups(b[1..], k - 1)
      case None => None
      case Some((high, rest)) => Some((b[0] as nat - 128 + 128 * high, rest))
  }

  function ReadVarint(b: seq<byte>): (r: Option<(nat, seq<byte>)>)
    ensures r.Some? ==> r.value.0 < TWO64 && |r.value.1| < |b|
  {
    match ReadGroups(b, MAX_VARINT)
    case None => None
    case Some((v, rest)) => Some((v % TWO64, rest))
  }

  function ReadVarint32(b: seq<byte>): (r: Option<(nat, seq<byte>)>)
    ensures r.Some? ==> r.value.0 < TWO32 && |r.value.1| < |b|
  {
    match ReadVarint(b)
    case None => None
    case Some((v, rest)) => Some((v % TWO32, rest))
  }

  lemma {:induction false} GroupsRoundTrip(v: nat, rest: seq<byte>, k: nat)
    requires VarintSize(v) <= k
    ensures ReadGroups(Varint(v) + rest, k) == Some((v, rest))
  {
    var b := Varint(v) + rest;
    if v >= 128 {
      GroupsRoundTrip(v / 128, rest, k - 1);
      assert b[1..] == Varint(v / 128) + rest;
    } else {
      assert b[1..] == rest;
    }
  }

  function Pow128(k: nat): nat { if k == 0 then 1 else 128 * Pow128(k - 1) }

  lemma {:induction false} VarintSizeBound(v: nat, k: nat)
    requires k >= 1 && v < Pow128(k)
    ensures VarintSize(v) <= k
  {
    if v >= 128 { VarintSizeBound(v / 128, k - 1); }
  }

  lemma VarintRoundTrip(v: nat, rest: seq<byte>)
    requires v < TWO64
    ensures ReadVarint(Varint(v) + rest) == Some((v, rest))
    ensures v < TWO32 ==> ReadVarint32(Varint(v) + rest) == Some((v, rest))
  {
    hide ReadGroups, Varint, VarintSize, Pow128;
    TenGroups();
    VarintSizeBound(v, MAX_VARINT);
    GroupsRoundTrip(v, rest, MAX_VARINT);
  }

  lemma TenGroups()
    ensures TWO64 < Pow128(MAX_VARINT)
  {
    assert Pow128(10) == 0x40_0000_0000_0000_0000;
  }

  /** Reading does not look past what it takes. */
  lemma {:induction false} GroupsLocal(b: seq<byte>, more: seq<byte>, k: nat)
    requires ReadGroups(b, k).Some?
    ensures ReadGroups(b + more, k) == Some((ReadGroups(b, k).value.0, ReadGroups(b, k).value.1 + more))
  {
    assert (b + more)[1..] == b[1..] + more;
    if b[0] >= 128 { GroupsLocal(b[1..], more, k - 1); }
  }

  function Extend<T>(r: Option<(T, seq<byte>)>, more: seq<byte>): Option<(T, seq<byte>)> {
    match r
    case None => None
    case Some((x, rest)) => Some((x, rest + more))
  }

  lemma VarintLocal(b: seq<byte>, more: seq<byte>)
    ensures ReadVarint(b).Some? ==> ReadVarint(b + more) == Extend(ReadVarint(b), more)
    ensures ReadVarint32(b).Some? ==> ReadVarint32(b + more) == Extend(ReadVarint32(b), more)
  {
    hide ReadGroups;
    if ReadVarint(b).Some? { GroupsLocal(b, more, MAX_VARINT); }
  }

  // ---- raw bytes ----

  function ReadRaw(b: seq<byte>, n: nat): (r: Option<(seq<byte>, seq<byte>)>)
    ensures r.Some? ==> |r.value.0| == n && |r.value.1| + n == |b|
  {
    if n <= |b| then Some((b[..n], b[n..])) else None
  }

  function ReadDelimited(b: seq<byte>): (r: Option<(seq<byte>, seq<byte>)>)
    ensures r.Some? ==> |r.value.0| < TWO32 && |r.value.0| + |r.value.1| < |b|
  {
    match ReadVarint32(b)
    case None => None
    case Some((n, rest)) => ReadRaw(rest, n)
  }

  function ReadFixed(b: seq<byte>, width: nat): (r: Option<(nat, seq<byte>)>)
    ensures r.Some? ==> r.value.0 < Pow256(width) && |r.value.1| + width == |b|
  {
    match ReadRaw(b, width)
    case None => None
    case Some((raw, rest)) => LittleEndianBound(raw); Some((LittleEndian(raw), rest))
  }

  lemma RawLocal(b: seq<byte>, n: nat, more: seq<byte>)
    requires n <= |b|
    ensures ReadRaw(b + more, n) == Extend(ReadRaw(b, n), more)
  {
    assert (b + more)[..n] == b[..n] && (b + more)[n..] == b[n..] + more;
  }

  lemma RawRoundTrip(raw: seq<byte>, rest: seq<byte>)
    ensures ReadRaw(raw + rest, |raw|) == Some((raw, rest))
  {
  }

  // ---- tags and tokens ----

  const VARINT := 0
  const FIXED64 := 1
  const DELIMITED := 2
  const START_GROUP := 3
  const END_GROUP := 4
  const FIXED32 := 5

  function MakeTag(number: nat, wireType: nat): nat { number * 8 + wireType }

  datatype Payload =
    | VarintP(v: nat)
    | Fixed64P(bits: nat)
    | DelimitedP(bytes: seq<byte>)
    | GroupP(tokens: seq<Token>)
    | Fixed32P(word: nat)

  datatype Token = Token(number: nat, payload: Payload)

  function TypeOf(p: Payload): (t: nat)
    ensures t < 8
  {
    match p
    case VarintP(_) => VARINT
    case Fixed64P(_) => FIXED64
    case DelimitedP(_) => DELIMITED
    case GroupP(_) => START_GROUP
    case Fixed32P(_) => FIXED32
  }

  function TagOf(t: Token): nat { MakeTag(t.number, TypeOf(t.payload)) }

  /** A tag is a varint of 32 bits, and never 0. */
  function ReadTag(b: seq<byte>): (r: Option<(nat, seq<byte>)>)
    ensures r.Some? ==> 0 < r.value.0 < TWO32 && |r.value.1| < |b|
  {
    match ReadVarint32(b)
    case None => None
    case Some((tag, rest)) => if tag == 0 then None else Some((tag, rest))
  }

  /** What follows a tag. */
  function ReadPayload(tag: nat, b: seq<byte>): (r: Option<(Payload, seq<byte>)>)
    ensures r.Some? ==> |r.value.1| <= |b| && TypeOf(r.value.0) == tag % 8
    decreases |b|, 1
  {
    var wireType := tag % 8;
    if wireType == VARINT then Wrap(ReadVarint(b), v => VarintP(v))
    else if wireType == FIXED64 then Wrap(ReadFixed(b, 8), v => Fixed64P(v))
    else if wireType == DELIMITED then Wrap(ReadDelimited(b), v => DelimitedP(v))
    else if wireType == START_GROUP then Wrap(ReadGroup(tag / 8, b), v => GroupP(v))
    else if wireType == FIXED32 then Wrap(ReadFixed(b, 4), v => Fixed32P(v))
    else None
  }

  function Wrap<T>(r: Option<(T, seq<byte>)>, f: T -> Payload): Option<(Payload, seq<byte>)> {
    match r
    case None => None
    case Some((x, rest)) => Some((f(x), rest))
  }

  /** The tokens of a group and its end tag. */
  function ReadGroup(number: nat, b: seq<byte>): (r: Option<(seq<Token>, seq<byte>)>)
    ensures r.Some? ==> |r.value.1| < |b|
    decreases |b|, 0
  {
    match ReadTag(b)
    case None => None
    case Some((tag, rest)) =>
      if tag % 8 == END_GROUP then (if tag / 8 == number then Some(([], rest)) else None)
      else
        match ReadPayload(tag, rest)
        case None => None
        case Some((payload, rest2)) =>
          match ReadGroup(number, rest2)
          case None => None
          case Some((tokens, rest3)) => Some(([Token(tag / 8, payload)] + tokens, rest3))
  }

  function ReadToken(b: seq<byte>): (r: Option<(Token, seq<byte>)>)
    ensures r.Some? ==> |r.value.1| < |b|
  {
    match ReadTag(b)
    case None => None
    case Some((tag, rest)) =>
      match ReadPayload(tag, rest)
      case None => None
      case Some((payload, rest2)) => Some((Token(tag / 8, payload), rest2))
  }

  /** All of b as tokens; None if it is malformed anywhere. */
  function ReadTokens(b: seq<byte>): (r: Option<seq<Token>>)
    decreases |b|
  {
    if b == [] then Some([])
    else
      match ReadToken(b)
      case None => None
      case Some((t, rest)) =>
        match ReadTokens(rest)
        case None => None
        case Some(ts) => Some([t] + ts)
  }

  // ---- writing ----

  function EncodePayload(number: nat, p: Payload): seq<byte>
    decreases p, 0
  {
    match p
    case VarintP(v) => Varint(v)
    case Fixed64P(bits) => ToLittleEndian(bits, 8)
    case DelimitedP(bytes) => Varint(|bytes|) + bytes
    case GroupP(tokens) => EncodeTokens(tokens) + Varint(MakeTag(number, END_GROUP))
    case Fixed32P(word) => ToLittleEndian(word, 4)
  }

  function EncodeToken(t: Token): seq<byte>
    decreases t, 1
  {
    Varint(TagOf(t)) + EncodePayload(t.number, t.payload)
  }

  function EncodeTokens(ts: seq<Token>): seq<byte>
    decreases ts
  {
    if ts == [] then [] else EncodeToken(ts[0]) + EncodeTokens(ts[1..])
  }

  /** What can be written and read back. */
  ghost predicate PayloadOk(p: Payload)
    decreases p, 0
  {
    match p
    case VarintP(v) => v < TWO64
    case Fixed64P(bits) => bits < Pow256(8)
    case DelimitedP(bytes) => |bytes| < TWO32
    case GroupP(tokens) => TokensOk(tokens)
    case Fixed32P(word) => word < Pow256(4)
  }

  ghost predicate TokenOk(t: Token)
    decreases t, 1
  {
    t.number < NUMBER_LIMIT && TagOf(t) != 0 && PayloadOk(t.payload)
  }

  ghost predicate TokensOk(ts: seq<Token>)
    decreases ts
  {
    ts == [] || (TokenOk(ts[0]) && TokensOk(ts[1..]))
  }
}
