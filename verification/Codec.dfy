/** Messages described by a table of fields, and what their encoding means.

    message.pb.cc holds the same generated code once per message type; here the code is written once and each
    type is a table (module Descriptors). */
module Codec {
  import opened Bytes
  import opened Wire

  const TWO31 := 0x8000_0000
  const TWO63 := 0x8000_0000_0000_0000

  /** Text stands for string and bytes; a Double is its 64 bits. */
  datatype Kind = UInt32 | Int32 | Int64 | Bool | Enum(last: nat) | Double | Text | Sub(desc: Descriptor)

  datatype Mode = Singular | Repeated | Packed

  /** gotos: after this field, the tags expected next and the field whose case is then entered directly;
      atEnd: whether the end of the input is tried after those. */
  datatype Field = Field(number: nat, kind: Kind, mode: Mode, gotos: seq<(nat, nat)>, atEnd: bool)

  datatype Descriptor = Descriptor(fields: seq<Field>)

  datatype Val = Num(n: int) | Str(bytes: seq<byte>) | Msg(message: Message)

  /** One slot a field; a field that is not repeated has at most one value. */
  datatype Message = Message(slots: seq<seq<Val>>, unknown: seq<Token>)

  function Empty(d: Descriptor): (m: Message)
    ensures |m.slots| == |d.fields| && m.unknown == []
    ensures forall i :: 0 <= i < |d.fields| ==> m.slots[i] == []
  {
    Message(seq(|d.fields|, _ => []), [])
  }

  // ---- numbers ----

  predicate IsNumeric(k: Kind) { !k.Text? && !k.Sub? }

  function WireTypeOf(k: Kind): nat {
    if k.Double? then FIXED64 else if IsNumeric(k) then VARINT else DELIMITED
  }

  /** The wire type the field is written with. */
  function PrimaryType(f: Field): nat {
    if f.mode.Packed? then DELIMITED else WireTypeOf(f.kind)
  }

  predicate InRange(k: Kind, n: int)
    requires IsNumeric(k)
  {
    match k
    case UInt32 => 0 <= n < TWO32
    case Int32 => -TWO31 <= n < TWO31
    case Int64 => -TWO63 <= n < TWO63
    case Bool => 0 <= n < 2
    case Enum(last) => 0 <= n <= last
    case Double => 0 <= n < TWO64
  }

  /** Negative numbers are sign-extended to 64 bits. */
  function ToWire(n: int): nat
    requires -TWO63 <= n
  {
    if n < 0 then n + TWO64 else n
  }

  function Signed(w: nat, half: nat): int {
    if w < half then w else w - 2 * half
  }

  function FromWire(k: Kind, w: nat): int
    requires IsNumeric(k)
  {
    match k
    case UInt32 => w % TWO32
    case Int32 => Signed(w % TWO32, TWO31)
    case Int64 => Signed(w, TWO63)
    case Bool => if w % TWO32 != 0 then 1 else 0
    case Enum(_) => Signed(w % TWO32, TWO31)
    case Double => w
  }

  lemma NumberRoundTrip(k: Kind, n: int)
    requires IsNumeric(k) && InRange(k, n) && (k.Enum? ==> k.last < TWO31)
    ensures -TWO63 <= n && ToWire(n) < TWO64 && FromWire(k, ToWire(n)) == n
  {
  }

  // ---- reading ----

  function Find(fields: seq<Field>, number: nat): (i: nat)
    ensures i <= |fields|
    ensures i < |fields| ==> fields[i].number == number
    ensures forall j :: 0 <= j < i ==> fields[j].number != number
  {
    if fields == [] || fields[0].number == number then 0 else 1 + Find(fields[1..], number)
  }

  function ReadNumber(k: Kind, b: seq<byte>): (r: Option<(Val, seq<byte>)>)
    requires IsNumeric(k)
    ensures r.Some? ==> |r.value.1| < |b|
  {
    match if k.Double? then ReadFixed(b, 8) else ReadVarint(b)
    case None => None
    case Some((w, rest)) => Some((Num(FromWire(k, w)), rest))
  }

  /** The values of a packed field. */
  function ReadPacked(k: Kind, b: seq<byte>): Option<seq<Val>>
    requires IsNumeric(k)
    decreases |b|
  {
    if b == [] then Some([])
    else
      match ReadNumber(k, b)
      case None => None
      case Some((v, rest)) =>
        match ReadPacked(k, rest)
        case None => None
        case Some(vs) => Some([v] + vs)
  }

  datatype Decoded = Good(v: Val) | Foreign(t: Token) | Malformed

  /** One value; an enum value the type does not know goes to the unknown fields. */
  function Decode(f: Field, p: Payload): Decoded
    requires TypeOf(p) == WireTypeOf(f.kind)
    decreases f, 3, 0
  {
    match f.kind
    case Text => Good(Str(p.bytes))
    case Sub(desc) => (match Parse(desc, p.bytes) case None => Malformed case Some(m) => Good(Msg(m)))
    case Double => Good(Num(p.bits))
    case Enum(last) =>
      var n := FromWire(f.kind, p.v);
      if 0 <= n <= last then Good(Num(n)) else Foreign(Token(f.number, VarintP(ToWire(n))))
    case _ => Good(Num(FromWire(f.kind, p.v)))
  }

  function AddUnknown(m: Message, t: Token): Message { m.(unknown := m.unknown + [t]) }

  /** The last value of a singular field wins, others append. */
  function Combine(mode: Mode, a: seq<Val>, b: seq<Val>): seq<Val> {
    if mode.Singular? then (if b != [] then b else a) else a + b
  }

  function Store(d: Descriptor, m: Message, i: nat, vs: seq<Val>): Message
    requires i < |d.fields| == |m.slots|
  {
    m.(slots := m.slots[i := Combine(d.fields[i].mode, m.slots[i], vs)])
  }

  /** The effect of one token. */
  function Apply(d: Descriptor, m: Message, t: Token): (r: Option<Message>)
    requires |m.slots| == |d.fields|
    ensures r.Some? ==> |r.value.slots| == |d.fields|
    decreases d, 0, 0
  {
    var i := Find(d.fields, t.number);
    if i == |d.fields| then Some(AddUnknown(m, t))
    else
      var f := d.fields[i];
      if f.mode.Packed? && IsNumeric(f.kind) && t.payload.DelimitedP? then
        match ReadPacked(f.kind, t.payload.bytes)
        case None => None
        case Some(vs) => Some(Store(d, m, i, vs))
      else if TypeOf(t.payload) == WireTypeOf(f.kind) then
        match Decode(f, t.payload)
        case Good(v) => Some(Store(d, m, i, [v]))
        case Foreign(u) => Some(AddUnknown(m, u))
        case Malformed => None
      else Some(AddUnknown(m, t))
  }

  function ApplyAll(d: Descriptor, m: Message, ts: seq<Token>): (r: Option<Message>)
    requires |m.slots| == |d.fields|
    ensures r.Some? ==> |r.value.slots| == |d.fields|
    decreases d, 1, |ts|
  {
    if ts == [] then Some(m)
    else
      match Apply(d, m, ts[0])
      case None => None
      case Some(next) => ApplyAll(d, next, ts[1..])
  }

  /** Reading bytes into a message that may already hold something. */
  function ParseInto(d: Descriptor, m: Message, b: seq<byte>): (r: Option<Message>)
    requires |m.slots| == |d.fields|
    ensures r.Some? ==> |r.value.slots| == |d.fields|
    decreases d, 2, 0
  {
    match ReadTokens(b)
    case None => None
    case Some(ts) => ApplyAll(d, m, ts)
  }

  function Parse(d: Descriptor, b: seq<byte>): (r: Option<Message>)
    ensures r.Some? ==> |r.value.slots| == |d.fields|
    decreases d, 3, 0
  {
    ParseInto(d, Empty(d), b)
  }

  function Merge(d: Descriptor, a: Message, b: Message): (r: Message)
    requires |a.slots| == |b.slots| == |d.fields|
    ensures |r.slots| == |d.fields|
  {
    Message(seq(|d.fields|, i requires 0 <= i < |d.fields| => Combine(d.fields[i].mode, a.slots[i], b.slots[i])),
            a.unknown + b.unknown)
  }

  // ---- writing ----

  /** A table the generated code can come from: small ascending numbers, packed numbers only, and every goto
      leads to the case that its tag belongs to. */
  predicate WellFormed(d: Descriptor)
    decreases d, 1, 0
  {
    FieldsOk(d, 0)
  }

  predicate FieldsOk(d: Descriptor, i: nat)
    requires i <= |d.fields|
    decreases d, 0, |d.fields| - i
  {
    i == |d.fields| ||
    (FieldOk(d, d.fields[i]) &&
     (i > 0 ==> d.fields[i - 1].number < d.fields[i].number) &&
     (d.fields[i].kind.Sub? ==> WellFormed(d.fields[i].kind.desc)) &&
     FieldsOk(d, i + 1))
  }

  predicate FieldOk(d: Descriptor, f: Field) {
    0 < f.number < 16 &&
    (f.mode.Packed? ==> IsNumeric(f.kind) && !f.kind.Enum?) &&
    (f.kind.Sub? ==> f.mode.Repeated?) &&
    (f.kind.Enum? ==> f.kind.last < TWO31) &&
    GotosOk(d, f.gotos)
  }

  predicate GotosOk(d: Descriptor, gotos: seq<(nat, nat)>) {
    gotos == [] ||
    (gotos[0].1 < |d.fields| &&
     gotos[0].0 == MakeTag(d.fields[gotos[0].1].number, PrimaryType(d.fields[gotos[0].1])) &&
     GotosOk(d, gotos[1..]))
  }

  /** Not claimed by any field: reading it adds it to the unknown fields as it is. */
  predicate Uninterpreted(d: Descriptor, t: Token) {
    Apply(d, Empty(d), t) == Some(AddUnknown(Empty(d), t))
  }

  ghost predicate ValOk(k: Kind, v: Val)
    decreases k, 1
  {
    match k
    case Text => v.Str?
    case Sub(desc) => v.Msg? && MessageOk(desc, v.message)
    case _ => v.Num? && InRange(k, v.n)
  }

  ghost predicate SlotOk(f: Field, vs: seq<Val>)
    decreases f, 1
  {
    (f.mode.Singular? ==> |vs| <= 1) && forall j :: 0 <= j < |vs| ==> ValOk(f.kind, vs[j])
  }

  ghost predicate MessageOk(d: Descriptor, m: Message)
    decreases d, 0
  {
    |m.slots| == |d.fields| &&
    (forall i :: 0 <= i < |d.fields| ==> SlotOk(d.fields[i], m.slots[i])) &&
    (forall j :: 0 <= j < |m.unknown| ==> TokenOk(m.unknown[j]) && Uninterpreted(d, m.unknown[j]))
  }

  ghost function NumberPayload(k: Kind, n: int): (p: Payload)
    requires IsNumeric(k) && -TWO63 <= n
    ensures TypeOf(p) == WireTypeOf(k)
  {
    if k.Double? then Fixed64P(ToWire(n)) else VarintP(ToWire(n))
  }

  ghost function PayloadOf(k: Kind, v: Val): (p: Payload)
    requires ValOk(k, v)
    ensures TypeOf(p) == WireTypeOf(k)
    decreases k, 2
  {
    match k
    case Text => DelimitedP(v.bytes)
    case Sub(desc) => DelimitedP(Encode(desc, v.message))
    case _ => NumberPayload(k, v.n)
  }

  ghost function ValTokens(f: Field, vs: seq<Val>): (ts: seq<Token>)
    requires forall j :: 0 <= j < |vs| ==> ValOk(f.kind, vs[j])
    ensures |ts| == |vs|
    decreases f, 2, |vs|
  {
    if vs == [] then [] else [Token(f.number, PayloadOf(f.kind, vs[0]))] + ValTokens(f, vs[1..])
  }

  predicate NumbersOk(k: Kind, vs: seq<Val>) {
    IsNumeric(k) && forall j :: 0 <= j < |vs| ==> vs[j].Num? && InRange(k, vs[j].n)
  }

  lemma SlotOfNumbers(f: Field, vs: seq<Val>)
    requires SlotOk(f, vs) && IsNumeric(f.kind)
    ensures NumbersOk(f.kind, vs)
  {
    forall j | 0 <= j < |vs| ensures vs[j].Num? && InRange(f.kind, vs[j].n) {
      assert ValOk(f.kind, vs[j]);
    }
  }

  ghost function PackedBytes(k: Kind, vs: seq<Val>): seq<byte>
    requires NumbersOk(k, vs)
  {
    if vs == [] then [] else EncodePayload(0, NumberPayload(k, vs[0].n)) + PackedBytes(k, vs[1..])
  }

  ghost function SlotTokens(f: Field, vs: seq<Val>): seq<Token>
    requires SlotOk(f, vs)
    decreases f, 3, 0
  {
    if f.mode.Packed? && IsNumeric(f.kind) then
      SlotOfNumbers(f, vs);
      if vs == [] then [] else [Token(f.number, DelimitedP(PackedBytes(f.kind, vs)))]
    else ValTokens(f, vs)
  }

  /** The tokens of the fields from the i-th on, then the unknown ones. */
  ghost function TokensFrom(d: Descriptor, m: Message, i: nat): seq<Token>
    requires MessageOk(d, m) && i <= |d.fields|
    decreases d, 4, |d.fields| - i
  {
    if i == |d.fields| then m.unknown
    else SlotTokens(d.fields[i], m.slots[i]) + TokensFrom(d, m, i + 1)
  }

  /** What serialising writes: fields in table order. */
  ghost function Encode(d: Descriptor, m: Message): seq<byte>
    requires MessageOk(d, m)
    decreases d, 5, 0
  {
    EncodeTokens(TokensFrom(d, m, 0))
  }
}
