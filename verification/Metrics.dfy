/** Metrics as message fields, and the framing of messages in the metrics log. */
module Metrics {
  import opened Bytes
  import opened Wire
  import opened Codec
  import opened CodecLaws
  import opened Descriptors
  import opened MessageParser
  import opened MessageWriter

  /** A value is the 64 bits of a double. */
  datatype Metric = Metric(name: seq<byte>, representation: seq<byte>, value: nat)

  function Ascii(s: string): (bs: seq<byte>)
    ensures |bs| == |s|
  {
    seq(|s|, i requires 0 <= i < |s| => (s[i] as int % 256) as byte)
  }

  function Named(name: string, representation: string, value: nat): Metric {
    Metric(Ascii(name), Ascii(representation), value)
  }

  /** Just one of the metrics has this name, and it has this value and unit. */
  ghost predicate IsReported(metrics: seq<Metric>, name: string, value: nat, unit: string) {
    exists i :: IsOnly(metrics, Ascii(name), i) && metrics[i].value == value && metrics[i].representation == Ascii(unit)
  }

  ghost predicate IsOnly(metrics: seq<Metric>, name: seq<byte>, i: int) {
    0 <= i < |metrics| && forall j :: 0 <= j < |metrics| ==> (metrics[j].name == name <==> j == i)
  }

  lemma OtherName(a: string, b: string, i: nat)
    requires i < |a| == |b| && a[i] as int % 256 != b[i] as int % 256
    ensures Ascii(a) != Ascii(b)
  {
    assert Ascii(a)[i] != Ascii(b)[i];
  }

  const DOUBLE := 3
  const FIELDS := 9  // index of fields in MESSAGE

  function FieldOf(metric: Metric): Message {
    Message([[Str(metric.name)], [Num(DOUBLE)], [Str(metric.representation)], [], [], [], [Num(metric.value)], []], [])
  }

  lemma FieldOfIsOk(metric: Metric)
    requires metric.value < TWO64
    ensures MessageOk(FIELD, FieldOf(metric))
  {
    var m := FieldOf(metric);
    forall i | 0 <= i < |FIELD.fields| ensures SlotOk(FIELD.fields[i], m.slots[i]) {
      assert i == 0 || i == 1 || i == 2 || i == 3 || i == 4 || i == 5 || i == 6 || i == 7;
    }
    hide SlotOk, FieldOf;
  }

  lemma SlotsOfField(metric: Metric, slots: seq<seq<Val>>)
    requires |slots| == |FIELD.fields|
    requires slots[0] == [Str(metric.name)] && slots[1] == [Num(DOUBLE)] && slots[2] == [Str(metric.representation)]
    requires slots[3] == slots[4] == slots[5] == slots[7] == [] && slots[6] == [Num(metric.value)]
    ensures slots == FieldOf(metric).slots
  {
  }

  /** Appends one field. */
  method ConstructField(msg: MessageObject, metric: Metric)
    requires msg.Valid() && msg.desc == MESSAGE && MessageOk(MESSAGE, msg.Value()) && metric.value < TWO64
    modifies msg
    ensures msg.Valid() && MessageOk(MESSAGE, msg.Value())
    ensures msg.Value() == Store(MESSAGE, old(msg.Value()), FIELDS, [Msg(FieldOf(metric))])
  {
    FieldIsWellFormed();
    FieldMayBeAdded(msg.Value(), metric);
    hide WellFormed, MessageOk;
    var f := new MessageObject(FIELD);
    f.Put(0, Str(metric.name));
    f.Put(2, Str(metric.representation));
    f.Put(1, Num(DOUBLE));
    assert f.slots[6] == [] && [] + [Num(metric.value)] == [Num(metric.value)];
    f.Put(6, Num(metric.value));
    SlotsOfField(metric, f.slots);
    msg.Put(FIELDS, Msg(Message(f.slots, f.unknown)));
  }

  lemma FieldMayBeAdded(m: Message, metric: Metric)
    requires MessageOk(MESSAGE, m) && metric.value < TWO64
    ensures |m.slots| == |MESSAGE.fields| && MessageOk(MESSAGE, Store(MESSAGE, m, FIELDS, [Msg(FieldOf(metric))]))
  {
    FieldOfIsOk(metric);
    hide MessageOk, FieldOf, FIELD;
    StoreIsOk(MESSAGE, m, FIELDS, [Msg(FieldOf(metric))]);
  }

  lemma FieldsMayBeCleared(m: Message)
    requires MessageOk(MESSAGE, m)
    ensures |m.slots| == |MESSAGE.fields| && MessageOk(MESSAGE, m.(slots := m.slots[FIELDS := []]))
  {
    var r := m.(slots := m.slots[FIELDS := []]);
    forall i | 0 <= i < |MESSAGE.fields| ensures SlotOk(MESSAGE.fields[i], r.slots[i]) {
      assert SlotOk(MESSAGE.fields[i], m.slots[i]);
    }
    hide SlotOk, Uninterpreted, TokenOk;
  }

  function FieldsOf(metrics: seq<Metric>): seq<Val> {
    seq(|metrics|, i requires 0 <= i < |metrics| => Msg(FieldOf(metrics[i])))
  }

  predicate AllDoubles(metrics: seq<Metric>) {
    forall i :: 0 <= i < |metrics| ==> metrics[i].value < TWO64
  }

  /** A message that reports these metrics, may be written, and is otherwise as it was. */
  ghost predicate Reports(msg: MessageObject, metrics: seq<Metric>, was: Message)
    requires |was.slots| == |MESSAGE.fields|
    reads msg
  {
    msg.Valid() && msg.desc == MESSAGE && MessageOk(MESSAGE, msg.Value()) && msg.slots[FIELDS] == FieldsOf(metrics) &&
    msg.slots[..FIELDS] == was.slots[..FIELDS] && msg.unknown == was.unknown
  }

  /** What every GetMetrics does: the fields are cleared, then one is added for each metric. */
  method Report(msg: MessageObject, metrics: seq<Metric>)
    requires msg.Valid() && msg.desc == MESSAGE && MessageOk(MESSAGE, msg.Value()) && AllDoubles(metrics)
    modifies msg
    ensures Reports(msg, metrics, old(msg.Value()))
  {
    hide WellFormed, MessageOk, FieldOf;
    FieldsMayBeCleared(msg.Value());
    msg.slots := msg.slots[FIELDS := []];
    assert metrics[..0] == [];
    for i := 0 to |metrics|
      invariant Reports(msg, metrics[..i], old(msg.Value()))
    {
      ConstructField(msg, metrics[i]);
      assert FieldsOf(metrics[..i + 1]) == FieldsOf(metrics[..i]) + [Msg(FieldOf(metrics[i]))];
    }
    assert metrics[..|metrics|] == metrics;
  }

  // ---- framing ----

  function HeaderFor(length: nat): Message {
    Message([[Num(length)], [], [], [], []], [])
  }

  lemma HeaderForIsOk(length: nat)
    requires length < LENGTH_LIMIT
    ensures MessageOk(HEADER, HeaderFor(length))
  {
    var m := HeaderFor(length);
    forall i | 0 <= i < |HEADER.fields| ensures SlotOk(HEADER.fields[i], m.slots[i]) {
      assert i == 0 || i == 1 || i == 2 || i == 3 || i == 4;
    }
    hide SlotOk, HeaderFor;
  }

  /** A header with only the length set: a tag and a varint of at most five bytes. */
  lemma HeaderBytes(length: nat)
    requires length < LENGTH_LIMIT
    ensures MessageOk(HEADER, HeaderFor(length))
    ensures Encode(HEADER, HeaderFor(length)) == [8] + Varint(length)
    ensures 2 <= |Encode(HEADER, HeaderFor(length))| <= 6
  {
    HeaderForIsOk(length);
    var m, t := HeaderFor(length), Token(1, VarintP(length));
    HeaderTokens(length);
    EncodeOne(t);
    assert Varint(8) == [8];
    FiveGroups(length);
    hide TokensFrom, EncodeTokens, MessageOk, Varint, VarintSize;
  }

  lemma HeaderTokens(length: nat)
    requires length < LENGTH_LIMIT && MessageOk(HEADER, HeaderFor(length))
    ensures TokensFrom(HEADER, HeaderFor(length), 0) == [Token(1, VarintP(length))]
  {
    var d, m := HEADER, HeaderFor(length);
    hide MessageOk;
    assert TokensFrom(d, m, 5) == [];
    assert TokensFrom(d, m, 4) == [];
    assert TokensFrom(d, m, 3) == [];
    assert TokensFrom(d, m, 2) == [];
    assert TokensFrom(d, m, 1) == [];
    assert ValTokens(d.fields[0], [Num(length)][1..]) == [];
  }

  lemma FieldTokens(metric: Metric)
    requires metric.value < TWO64 && MessageOk(FIELD, FieldOf(metric))
    ensures TokensFrom(FIELD, FieldOf(metric), 0) ==
      [Token(1, DelimitedP(metric.name)), Token(2, VarintP(DOUBLE)), Token(3, DelimitedP(metric.representation)),
       Token(7, DelimitedP(ToLittleEndian(metric.value, 8)))]
  {
    var d, m := FIELD, FieldOf(metric);
    PackedDouble(metric.value);
    hide MessageOk, PackedBytes;
    assert TokensFrom(d, m, 8) == [];
    assert TokensFrom(d, m, 7) == [];
    assert TokensFrom(d, m, 6) == [Token(7, DelimitedP(ToLittleEndian(metric.value, 8)))];
    assert TokensFrom(d, m, 3) == TokensFrom(d, m, 6) by { assert TokensFrom(d, m, 4) == TokensFrom(d, m, 6); }
    OneValue(d.fields[2], Str(metric.representation));
    OneValue(d.fields[1], Num(DOUBLE));
    OneValue(d.fields[0], Str(metric.name));
  }

  lemma OneValue(f: Field, v: Val)
    requires ValOk(f.kind, v)
    ensures ValTokens(f, [v]) == [Token(f.number, PayloadOf(f.kind, v))]
  {
    assert [v][1..] == [];
    hide PayloadOf;
  }

  lemma PackedDouble(value: nat)
    requires value < TWO64
    ensures PackedBytes(Double, [Num(value)]) == ToLittleEndian(value, 8)
  {
    assert [Num(value)][1..] == [];
    hide ToLittleEndian;
  }

  /** A metric on the wire: name, the value type for doubles, representation, and one double as a packed field. */
  lemma FieldBytes(metric: Metric)
    requires metric.value < TWO64
    ensures MessageOk(FIELD, FieldOf(metric))
    ensures Encode(FIELD, FieldOf(metric)) ==
      ([0x0a] + Varint(|metric.name|) + metric.name) +
      ([0x10, 0x03] +
      (([0x1a] + Varint(|metric.representation|) + metric.representation) +
      ([0x3a, 0x08] + ToLittleEndian(metric.value, 8))))
  {
    FieldOfIsOk(metric);
    FieldTokens(metric);
    var name, kind, unit := DelimitedP(metric.name), VarintP(DOUBLE), DelimitedP(metric.representation);
    var value := DelimitedP(ToLittleEndian(metric.value, 8));
    TextToken(1, metric.name);
    TextToken(3, metric.representation);
    TypeAndValue(metric.value);
    hide TokensFrom, MessageOk, Varint, ToLittleEndian, EncodeTokens, EncodeToken;
    FirstToken(Token(1, name), [Token(2, kind), Token(3, unit), Token(7, value)]);
    FirstToken(Token(2, kind), [Token(3, unit), Token(7, value)]);
    FirstToken(Token(3, unit), [Token(7, value)]);
    EncodeOne(Token(7, value));
  }

  lemma TextToken(number: nat, text: seq<byte>)
    requires number < 16
    ensures EncodeToken(Token(number, DelimitedP(text))) == [(8 * number + 2) as byte] + Varint(|text|) + text
  {
    hide Varint, EncodeTokens, EncodePayload;
    OneByte(8 * number + 2);
    TextPayload(number, text);
    TextTag(number, text);
    hide TagOf;
    Associate([(8 * number + 2) as byte], Varint(|text|), text);
  }

  lemma TextTag(number: nat, text: seq<byte>)
    ensures TagOf(Token(number, DelimitedP(text))) == 8 * number + 2
  {
  }

  lemma TextPayload(number: nat, text: seq<byte>)
    ensures EncodePayload(number, DelimitedP(text)) == Varint(|text|) + text
  {
    hide Varint, EncodeTokens;
  }

  lemma TypeAndValue(value: nat)
    ensures EncodeToken(Token(2, VarintP(DOUBLE))) == [0x10, 0x03]
    ensures EncodeToken(Token(7, DelimitedP(ToLittleEndian(value, 8)))) == [0x3a, 0x08] + ToLittleEndian(value, 8)
  {
    hide Varint, ToLittleEndian;
    TextToken(7, ToLittleEndian(value, 8));
    OneByte(0x10);
    OneByte(3);
    OneByte(8);
  }

  lemma OneByte(v: nat)
    requires v < 128
    ensures Varint(v) == [v as byte]
  {
  }

  lemma FirstToken(t: Token, ts: seq<Token>)
    ensures EncodeTokens([t] + ts) == EncodeToken(t) + EncodeTokens(ts)
  {
    hide EncodeToken;
    assert ([t] + ts)[1..] == ts;
  }

  lemma FiveGroups(v: nat)
    requires v < LENGTH_LIMIT
    ensures VarintSize(v) <= 5
  {
    assert Pow128(5) == 0x8_0000_0000;
    hide Pow128, VarintSize;
    VarintSizeBound(v, 5);
  }

  /** Separator, one byte of header length, header, separator, message. */
  function Framed(header: seq<byte>, body: seq<byte>): seq<byte> {
    [RECORD_SEPARATOR, (|header| % 256) as byte] + header + [UNIT_SEPARATOR] + body
  }

  ghost function Frame(m: Message): seq<byte>
    requires MessageOk(MESSAGE, m) && Fits(MESSAGE, m)
  {
    var body := Encode(MESSAGE, m);
    HeaderForIsOk(|body|);
    Framed(Encode(HEADER, HeaderFor(|body|)), body)
  }

  /** The whole frame in bytes. */
  lemma FrameBytes(m: Message)
    requires MessageOk(MESSAGE, m) && Fits(MESSAGE, m)
    ensures |Varint(|Encode(MESSAGE, m)|)| <= 5
    ensures var body := Encode(MESSAGE, m);
      Frame(m) == [0x1e, (1 + |Varint(|body|)|) as byte, 0x08] + Varint(|body|) + [0x1f] + body
  {
    hide Encode, MessageOk, Varint, VarintSize, HeaderFor;
    HeaderBytes(|Encode(MESSAGE, m)|);
    hide Fits;
    var size := Varint(|Encode(MESSAGE, m)|);
    HeaderInFrame([RECORD_SEPARATOR, (1 + |size|) as byte], size, [UNIT_SEPARATOR]);
  }

  lemma HeaderInFrame(front: seq<byte>, size: seq<byte>, unit: seq<byte>)
    ensures front + ([8] + size) + unit == front + [8] + size + unit
  {
  }

  /** An output stream that may fail at any byte, and takes nothing from then on. */
  class LogStream {
    var bytes: seq<byte>
    var good: bool

    constructor ()
      ensures bytes == [] && good
    {
      bytes, good := [], true;
    }

    method Put(bs: seq<byte>) returns (ghost n: nat)
      modifies this
      ensures n <= |bs| && bytes == old(bytes) + bs[..n]
      ensures good ==> old(good) && n == |bs|
      ensures !old(good) ==> n == 0
    {
      n := 0;
      if good {
        var taken: int := *;
        if 0 <= taken < |bs| {
          bytes, good, n := bytes + bs[..taken], false, taken;
        } else {
          bytes, n := bytes + bs, |bs|;
        }
      }
    }
  }

  /** Of the first k bytes of whole the stream has taken n, and all of them if it is still good. */
  ghost predicate Taken(os: LogStream, start: seq<byte>, whole: seq<byte>, k: nat, n: nat)
    reads os
  {
    n <= k <= |whole| && os.bytes == start + whole[..n] && (os.good ==> n == k)
  }

  method PutMore(os: LogStream, ghost start: seq<byte>, ghost whole: seq<byte>, ghost k: nat, ghost n: nat,
      bs: seq<byte>)
    returns (ghost n': nat)
    requires Taken(os, start, whole, k, n) && k + |bs| <= |whole| && whole[k..k + |bs|] == bs
    modifies os
    ensures Taken(os, start, whole, k + |bs|, n')
  {
    ghost var more := os.Put(bs);
    n' := n + more;
    if more > 0 { TakeMore(start, whole, k, bs, more); }
  }

  lemma TakeMore(start: seq<byte>, whole: seq<byte>, k: nat, bs: seq<byte>, more: nat)
    requires k + |bs| <= |whole| && whole[k..k + |bs|] == bs && more <= |bs|
    ensures start + whole[..k] + bs[..more] == start + whole[..k + more]
  {
    assert bs[..more] == whole[k..k + more];
    assert whole[..k + more] == whole[..k] + whole[k..k + more];
  }

  /** Appends one frame, or as much of it as the stream takes. */
  method WriteMessage(os: LogStream, m: Message) returns (ghost n: nat)
    requires MessageOk(MESSAGE, m) && Fits(MESSAGE, m)
    modifies os
    ensures n <= |Frame(m)| && os.bytes == old(os.bytes) + Frame(m)[..n]
    ensures os.good ==> n == |Frame(m)|
    ensures !old(os.good) ==> n == 0
  {
    n := 0;
    if !os.good { return; }
    TablesAreWellFormed();
    ghost var body := Encode(MESSAGE, m);
    HeaderForIsOk(|body|);
    hide MessageOk, WellFormed, Encode, CacheOk, HeaderFor, Framed;
    var c := ByteSize(MESSAGE, m);
    var h := HeaderFor(c.total);
    var hc := ByteSize(HEADER, h);
    var header := Serialized(HEADER, h, hc);
    var rest := Serialized(MESSAGE, m, c);
    n := PutFrame(os, hc.total, header, rest);
  }

  method Serialized(d: Descriptor, m: Message, c: Cache) returns (bs: seq<byte>)
    requires WellFormed(d) && MessageOk(d, m) && CacheOk(d, m, c)
    ensures bs == Encode(d, m)
  {
    hide WellFormed, MessageOk, CacheOk, Encode;
    var out := new Output(None);
    SerializeWithCachedSizes(d, m, c, out);
    bs := out.bytes;
  }

  method PutFrame(os: LogStream, size: nat, header: seq<byte>, body: seq<byte>) returns (ghost n: nat)
    requires size == |header| && os.good
    modifies os
    ensures n <= |Framed(header, body)| && os.bytes == old(os.bytes) + Framed(header, body)[..n]
    ensures os.good ==> n == |Framed(header, body)|
  {
    ghost var start, whole := os.bytes, Framed(header, body);
    FramePieces(header, body);
    hide Framed;
    n := PutMore(os, start, whole, 0, 0, [RECORD_SEPARATOR]);
    n := PutMore(os, start, whole, 1, n, [(size % 256) as byte]);
    n := PutMore(os, start, whole, 2, n, header);
    n := PutMore(os, start, whole, 2 + size, n, [UNIT_SEPARATOR]);
    n := PutMore(os, start, whole, 3 + size, n, body);
  }

  lemma FramePieces(header: seq<byte>, body: seq<byte>)
    ensures var whole, n := Framed(header, body), 2 + |header|;
      && |whole| == n + 1 + |body|
      && whole[0..1] == [RECORD_SEPARATOR] && whole[1..2] == [(|header| % 256) as byte]
      && whole[2..n] == header && whole[n..n + 1] == [UNIT_SEPARATOR] && whole[n + 1..n + 1 + |body|] == body
  {
  }

  // ---- reading the log back ----

  /** The length a header announces. */
  function LengthIn(h: Message): Option<nat> {
    if |h.slots| > 0 && h.slots[0] != [] && h.slots[0][0].Num? && h.slots[0][0].n >= 0 then Some(h.slots[0][0].n)
    else None
  }

  function ReadBody(length: nat, b: seq<byte>): (r: Option<(Message, seq<byte>)>)
    ensures r.Some? ==> |r.value.1| < |b|
  {
    if |b| == 0 || b[0] != UNIT_SEPARATOR then None
    else
      match ReadRaw(b[1..], length)
      case None => None
      case Some((body, after)) =>
        match Parse(MESSAGE, body)
        case None => None
        case Some(m) => Some((m, after))
  }

  /** One frame at the head of the log, and what follows it. */
  function ReadFrame(b: seq<byte>): (r: Option<(Message, seq<byte>)>)
    ensures r.Some? ==> |r.value.1| < |b|
  {
    if |b| < 2 || b[0] != RECORD_SEPARATOR then None
    else
      match ReadRaw(b[2..], b[1] as nat)
      case None => None
      case Some((header, rest)) =>
        match Parse(HEADER, header)
        case None => None
        case Some(h) => if LengthIn(h) == None then None else ReadBody(LengthIn(h).value, rest)
  }

  function ReadLog(b: seq<byte>): Option<seq<Message>>
    decreases |b|
  {
    if b == [] then Some([])
    else
      match ReadFrame(b)
      case None => None
      case Some((m, rest)) =>
        match ReadLog(rest)
        case None => None
        case Some(ms) => Some([m] + ms)
  }

  ghost predicate AllWritable(ms: seq<Message>) {
    forall i :: 0 <= i < |ms| ==> MessageOk(MESSAGE, ms[i]) && Fits(MESSAGE, ms[i])
  }

  ghost function Log(ms: seq<Message>): seq<byte>
    requires AllWritable(ms)
  {
    if ms == [] then [] else Frame(ms[0]) + Log(ms[1..])
  }

  lemma ReadFramed(header: seq<byte>, body: seq<byte>, m: Message, rest: seq<byte>)
    requires |header| < 256 && Parse(HEADER, header) == Some(HeaderFor(|body|)) && Parse(MESSAGE, body) == Some(m)
    ensures ReadFrame(Framed(header, body) + rest) == Some((m, rest))
  {
    hide Parse, Framed, ReadRaw, ReadBody, HEADER, MESSAGE;
    var tail := [UNIT_SEPARATOR] + body + rest;
    FramedShape(header, body, rest);
    RawRoundTrip(header, tail);
    BodyRoundTrip(body, m, rest);
  }

  lemma BodyRoundTrip(body: seq<byte>, m: Message, rest: seq<byte>)
    requires Parse(MESSAGE, body) == Some(m)
    ensures ReadBody(|body|, [UNIT_SEPARATOR] + body + rest) == Some((m, rest))
  {
    hide Parse, ReadRaw, MESSAGE;
    UnitFirst(body, rest);
    RawRoundTrip(body, rest);
  }

  lemma UnitFirst(body: seq<byte>, rest: seq<byte>)
    ensures var tail := [UNIT_SEPARATOR] + body + rest;
      |tail| > 0 && tail[0] == UNIT_SEPARATOR && tail[1..] == body + rest
  {
  }

  lemma FramedShape(header: seq<byte>, body: seq<byte>, rest: seq<byte>)
    requires |header| < 256
    ensures var b := Framed(header, body) + rest;
      |b| >= 2 && b[0] == RECORD_SEPARATOR && b[1] as nat == |header| &&
      b[2..] == header + ([UNIT_SEPARATOR] + body + rest)
  {
  }

  lemma FrameRoundTrip(m: Message, rest: seq<byte>)
    requires MessageOk(MESSAGE, m) && Fits(MESSAGE, m)
    ensures ReadFrame(Frame(m) + rest) == Some((m, rest))
  {
    var body := Encode(MESSAGE, m);
    HeaderBytes(|body|);
    TablesAreWellFormed();
    hide Parse, MessageOk, WellFormed, Varint, ReadFrame, Framed, HeaderFor, HEADER, MESSAGE;
    RoundTrip(HEADER, HeaderFor(|body|));
    RoundTrip(MESSAGE, m);
    ReadFramed(Encode(HEADER, HeaderFor(|body|)), body, m, rest);
  }

  /** Whatever bytes the payloads hold, separators included, the log decodes to the messages written. */
  lemma {:induction false} LogRoundTrip(ms: seq<Message>)
    requires AllWritable(ms)
    ensures ReadLog(Log(ms)) == Some(ms)
  {
    hide Frame, ReadFrame, MessageOk;
    if ms == [] {
    } else {
      FrameRoundTrip(ms[0], Log(ms[1..]));
      LogRoundTrip(ms[1..]);
      assert [ms[0]] + ms[1..] == ms;
    }
  }

  /** Two logs are the same bytes only if they hold the same messages. */
  lemma LogIsUnique(ms: seq<Message>, ns: seq<Message>)
    requires AllWritable(ms) && AllWritable(ns) && Log(ms) == Log(ns)
    ensures ms == ns
  {
    hide Log, ReadLog, AllWritable;
    LogRoundTrip(ms);
    LogRoundTrip(ns);
  }

  // ---- a log that was cut ----

  /** The whole frames at the head of the log, and what is left. */
  function ReadFrames(b: seq<byte>): (seq<Message>, seq<byte>)
    decreases |b|
  {
    match ReadFrame(b)
    case None => ([], b)
    case Some((m, rest)) =>
      var (ms, left) := ReadFrames(rest);
      ([m] + ms, left)
  }

  lemma BodyLocal(length: nat, b: seq<byte>, more: seq<byte>)
    requires ReadBody(length, b).Some?
    ensures ReadBody(length, b + more) == Extend(ReadBody(length, b), more)
  {
    RawLocal(b[1..], length, more);
    hide Parse, ReadRaw, MESSAGE;
    assert (b + more)[1..] == b[1..] + more;
  }

  lemma FrameLocal(b: seq<byte>, more: seq<byte>)
    requires ReadFrame(b).Some?
    ensures ReadFrame(b + more) == Extend(ReadFrame(b), more)
  {
    RawLocal(b[2..], b[1] as nat, more);
    hide Parse, ReadRaw, ReadBody, HEADER;
    assert (b + more)[2..] == b[2..] + more;
    var (header, rest) := ReadRaw(b[2..], b[1] as nat).value;
    BodyLocal(LengthIn(Parse(HEADER, header).value).value, rest, more);
  }

  lemma TakeAndDrop(f: seq<byte>, n: nat)
    requires n < |f|
    ensures f[..n] + f[n..] == f && f + [] == f && f[n..] != []
  {
  }

  /** No frame is the beginning of another. */
  lemma CutFrame(m: Message, n: nat)
    requires MessageOk(MESSAGE, m) && Fits(MESSAGE, m) && n < |Frame(m)|
    ensures ReadFrame(Frame(m)[..n]) == None
  {
    hide Frame, ReadFrame, MessageOk, Fits;
    TakeAndDrop(Frame(m), n);
    FrameRoundTrip(m, []);
    if ReadFrame(Frame(m)[..n]).Some? { FrameLocal(Frame(m)[..n], Frame(m)[n..]); }
  }

  lemma FirstFrame(ms: seq<Message>, tail: seq<byte>)
    requires AllWritable(ms) && ms != []
    ensures AllWritable(ms[1..]) && MessageOk(MESSAGE, ms[0]) && Fits(MESSAGE, ms[0]) && [ms[0]] + ms[1..] == ms
    ensures Log(ms) + tail == Frame(ms[0]) + (Log(ms[1..]) + tail)
  {
    hide Frame;
    Associate(Frame(ms[0]), Log(ms[1..]), tail);
  }

  lemma NoFrame(tail: seq<byte>)
    ensures AllWritable([]) && Log([]) + tail == tail
  {
  }

  lemma ReadFirst(m: Message, tail: seq<byte>, ms: seq<Message>, left: seq<byte>)
    requires MessageOk(MESSAGE, m) && Fits(MESSAGE, m) && ReadFrames(tail) == (ms, left)
    ensures ReadFrames(Frame(m) + tail) == ([m] + ms, left)
  {
    hide Frame, ReadFrame, MessageOk, Fits;
    FrameRoundTrip(m, tail);
  }

  /** Where writing failed in the middle of a frame, every message before it is read back, and nothing else. */
  lemma {:induction false} CutLog(ms: seq<Message>, m: Message, n: nat)
    requires AllWritable(ms) && MessageOk(MESSAGE, m) && Fits(MESSAGE, m) && n < |Frame(m)|
    ensures ReadFrames(Log(ms) + Frame(m)[..n]) == (ms, Frame(m)[..n])
    decreases |ms|
  {
    var tail := Frame(m)[..n];
    hide Frame, ReadFrame, MessageOk, Fits, Log, AllWritable;
    if ms == [] {
      NoFrame(tail);
      CutFrame(m, n);
    } else {
      hide ReadFrames;
      FirstFrame(ms, tail);
      CutLog(ms[1..], m, n);
      ReadFirst(ms[0], Log(ms[1..]) + tail, ms[1..], tail);
    }
  }

  // ---- the metrics that come back ----

  function MetricIn(v: Val): Option<Metric> {
    if v.Msg? && |v.message.slots| == |FIELD.fields| && |v.message.slots[0]| == 1 && v.message.slots[0][0].Str? &&
       |v.message.slots[2]| == 1 && v.message.slots[2][0].Str? && |v.message.slots[6]| == 1 &&
       v.message.slots[6][0].Num? && v.message.slots[6][0].n >= 0
    then Some(Metric(v.message.slots[0][0].bytes, v.message.slots[2][0].bytes, v.message.slots[6][0].n))
    else None
  }

  function MetricsIn(vs: seq<Val>): seq<Option<Metric>> {
    seq(|vs|, i requires 0 <= i < |vs| => MetricIn(vs[i]))
  }

  lemma MetricOfField(metric: Metric)
    ensures MetricIn(Msg(FieldOf(metric))) == Some(metric)
  {
  }

  /** A report that was written is read back with every name, representation and value, in order. */
  lemma ReportComesBack(m: Message, metrics: seq<Metric>, rest: seq<byte>)
    requires MessageOk(MESSAGE, m) && Fits(MESSAGE, m)
    requires |m.slots| == |MESSAGE.fields| && m.slots[FIELDS] == FieldsOf(metrics)
    ensures var r := ReadFrame(Frame(m) + rest);
      && r.Some? && r.value.1 == rest && |r.value.0.slots| == |MESSAGE.fields|
      && MetricsIn(r.value.0.slots[FIELDS]) == seq(|metrics|, i requires 0 <= i < |metrics| => Some(metrics[i]))
  {
    FrameRoundTrip(m, rest);
    forall i | 0 <= i < |metrics| ensures MetricIn(FieldsOf(metrics)[i]) == Some(metrics[i]) {
      MetricOfField(metrics[i]);
    }
    hide ReadFrame, Frame, MetricIn, MessageOk, Fits;
  }
}
