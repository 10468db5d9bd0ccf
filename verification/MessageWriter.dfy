/** The generated size calculator, which caches what it finds, and the two serialisers that use the cache. */
module MessageWriter {
  import opened Bytes
  import opened Wire
  import opened WireLaws
  import opened Codec
  import opened CodecLaws

  /** The sizes a message remembers: its own, that of each packed field, and those of nested messages. */
  datatype Cache = Cache(total: nat, slots: seq<SlotCache>)
  datatype SlotCache = NoCache | PackedSize(n: nat) | PartSizes(parts: seq<Cache>)

  ghost predicate CacheOk(d: Descriptor, m: Message, c: Cache)
    requires MessageOk(d, m)
    decreases d, 1
  {
    c.total == |Encode(d, m)| && |c.slots| == |d.fields| &&
    (forall i :: 0 <= i < |d.fields| ==>
       SlotOk(d.fields[i], m.slots[i]) && SlotCacheOk(d.fields[i], m.slots[i], c.slots[i]))
  }

  ghost predicate SlotCacheOk(f: Field, vs: seq<Val>, c: SlotCache)
    requires SlotOk(f, vs)
    decreases f, 1
  {
    if f.mode.Packed? && IsNumeric(f.kind) then
      SlotOfNumbers(f, vs);
      c == PackedSize(|PackedBytes(f.kind, vs)|)
    else if f.kind.Sub? then
      c.PartSizes? && |c.parts| == |vs| &&
      forall j :: 0 <= j < |vs| ==> ValOk(f.kind, vs[j]) && CacheOk(f.kind.desc, vs[j].message, c.parts[j])
    else true
  }

  // ---- sizes, token by token ----

  lemma {:induction false} SmallTag(f: Field, wireType: nat)
    requires 0 < f.number < 16 && wireType < 8
    ensures VarintSize(MakeTag(f.number, wireType)) == 1
  {
  }

  lemma EncodeOne(t: Token)
    ensures EncodeTokens([t]) == EncodeToken(t)
  {
    hide EncodeToken;
    assert [t][1..] == [];
    assert EncodeToken(t) + [] == EncodeToken(t);
  }

  /** One byte of tag and the payload. */
  ghost function PayloadSize(k: Kind, v: Val): nat
    requires ValOk(k, v)
  {
    |EncodePayload(0, PayloadOf(k, v))|
  }

  lemma EncodeVal(f: Field, v: Val)
    requires 0 < f.number < 16 && ValOk(f.kind, v)
    ensures EncodeToken(Token(f.number, PayloadOf(f.kind, v))) ==
            Varint(MakeTag(f.number, WireTypeOf(f.kind))) + EncodePayload(0, PayloadOf(f.kind, v))
    ensures |EncodeToken(Token(f.number, PayloadOf(f.kind, v)))| == 1 + PayloadSize(f.kind, v)
  {
    SmallTag(f, WireTypeOf(f.kind));
    hide Varint, ToLittleEndian, ValOk;
  }

  lemma ValTokensSplit(f: Field, vs: seq<Val>)
    requires vs != [] && forall j :: 0 <= j < |vs| ==> ValOk(f.kind, vs[j])
    ensures EncodeTokens(ValTokens(f, vs)) ==
            EncodeToken(Token(f.number, PayloadOf(f.kind, vs[0]))) + EncodeTokens(ValTokens(f, vs[1..]))
  {
    var ts := ValTokens(f, vs);
    assert ts[1..] == ValTokens(f, vs[1..]);
    hide EncodeToken, PayloadOf, ValOk;
  }

  lemma TokensFromSplit(d: Descriptor, m: Message, i: nat)
    requires MessageOk(d, m) && i < |d.fields|
    ensures SlotOk(d.fields[i], m.slots[i])
    ensures EncodeTokens(TokensFrom(d, m, i)) ==
            EncodeTokens(SlotTokens(d.fields[i], m.slots[i])) + EncodeTokens(TokensFrom(d, m, i + 1))
  {
    hide SlotTokens, EncodeTokens;
    EncodeTokensConcat(SlotTokens(d.fields[i], m.slots[i]), TokensFrom(d, m, i + 1));
  }

  lemma {:induction false} FixedPackedSizes(k: Kind, vs: seq<Val>)
    requires NumbersOk(k, vs)
    ensures k.Double? ==> |PackedBytes(k, vs)| == 8 * |vs|
    ensures k.Bool? ==> |PackedBytes(k, vs)| == |vs|
  {
    hide ToLittleEndian;
    if vs == [] {
    } else {
      FixedPackedSizes(k, vs[1..]);
    }
  }

  /** A number's size on the wire. */
  function NumberSize(k: Kind, n: int): nat
    requires IsNumeric(k) && -TWO63 <= n
  {
    if k.Double? then 8 else if k.Bool? then 1 else VarintSize(ToWire(n))
  }

  lemma NumberSizeIsRight(k: Kind, n: int)
    requires IsNumeric(k) && -TWO63 <= n && InRange(k, n)
    ensures NumberSize(k, n) == |EncodePayload(0, NumberPayload(k, n))|
  {
    hide ToLittleEndian;
  }

  /** The size of a token, groups included, counted without writing it. */
  method TokenSize(t: Token) returns (n: nat)
    ensures n == |EncodeToken(t)|
    decreases t, 1
  {
    hide EncodeTokens, Varint, VarintSize, ToLittleEndian;
    n := VarintSize(TagOf(t));
    match t.payload
    case VarintP(v) => n := n + VarintSize(v);
    case Fixed64P(_) => n := n + 8;
    case DelimitedP(bytes) => n := n + VarintSize(|bytes|) + |bytes|;
    case GroupP(tokens) =>
      var inside := UnknownSize(tokens);
      n := n + inside + VarintSize(MakeTag(t.number, END_GROUP));
    case Fixed32P(_) => n := n + 4;
  }

  /** What the runtime computes for unknown fields. */
  method UnknownSize(ts: seq<Token>) returns (n: nat)
    ensures n == |EncodeTokens(ts)|
    decreases ts
  {
    n := 0;
    assert ts[0..] == ts;
    hide EncodeToken;
    for i := 0 to |ts|
      invariant n + |EncodeTokens(ts[i..])| == |EncodeTokens(ts)|
    {
      assert ts[i..][1..] == ts[i + 1..];
      var size := TokenSize(ts[i]);
      n := n + size;
    }
  }

  method PackedDataSize(k: Kind, vs: seq<Val>) returns (n: nat)
    requires NumbersOk(k, vs) && (k.Enum? ==> k.last < TWO31)
    ensures n == |PackedBytes(k, vs)|
  {
    FixedPackedSizes(k, vs);
    if k.Double? { return 8 * |vs|; }
    if k.Bool? { return |vs|; }
    n := 0;
    assert vs[0..] == vs;
    for i := 0 to |vs|
      invariant n + |PackedBytes(k, vs[i..])| == |PackedBytes(k, vs)|
    {
      NumberRoundTrip(k, vs[i].n);
      NumberSizeIsRight(k, vs[i].n);
      assert vs[i..][1..] == vs[i + 1..];
      n := n + NumberSize(k, vs[i].n);
    }
  }

  method ValSize(f: Field, v: Val) returns (n: nat, part: Cache)
    requires ValOk(f.kind, v) && (f.kind.Sub? ==> WellFormed(f.kind.desc)) && (f.kind.Enum? ==> f.kind.last < TWO31)
    ensures n == PayloadSize(f.kind, v) && (f.kind.Sub? ==> CacheOk(f.kind.desc, v.message, part))
    decreases f, 0
  {
    hide Varint, WellFormed, ToWire, Encode;
    part := Cache(0, []);
    if f.kind.Text? {
      n := VarintSize(|v.bytes|) + |v.bytes|;
    } else if f.kind.Sub? {
      part := ByteSize(f.kind.desc, v.message);
      n := VarintSize(part.total) + part.total;
    } else {
      NumberRoundTrip(f.kind, v.n);
      NumberSizeIsRight(f.kind, v.n);
      n := NumberSize(f.kind, v.n);
    }
  }

  /** The size of one slot with its tags, and what to remember of it. */
  method SlotSize(d: Descriptor, f: Field, vs: seq<Val>) returns (n: nat, c: SlotCache)
    requires FieldOk(d, f) && SlotOk(f, vs) && (f.kind.Sub? ==> WellFormed(f.kind.desc))
    ensures n == |EncodeTokens(SlotTokens(f, vs))| && SlotCacheOk(f, vs, c)
    decreases f, 2
  {
    hide EncodeToken, GotosOk, WellFormed, InRange, ToWire, PayloadSize, PackedBytes, CacheOk;
    n, c := 0, NoCache;
    if f.mode.Packed? {
      SlotOfNumbers(f, vs);
      PackedTokenSize(f, vs);
      var size := PackedDataSize(f.kind, vs);
      if size > 0 { n := 1 + VarintSize(size); }
      n := n + size;
      c := PackedSize(size);
    } else {
      n := |vs|;
      var parts := [];
      assert vs[0..] == vs;
      for i := 0 to |vs|
        invariant forall j :: 0 <= j < |vs| ==> ValOk(f.kind, vs[j])
        invariant n + |EncodeTokens(ValTokens(f, vs[i..]))| == |EncodeTokens(ValTokens(f, vs))| + (|vs| - i)
        invariant |parts| == i
        invariant f.kind.Sub? ==> forall j :: 0 <= j < i ==> CacheOk(f.kind.desc, vs[j].message, parts[j])
      {
        ValTokensAt(f, vs, i);
        EncodeVal(f, vs[i]);
        var size, part := ValSize(f, vs[i]);
        n, parts := n + size, parts + [part];
      }
      if f.kind.Sub? { c := PartSizes(parts); }
    }
  }

  lemma PackedTokenSize(f: Field, vs: seq<Val>)
    requires f.mode.Packed? && SlotOk(f, vs) && NumbersOk(f.kind, vs) && 0 < f.number < 16
    ensures var size := |PackedBytes(f.kind, vs)|;
      |EncodeTokens(SlotTokens(f, vs))| == if size > 0 then 1 + VarintSize(size) + size else 0
    ensures vs == [] <==> PackedBytes(f.kind, vs) == []
  {
    SmallTag(f, DELIMITED);
    if vs != [] {
      NonemptyPayload(f.kind, vs[0].n);
      EncodeOne(Token(f.number, DelimitedP(PackedBytes(f.kind, vs))));
    }
  }

  lemma NonemptyPayload(k: Kind, n: int)
    requires IsNumeric(k) && -TWO63 <= n
    ensures EncodePayload(0, NumberPayload(k, n)) != []
  {
    hide ToWire;
  }

  lemma TokensEnd(d: Descriptor, m: Message)
    requires MessageOk(d, m)
    ensures TokensFrom(d, m, |d.fields|) == m.unknown && EncodeTokens([]) == []
  {
  }

  /** The number of bytes serialising will write, computed without writing, with all sizes it needs on the way. */
  method ByteSize(d: Descriptor, m: Message) returns (c: Cache)
    requires WellFormed(d) && MessageOk(d, m)
    ensures c.total == |Encode(d, m)| && CacheOk(d, m, c)
    decreases d, 3
  {
    var total := 0;
    var slots := [];
    assert |m.slots| == |d.fields| && SlotsCached(d, m, slots);
    TokensEnd(d, m);
    assert total + |EncodeTokens(TokensFrom(d, m, 0))| == |Encode(d, m)|;
    hide MessageOk, WellFormed, SlotTokens, SlotOk, SlotCacheOk, SlotsCached, CacheOk, FieldOk, EncodeTokens, Encode;
    hide TokensFrom;
    for i := 0 to |d.fields|
      invariant |slots| == i
      invariant total + |EncodeTokens(TokensFrom(d, m, i))| == |Encode(d, m)|
      invariant SlotsCached(d, m, slots)
    {
      KindOk(d, i);
      TokensFromSplit(d, m, i);
      var n, c := SlotSize(d, d.fields[i], m.slots[i]);
      OneMoreCached(d, m, slots, c);
      total, slots := total + n, slots + [c];
    }
    if m.unknown != [] {
      var n := UnknownSize(m.unknown);
      total := total + n;
    }
    c := Cache(total, slots);
    CacheIsOk(d, m, c);
  }

  lemma CacheIsOk(d: Descriptor, m: Message, c: Cache)
    requires MessageOk(d, m) && c.total == |Encode(d, m)| && |c.slots| == |d.fields| && SlotsCached(d, m, c.slots)
    ensures CacheOk(d, m, c)
  {
  }

  ghost predicate SlotsCached(d: Descriptor, m: Message, slots: seq<SlotCache>)
    requires |slots| <= |d.fields| == |m.slots|
  {
    forall k :: 0 <= k < |slots| ==>
      SlotOk(d.fields[k], m.slots[k]) && SlotCacheOk(d.fields[k], m.slots[k], slots[k])
  }

  lemma OneMoreCached(d: Descriptor, m: Message, slots: seq<SlotCache>, c: SlotCache)
    requires |slots| < |d.fields| == |m.slots| && SlotsCached(d, m, slots)
    requires SlotOk(d.fields[|slots|], m.slots[|slots|]) && SlotCacheOk(d.fields[|slots|], m.slots[|slots|], c)
    ensures SlotsCached(d, m, slots + [c])
  {
    hide SlotOk, SlotCacheOk;
  }

  // ---- serialising ----

  /** Where the bytes go: a stream without limit, or the array of a caller who has provided so many bytes. */
  class Output {
    var bytes: seq<byte>
    const limit: Option<nat>

    constructor (limit: Option<nat>)
      ensures bytes == [] && this.limit == limit
    {
      bytes, this.limit := [], limit;
    }

    predicate HasRoom(n: nat)
      reads this
    {
      limit.None? || |bytes| + n <= limit.value
    }

    method Write(bs: seq<byte>)
      requires HasRoom(|bs|)
      modifies this
      ensures bytes == old(bytes) + bs
    {
      bytes := bytes + bs;
    }
  }

  method SerializeVal(f: Field, v: Val, part: Cache, out: Output)
    requires 0 < f.number < 16 && ValOk(f.kind, v)
    requires f.kind.Sub? ==> WellFormed(f.kind.desc) && CacheOk(f.kind.desc, v.message, part)
    requires out.HasRoom(|EncodeToken(Token(f.number, PayloadOf(f.kind, v)))|)
    modifies out
    ensures out.bytes == old(out.bytes) + EncodeToken(Token(f.number, PayloadOf(f.kind, v)))
    decreases f, 0
  {
    EncodeVal(f, v);
    ghost var tag := Varint(MakeTag(f.number, WireTypeOf(f.kind)));
    hide EncodeToken, Varint, ToLittleEndian, Encode, ToWire;
    out.Write(Varint(MakeTag(f.number, WireTypeOf(f.kind))));
    if f.kind.Text? {
      out.Write(Varint(|v.bytes|));
      out.Write(v.bytes);
      Associate(old(out.bytes), tag, Varint(|v.bytes|) + v.bytes);
      Associate(old(out.bytes) + tag, Varint(|v.bytes|), v.bytes);
    } else if f.kind.Sub? {
      ghost var body := Encode(f.kind.desc, v.message);
      out.Write(Varint(part.total));
      SerializeWithCachedSizes(f.kind.desc, v.message, part, out);
      Associate(old(out.bytes), tag, Varint(|body|) + body);
      Associate(old(out.bytes) + tag, Varint(|body|), body);
    } else {
      WriteNumber(f.kind, v.n, out);
      ghost var body := EncodePayload(0, NumberPayload(f.kind, v.n));
      Associate(old(out.bytes), tag, body);
    }
  }

  method WriteNumber(k: Kind, n: int, out: Output)
    requires IsNumeric(k) && -TWO63 <= n && out.HasRoom(|EncodePayload(0, NumberPayload(k, n))|)
    modifies out
    ensures out.bytes == old(out.bytes) + EncodePayload(0, NumberPayload(k, n))
  {
    if k.Double? { out.Write(ToLittleEndian(ToWire(n), 8)); } else { out.Write(Varint(ToWire(n))); }
  }

  method SerializePacked(f: Field, vs: seq<Val>, size: nat, out: Output)
    requires f.mode.Packed? && SlotOk(f, vs) && NumbersOk(f.kind, vs) && size == |PackedBytes(f.kind, vs)|
    requires out.HasRoom(|EncodeTokens(SlotTokens(f, vs))|)
    modifies out
    ensures out.bytes == old(out.bytes) + EncodeTokens(SlotTokens(f, vs))
  {
    PackedSlotBytes(f, vs);
    hide SlotTokens, EncodeTokens, EncodePayload, Varint, InRange, SlotOk, PackedBytes, NumberPayload, VarintSize;
    if |vs| > 0 {
      out.Write(Varint(MakeTag(f.number, DELIMITED)));
      out.Write(Varint(size));
      Associate(old(out.bytes), Varint(MakeTag(f.number, DELIMITED)), Varint(size));
      Associate(old(out.bytes), Varint(MakeTag(f.number, DELIMITED)) + Varint(size), PackedBytes(f.kind, vs));
    } else {
      NoPacked(f.kind);
    }
    WritePackedValues(f.kind, vs, out);
  }

  method WritePackedValues(k: Kind, vs: seq<Val>, out: Output)
    requires NumbersOk(k, vs) && out.HasRoom(|PackedBytes(k, vs)|)
    modifies out
    ensures out.bytes == old(out.bytes) + PackedBytes(k, vs)
  {
    hide EncodePayload, InRange, PackedBytes, NumberPayload;
    ghost var goal := old(out.bytes) + PackedBytes(k, vs);
    assert vs[0..] == vs;
    for i := 0 to |vs|
      invariant out.bytes + PackedBytes(k, vs[i..]) == goal
    {
      PackedAt(k, vs, i);
      ghost var before := out.bytes;
      WriteNumber(k, vs[i].n, out);
      Associate(before, EncodePayload(0, NumberPayload(k, vs[i].n)), PackedBytes(k, vs[i + 1..]));
    }
    NoPacked(k);
  }

  lemma NoPacked(k: Kind)
    requires IsNumeric(k)
    ensures PackedBytes(k, []) == []
  {
  }

  lemma PackedAt(k: Kind, vs: seq<Val>, i: nat)
    requires NumbersOk(k, vs) && i < |vs|
    ensures -TWO63 <= vs[i].n
    ensures PackedBytes(k, vs[i..]) == EncodePayload(0, NumberPayload(k, vs[i].n)) + PackedBytes(k, vs[i + 1..])
  {
    NumberInRange(k, vs[i].n);
    assert vs[i..][1..] == vs[i + 1..];
    hide EncodePayload;
  }

  lemma ValTokensAt(f: Field, vs: seq<Val>, i: nat)
    requires i < |vs| && forall j :: 0 <= j < |vs| ==> ValOk(f.kind, vs[j])
    ensures EncodeTokens(ValTokens(f, vs[i..])) ==
            EncodeToken(Token(f.number, PayloadOf(f.kind, vs[i]))) + EncodeTokens(ValTokens(f, vs[i + 1..]))
  {
    hide EncodeToken, EncodeTokens, PayloadOf, ValOk;
    ValTokensSplit(f, vs[i..]);
    assert vs[i..][1..] == vs[i + 1..];
  }

  method SerializeSlot(f: Field, vs: seq<Val>, c: SlotCache, out: Output)
    requires 0 < f.number < 16 && SlotOk(f, vs) && SlotCacheOk(f, vs, c)
    requires f.kind.Sub? ==> WellFormed(f.kind.desc)
    requires out.HasRoom(|EncodeTokens(SlotTokens(f, vs))|)
    modifies out
    ensures out.bytes == old(out.bytes) + EncodeTokens(SlotTokens(f, vs))
    decreases f, 1
  {
    if f.mode.Packed? && IsNumeric(f.kind) {
      SlotOfNumbers(f, vs);
      SerializePacked(f, vs, c.n, out);
    } else {
      hide EncodeToken, PayloadOf, EncodeTokens, ValTokens;
      assert vs[0..] == vs;
      for i := 0 to |vs|
        invariant forall j :: 0 <= j < |vs| ==> ValOk(f.kind, vs[j])
        invariant out.bytes + EncodeTokens(ValTokens(f, vs[i..])) == old(out.bytes) + EncodeTokens(ValTokens(f, vs))
      {
        ValTokensAt(f, vs, i);
        ghost var before := out.bytes;
        SerializeVal(f, vs[i], if f.kind.Sub? then c.parts[i] else Cache(0, []), out);
        ghost var t := Token(f.number, PayloadOf(f.kind, vs[i]));
        Associate(before, EncodeToken(t), EncodeTokens(ValTokens(f, vs[i + 1..])));
      }
      NoTokens(f, vs[|vs|..]);
    }
  }

  lemma NoTokens(f: Field, vs: seq<Val>)
    requires vs == []
    ensures EncodeTokens(ValTokens(f, vs)) == []
  {
  }

  lemma NumberInRange(k: Kind, n: int)
    requires IsNumeric(k) && InRange(k, n)
    ensures -TWO63 <= n
  {
  }

  lemma PackedSlotBytes(f: Field, vs: seq<Val>)
    requires f.mode.Packed? && SlotOk(f, vs) && NumbersOk(f.kind, vs)
    ensures var body := PackedBytes(f.kind, vs);
      EncodeTokens(SlotTokens(f, vs)) ==
      if vs == [] then [] else Varint(MakeTag(f.number, DELIMITED)) + Varint(|body|) + body
  {
    if vs != [] {
      var t := Token(f.number, DelimitedP(PackedBytes(f.kind, vs)));
      EncodeOne(t);
      hide Varint, PackedBytes, EncodeTokens;
      var body := PackedBytes(f.kind, vs);
      Associate(Varint(TagOf(t)), Varint(|body|), body);
    }
  }

  /** Given up-to-date sizes, writes exactly the encoding, and never more than the size promised. */
  method SerializeWithCachedSizes(d: Descriptor, m: Message, c: Cache, out: Output)
    requires WellFormed(d) && MessageOk(d, m) && CacheOk(d, m, c) && out.HasRoom(c.total)
    modifies out
    ensures out.bytes == old(out.bytes) + Encode(d, m)
    decreases d, 2
  {
    assert |m.slots| == |d.fields|;
    TokensEnd(d, m);
    assert Encode(d, m) == EncodeTokens(TokensFrom(d, m, 0));
    hide MessageOk, WellFormed, SlotTokens, SlotCacheOk, FieldOk, EncodeTokens, Encode, TokensFrom;
    for i := 0 to |d.fields|
      invariant out.bytes + EncodeTokens(TokensFrom(d, m, i)) == old(out.bytes) + Encode(d, m)
    {
      FieldNumber(d, i);
      TokensFromSplit(d, m, i);
      ghost var before := out.bytes;
      SerializeSlot(d.fields[i], m.slots[i], c.slots[i], out);
      Associate(before, EncodeTokens(SlotTokens(d.fields[i], m.slots[i])), EncodeTokens(TokensFrom(d, m, i + 1)));
    }
    if m.unknown != [] { out.Write(EncodeTokens(m.unknown)); }
  }

  lemma FieldNumber(d: Descriptor, i: nat)
    requires WellFormed(d) && i < |d.fields|
    ensures 0 < d.fields[i].number < 16 && (d.fields[i].kind.Sub? ==> WellFormed(d.fields[i].kind.desc))
  {
    KindOk(d, i);
  }
}
