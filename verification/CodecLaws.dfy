/** Concatenating encodings merges messages, and what is written is read back. */
module CodecLaws {
  import opened Bytes
  import opened Wire
  import opened WireLaws
  import opened Codec

  // ---- concatenation is merging ----

  function Then(r: Option<Message>, d: Descriptor, ts: seq<Token>): Option<Message>
    requires r.Some? ==> |r.value.slots| == |d.fields|
  {
    match r
    case None => None
    case Some(m) => ApplyAll(d, m, ts)
  }

  lemma {:induction false} ApplyAllConcat(d: Descriptor, m: Message, ts: seq<Token>, us: seq<Token>)
    requires |m.slots| == |d.fields|
    ensures ApplyAll(d, m, ts + us) == Then(ApplyAll(d, m, ts), d, us)
    decreases |ts|
  {
    hide Apply;
    if ts == [] {
      assert ts + us == us;
    } else {
      assert (ts + us)[1..] == ts[1..] + us;
      var r := Apply(d, m, ts[0]);
      if r.Some? { ApplyAllConcat(d, r.value, ts[1..], us); }
    }
  }

  lemma CombineAssociates(mode: Mode, a: seq<Val>, b: seq<Val>, c: seq<Val>)
    ensures Combine(mode, Combine(mode, a, b), c) == Combine(mode, a, Combine(mode, b, c))
  {
    if !mode.Singular? {
      assert a + b + c == a + (b + c);
    } else if b == [] {
      assert Combine(mode, a, b) == a && Combine(mode, b, c) == c;
    }
  }

  lemma StoreMerge(d: Descriptor, a: Message, b: Message, i: nat, vs: seq<Val>)
    requires i < |d.fields| == |a.slots| == |b.slots|
    ensures Store(d, Merge(d, a, b), i, vs) == Merge(d, a, Store(d, b, i, vs))
  {
    CombineAssociates(d.fields[i].mode, a.slots[i], b.slots[i], vs);
    hide Combine;
    assert Store(d, Merge(d, a, b), i, vs).slots == Merge(d, a, Store(d, b, i, vs)).slots;
  }

  lemma UnknownMerge(d: Descriptor, a: Message, b: Message, t: Token)
    requires |d.fields| == |a.slots| == |b.slots|
    ensures AddUnknown(Merge(d, a, b), t) == Merge(d, a, AddUnknown(b, t))
  {
    hide Combine;
    assert a.unknown + b.unknown + [t] == a.unknown + (b.unknown + [t]);
  }

  function MergeAfter(d: Descriptor, a: Message, r: Option<Message>): Option<Message>
    requires |a.slots| == |d.fields| && (r.Some? ==> |r.value.slots| == |d.fields|)
  {
    match r
    case None => None
    case Some(m) => Some(Merge(d, a, m))
  }

  /** What a token does does not depend on what came before. */
  lemma ApplyMerge(d: Descriptor, a: Message, b: Message, t: Token)
    requires |d.fields| == |a.slots| == |b.slots|
    ensures Apply(d, Merge(d, a, b), t) == MergeAfter(d, a, Apply(d, b, t))
  {
    hide Merge, Store, AddUnknown, Decode, ReadPacked;
    UnknownMerge(d, a, b, t);
    var i := Find(d.fields, t.number);
    if i < |d.fields| {
      var f := d.fields[i];
      if f.mode.Packed? && IsNumeric(f.kind) && t.payload.DelimitedP? {
        var r := ReadPacked(f.kind, t.payload.bytes);
        if r.Some? { StoreMerge(d, a, b, i, r.value); }
      } else if TypeOf(t.payload) == WireTypeOf(f.kind) {
        match Decode(f, t.payload)
        case Good(v) => StoreMerge(d, a, b, i, [v]);
        case Foreign(u) => UnknownMerge(d, a, b, u);
        case Malformed =>
      }
    }
  }

  lemma {:induction false} ApplyAllMerge(d: Descriptor, a: Message, b: Message, ts: seq<Token>)
    requires |d.fields| == |a.slots| == |b.slots|
    ensures ApplyAll(d, Merge(d, a, b), ts) == MergeAfter(d, a, ApplyAll(d, b, ts))
    decreases |ts|
  {
    hide Apply, Merge;
    if ts == [] {
    } else {
      ApplyMerge(d, a, b, ts[0]);
      var r := Apply(d, b, ts[0]);
      if r.Some? { ApplyAllMerge(d, a, r.value, ts[1..]); }
    }
  }

  lemma MergeEmpty(d: Descriptor, m: Message)
    requires |m.slots| == |d.fields|
    ensures Merge(d, m, Empty(d)) == m
  {
    var r := Merge(d, m, Empty(d));
    forall i | 0 <= i < |d.fields| ensures r.slots[i] == m.slots[i] {
      assert m.slots[i] + [] == m.slots[i];
    }
    assert r.slots == m.slots;
  }

  /** For any bytes whatever, known and unknown fields alike: parsing the concatenation of two encodings gives
      the merge of the two messages. */
  lemma ConcatIsMerge(d: Descriptor, a: seq<byte>, b: seq<byte>)
    requires Parse(d, a).Some? && Parse(d, b).Some?
    ensures Parse(d, a + b) == Some(Merge(d, Parse(d, a).value, Parse(d, b).value))
  {
    hide ReadTokens, ApplyAll, Merge, Empty;
    TokensOfConcat(a, b);
    var ts, us := ReadTokens(a).value, ReadTokens(b).value;
    ApplyAllConcat(d, Empty(d), ts, us);
    var m := Parse(d, a).value;
    MergeEmpty(d, m);
    ApplyAllMerge(d, m, Empty(d), us);
  }

  /** Parsing into a message is parsing apart and merging. */
  lemma ParseIntoIsMerge(d: Descriptor, m: Message, b: seq<byte>)
    requires |m.slots| == |d.fields|
    ensures ParseInto(d, m, b) == MergeAfter(d, m, Parse(d, b))
  {
    hide ReadTokens, ApplyAll, Merge, Empty;
    MergeEmpty(d, m);
    match ReadTokens(b)
    case None =>
    case Some(ts) => ApplyAllMerge(d, m, Empty(d), ts);
  }

  // ---- one value, one slot ----

  lemma NumberPayloadOk(k: Kind, n: int)
    requires IsNumeric(k) && InRange(k, n) && (k.Enum? ==> k.last < TWO31)
    ensures PayloadOk(NumberPayload(k, n))
    ensures k.Double? ==> NumberPayload(k, n) == Fixed64P(n)
    ensures !k.Double? ==> NumberPayload(k, n) == VarintP(ToWire(n)) && FromWire(k, ToWire(n)) == n
  {
    NumberRoundTrip(k, n);
    assert Pow256(8) == 0x1_0000_0000_0000_0000;
  }

  lemma ReadNumberBack(k: Kind, n: int, rest: seq<byte>)
    requires IsNumeric(k) && InRange(k, n) && (k.Enum? ==> k.last < TWO31)
    ensures ReadNumber(k, EncodePayload(0, NumberPayload(k, n)) + rest) == Some((Num(n), rest))
  {
    NumberRoundTrip(k, n);
    hide FromWire, ReadVarint, ReadFixed, Varint, ToLittleEndian, Pow256;
    if k.Double? {
      Eight();
      FixedRoundTrip(n, 8, rest);
      IsItself(n);
    } else {
      VarintRoundTrip(ToWire(n), rest);
    }
  }

  lemma Eight()
    ensures Pow256(8) == TWO64
  {
    assert Pow256(8) == 0x1_0000_0000_0000_0000;
  }

  lemma IsItself(n: nat)
    ensures FromWire(Double, n) == n
  {
  }

  lemma {:induction false} ReadPackedBack(k: Kind, vs: seq<Val>)
    requires NumbersOk(k, vs) && (k.Enum? ==> k.last < TWO31)
    ensures ReadPacked(k, PackedBytes(k, vs)) == Some(vs)
  {
    hide ReadNumber, InRange, EncodePayload;
    if vs == [] {
    } else {
      ReadNumberBack(k, vs[0].n, PackedBytes(k, vs[1..]));
      ReadPackedBack(k, vs[1..]);
      assert [vs[0]] + vs[1..] == vs;
    }
  }

  ghost predicate Fits(d: Descriptor, m: Message)
    requires MessageOk(d, m)
  {
    |Encode(d, m)| < LENGTH_LIMIT
  }

  ghost predicate ValFits(k: Kind, v: Val)
    requires ValOk(k, v)
  {
    match k
    case Text => |v.bytes| < LENGTH_LIMIT
    case Sub(desc) => Fits(desc, v.message)
    case _ => true
  }

  lemma {:induction false} FieldsOkAt(d: Descriptor, i: nat, j: nat)
    requires i <= j < |d.fields| && FieldsOk(d, i)
    ensures FieldOk(d, d.fields[j]) && (d.fields[j].kind.Sub? ==> WellFormed(d.fields[j].kind.desc))
    ensures forall k :: i <= k < j ==> d.fields[k].number < d.fields[j].number
    decreases j - i
  {
    hide FieldOk, WellFormed;
    if i < j {
      FieldsOkAt(d, i + 1, j);
      if i + 1 == j { assert FieldsOk(d, j); }
    }
  }

  lemma KindOk(d: Descriptor, i: nat)
    requires WellFormed(d) && i < |d.fields|
    ensures FieldOk(d, d.fields[i])
    ensures d.fields[i].kind.Sub? ==> WellFormed(d.fields[i].kind.desc)
    ensures Find(d.fields, d.fields[i].number) == i
  {
    FieldsOkAt(d, 0, i);
    hide FieldOk, FieldsOk, Find;
    var f := Find(d.fields, d.fields[i].number);
  }

  /** Reading one written value stores it. */
  lemma {:induction false} ApplyVal(d: Descriptor, m: Message, i: nat, v: Val)
    requires WellFormed(d) && |m.slots| == |d.fields| && i < |d.fields|
    requires !d.fields[i].mode.Packed? || IsNumeric(d.fields[i].kind)
    requires ValOk(d.fields[i].kind, v) && ValFits(d.fields[i].kind, v)
    ensures Apply(d, m, Token(d.fields[i].number, PayloadOf(d.fields[i].kind, v))) == Some(Store(d, m, i, [v]))
    decreases d, 1
  {
    var f := d.fields[i];
    KindOk(d, i);
    match f.kind
    case Text =>
    case Sub(desc) =>
      RoundTrip(desc, v.message);
    case _ =>
      NumberPayloadOk(f.kind, v.n);
  }

  lemma {:induction false} ApplyVals(d: Descriptor, m: Message, i: nat, vs: seq<Val>)
    requires WellFormed(d) && |m.slots| == |d.fields| && i < |d.fields|
    requires !d.fields[i].mode.Packed? || IsNumeric(d.fields[i].kind)
    requires d.fields[i].mode.Singular? ==> |vs| <= 1
    requires forall j :: 0 <= j < |vs| ==> ValOk(d.fields[i].kind, vs[j]) && ValFits(d.fields[i].kind, vs[j])
    ensures ApplyAll(d, m, ValTokens(d.fields[i], vs)) == Some(Store(d, m, i, vs))
    decreases d, 2, |vs|
  {
    hide WellFormed, Apply, PayloadOf, ValOk, ValFits;
    var f := d.fields[i];
    if vs == [] {
      StoreNothing(d, m, i);
    } else {
      ApplyVal(d, m, i, vs[0]);
      var next := Store(d, m, i, [vs[0]]);
      ApplyVals(d, next, i, vs[1..]);
      CombineAssociates(f.mode, m.slots[i], [vs[0]], vs[1..]);
      assert [vs[0]] + vs[1..] == vs;
      assert Combine(f.mode, [vs[0]], vs[1..]) == vs;
      assert Store(d, next, i, vs[1..]).slots == Store(d, m, i, vs).slots;
    }
  }

  lemma StoreNothing(d: Descriptor, m: Message, i: nat)
    requires i < |d.fields| == |m.slots|
    ensures Store(d, m, i, []) == m
  {
    assert m.slots[i := m.slots[i]] == m.slots;
    assert m.slots[i] + [] == m.slots[i];
  }

  ghost predicate SlotFits(f: Field, vs: seq<Val>)
    requires SlotOk(f, vs)
  {
    forall j :: 0 <= j < |vs| ==> ValOk(f.kind, vs[j]) && ValFits(f.kind, vs[j])
  }

  lemma {:induction false} ApplySlot(d: Descriptor, m: Message, i: nat, vs: seq<Val>)
    requires WellFormed(d) && |m.slots| == |d.fields| && i < |d.fields|
    requires SlotOk(d.fields[i], vs) && SlotFits(d.fields[i], vs)
    ensures ApplyAll(d, m, SlotTokens(d.fields[i], vs)) == Some(Store(d, m, i, vs))
    decreases d, 3
  {
    var f := d.fields[i];
    KindOk(d, i);
    if f.mode.Packed? {
      SlotOfNumbers(f, vs);
      if vs == [] {
        StoreNothing(d, m, i);
      } else {
        ApplyPacked(d, m, i, vs);
      }
    } else {
      ApplyVals(d, m, i, vs);
    }
  }

  lemma ApplyPacked(d: Descriptor, m: Message, i: nat, vs: seq<Val>)
    requires WellFormed(d) && |m.slots| == |d.fields| && i < |d.fields|
    requires d.fields[i].mode.Packed? && NumbersOk(d.fields[i].kind, vs)
    ensures ApplyAll(d, m, [Token(d.fields[i].number, DelimitedP(PackedBytes(d.fields[i].kind, vs)))]) ==
            Some(Store(d, m, i, vs))
  {
    KindOk(d, i);
    hide WellFormed, Find, Store, PackedBytes;
    ReadPackedBack(d.fields[i].kind, vs);
  }

  /** Packed and unpacked encodings of a repeated number give the same message. */
  lemma PackedOrNot(d: Descriptor, m: Message, i: nat, vs: seq<Val>)
    requires WellFormed(d) && |m.slots| == |d.fields| && i < |d.fields|
    requires d.fields[i].mode.Packed? && SlotOk(d.fields[i], vs)
    requires NumbersOk(d.fields[i].kind, vs) && |PackedBytes(d.fields[i].kind, vs)| < LENGTH_LIMIT
    ensures ParseInto(d, m, EncodeTokens([Token(d.fields[i].number, DelimitedP(PackedBytes(d.fields[i].kind, vs)))])) ==
            ParseInto(d, m, EncodeTokens(ValTokens(d.fields[i], vs))) == Some(Store(d, m, i, vs))
  {
    var f := d.fields[i];
    KindOk(d, i);
    ApplyPacked(d, m, i, vs);
    assert forall j :: 0 <= j < |vs| ==> ValFits(f.kind, vs[j]);
    ApplyVals(d, m, i, vs);
    var packed := Token(f.number, DelimitedP(PackedBytes(f.kind, vs)));
    assert TokenOk(packed) && [packed][1..] == [];
    TokensRoundTrip([packed]);
    NumberTokensOk(f, vs);
    TokensRoundTrip(ValTokens(f, vs));
  }

  lemma {:induction false} NumberTokensOk(f: Field, vs: seq<Val>)
    requires IsNumeric(f.kind) && (f.kind.Enum? ==> f.kind.last < TWO31) && 0 < f.number < 16
    requires forall j :: 0 <= j < |vs| ==> ValOk(f.kind, vs[j])
    ensures TokensOk(ValTokens(f, vs))
  {
    if vs == [] {
    } else {
      NumberPayloadOk(f.kind, vs[0].n);
      hide ToWire, InRange;
      NumberTokensOk(f, vs[1..]);
    }
  }

  // ---- whole messages ----

  /** All slots from the i-th on stored, then the unknown fields added. */
  ghost function StoreFrom(d: Descriptor, m: Message, x: Message, i: nat): (r: Message)
    requires |m.slots| == |x.slots| == |d.fields| && i <= |d.fields|
    ensures |r.slots| == |d.fields|
    decreases |d.fields| - i
  {
    if i == |d.fields| then m.(unknown := m.unknown + x.unknown)
    else StoreFrom(d, Store(d, m, i, x.slots[i]), x, i + 1)
  }

  lemma {:induction false} StoreFromIsMerge(d: Descriptor, m: Message, x: Message, i: nat)
    requires |m.slots| == |x.slots| == |d.fields| && i <= |d.fields|
    ensures var r := StoreFrom(d, m, x, i);
      && r.unknown == m.unknown + x.unknown
      && (forall j :: 0 <= j < i ==> r.slots[j] == m.slots[j])
      && (forall j :: i <= j < |d.fields| ==> r.slots[j] == Combine(d.fields[j].mode, m.slots[j], x.slots[j]))
    decreases |d.fields| - i
  {
    hide Combine;
    if i < |d.fields| { StoreFromIsMerge(d, Store(d, m, i, x.slots[i]), x, i + 1); }
  }

  lemma {:induction false} ApplyUnknown(d: Descriptor, m: Message, ts: seq<Token>)
    requires |m.slots| == |d.fields|
    requires forall j :: 0 <= j < |ts| ==> Uninterpreted(d, ts[j])
    ensures ApplyAll(d, m, ts) == Some(m.(unknown := m.unknown + ts))
    decreases |ts|
  {
    hide Apply, Merge;
    if ts == [] {
      assert m.unknown + [] == m.unknown;
    } else {
      MergeEmpty(d, m);
      ApplyMerge(d, m, Empty(d), ts[0]);
      UnknownMerge(d, m, Empty(d), ts[0]);
      ApplyUnknown(d, AddUnknown(m, ts[0]), ts[1..]);
      assert m.unknown + [ts[0]] + ts[1..] == m.unknown + ts;
    }
  }

  ghost predicate AllFit(d: Descriptor, m: Message)
    requires MessageOk(d, m)
  {
    forall i :: 0 <= i < |d.fields| ==> SlotOk(d.fields[i], m.slots[i]) && SlotFits(d.fields[i], m.slots[i])
  }

  lemma {:induction false} ApplyFrom(d: Descriptor, m: Message, x: Message, i: nat)
    requires WellFormed(d) && MessageOk(d, x) && AllFit(d, x) && |m.slots| == |d.fields| && i <= |d.fields|
    ensures ApplyAll(d, m, TokensFrom(d, x, i)) == Some(StoreFrom(d, m, x, i))
    decreases d, 4, |d.fields| - i
  {
    hide WellFormed, ApplyAll, SlotTokens, SlotFits;
    if i == |d.fields| {
      ApplyUnknown(d, m, x.unknown);
    } else {
      assert SlotOk(d.fields[i], x.slots[i]) && SlotFits(d.fields[i], x.slots[i]);
      ApplySlot(d, m, i, x.slots[i]);
      ApplyAllConcat(d, m, SlotTokens(d.fields[i], x.slots[i]), TokensFrom(d, x, i + 1));
      ApplyFrom(d, Store(d, m, i, x.slots[i]), x, i + 1);
    }
  }

  /** Main result: what serialising wrote parses to the same message, unknown fields included. */
  lemma {:induction false} RoundTrip(d: Descriptor, m: Message)
    requires WellFormed(d) && MessageOk(d, m) && Fits(d, m)
    ensures Parse(d, Encode(d, m)) == Some(m)
    decreases d, 5
  {
    EverythingFits(d, m);
    hide WellFormed, MessageOk, AllFit;
    TokensRoundTrip(TokensFrom(d, m, 0));
    ApplyFrom(d, Empty(d), m, 0);
    StoreIntoEmpty(d, m);
  }

  lemma StoreIntoEmpty(d: Descriptor, m: Message)
    requires MessageOk(d, m)
    ensures |m.slots| == |d.fields| && StoreFrom(d, Empty(d), m, 0) == m
  {
    StoreFromIsMerge(d, Empty(d), m, 0);
    var r := StoreFrom(d, Empty(d), m, 0);
    hide StoreFrom;
    forall j | 0 <= j < |d.fields| ensures r.slots[j] == m.slots[j] {
      assert SlotOk(d.fields[j], m.slots[j]);
      assert [] + m.slots[j] == m.slots[j];
    }
    assert r.slots == m.slots && [] + m.unknown == m.unknown;
  }

  // ---- sizes ----

  lemma DelimitedInside(t: Token)
    requires t.payload.DelimitedP?
    ensures |t.payload.bytes| <= |EncodeToken(t)|
  {
    hide Varint;
  }

  lemma {:induction false} ValTokensFit(d: Descriptor, f: Field, vs: seq<Val>)
    requires FieldOk(d, f)
    requires forall j :: 0 <= j < |vs| ==> ValOk(f.kind, vs[j])
    requires |EncodeTokens(ValTokens(f, vs))| < LENGTH_LIMIT
    ensures TokensOk(ValTokens(f, vs))
    ensures forall j :: 0 <= j < |vs| ==> ValFits(f.kind, vs[j])
    decreases |vs|
  {
    if vs == [] {
    } else {
      var ts := ValTokens(f, vs);
      assert ValTokens(f, vs[1..]) == ts[1..];
      ValFitsToken(f, vs[0]);
      hide EncodeToken, FieldOk, ValOk, ValFits, PayloadOf;
      ValTokensFit(d, f, vs[1..]);
    }
  }

  lemma ValFitsToken(f: Field, v: Val)
    requires ValOk(f.kind, v) && 0 < f.number < 16 && (f.kind.Enum? ==> f.kind.last < TWO31)
    ensures var t := Token(f.number, PayloadOf(f.kind, v));
      |EncodeToken(t)| < LENGTH_LIMIT ==> TokenOk(t) && ValFits(f.kind, v)
  {
    var t := Token(f.number, PayloadOf(f.kind, v));
    if IsNumeric(f.kind) {
      NumberPayloadOk(f.kind, v.n);
    } else {
      DelimitedInside(t);
    }
  }

  lemma SlotTokensFit(d: Descriptor, i: nat, vs: seq<Val>)
    requires WellFormed(d) && i < |d.fields| && SlotOk(d.fields[i], vs)
    requires |EncodeTokens(SlotTokens(d.fields[i], vs))| < LENGTH_LIMIT
    ensures TokensOk(SlotTokens(d.fields[i], vs)) && SlotFits(d.fields[i], vs)
  {
    var f := d.fields[i];
    KindOk(d, i);
    hide WellFormed;
    if f.mode.Packed? && IsNumeric(f.kind) {
      SlotOfNumbers(f, vs);
      if vs != [] {
        var t := Token(f.number, DelimitedP(PackedBytes(f.kind, vs)));
        assert SlotTokens(f, vs) == [t];
        TokenInside([t], 0);
        DelimitedInside(t);
        assert TokenOk(t) && [t][1..] == [];
      }
      forall j | 0 <= j < |vs| ensures ValOk(f.kind, vs[j]) && ValFits(f.kind, vs[j]) {}
    } else {
      ValTokensFit(d, f, vs);
    }
  }

  lemma {:induction false} TokensOkConcat(ts: seq<Token>, us: seq<Token>)
    requires TokensOk(ts) && TokensOk(us)
    ensures TokensOk(ts + us)
  {
    hide TokenOk;
    if ts == [] {
      assert ts + us == us;
    } else {
      assert (ts + us)[1..] == ts[1..] + us;
      TokensOkConcat(ts[1..], us);
    }
  }

  lemma {:induction false} AllTokensOk(ts: seq<Token>)
    requires forall j :: 0 <= j < |ts| ==> TokenOk(ts[j])
    ensures TokensOk(ts)
  {
    hide TokenOk;
    if ts == [] {
    } else {
      AllTokensOk(ts[1..]);
    }
  }

  lemma {:induction false} FitsFrom(d: Descriptor, m: Message, i: nat)
    requires WellFormed(d) && MessageOk(d, m) && i <= |d.fields|
    requires |EncodeTokens(TokensFrom(d, m, i))| < LENGTH_LIMIT
    ensures TokensOk(TokensFrom(d, m, i))
    ensures forall j :: i <= j < |d.fields| ==> SlotOk(d.fields[j], m.slots[j]) && SlotFits(d.fields[j], m.slots[j])
    decreases |d.fields| - i
  {
    hide WellFormed, SlotTokens, SlotFits, EncodeTokens;
    if i == |d.fields| {
      AllTokensOk(m.unknown);
    } else {
      var ts, us := SlotTokens(d.fields[i], m.slots[i]), TokensFrom(d, m, i + 1);
      EncodeTokensConcat(ts, us);
      FitsFrom(d, m, i + 1);
      SlotTokensFit(d, i, m.slots[i]);
      TokensOkConcat(ts, us);
    }
  }

  lemma EverythingFits(d: Descriptor, m: Message)
    requires WellFormed(d) && MessageOk(d, m) && Fits(d, m)
    ensures AllFit(d, m) && TokensOk(TokensFrom(d, m, 0))
  {
    FitsFrom(d, m, 0);
  }

  // ---- whatever was parsed can be written and parsed again ----

  lemma FromWireInRange(k: Kind, w: nat)
    requires IsNumeric(k) && !k.Enum? && w < TWO64
    ensures InRange(k, FromWire(k, w))
  {
  }

  lemma {:induction false} ReadPackedInRange(k: Kind, b: seq<byte>)
    requires IsNumeric(k) && !k.Enum? && ReadPacked(k, b).Some?
    ensures NumbersOk(k, ReadPacked(k, b).value)
    decreases |b|
  {
    hide ReadVarint, ReadFixed, FromWire, InRange, Pow256;
    if b == [] {
    } else {
      Eight();
      var r := if k.Double? then ReadFixed(b, 8) else ReadVarint(b);
      FromWireInRange(k, r.value.0);
      ReadPackedInRange(k, r.value.1);
    }
  }

  lemma {:induction false} DecodeIsOk(f: Field, p: Payload)
    requires TypeOf(p) == WireTypeOf(f.kind) && PayloadOk(p) && (f.kind.Enum? ==> f.kind.last < TWO31)
    requires f.kind.Sub? ==> WellFormed(f.kind.desc)
    ensures match Decode(f, p)
      case Good(v) => ValOk(f.kind, v)
      case Foreign(u) => f.kind.Enum? && TokenIsForeign(f, u)
      case Malformed => true
    decreases f, 1
  {
    match f.kind
    case Text =>
    case Sub(desc) => if Parse(desc, p.bytes).Some? { ParsedIsOk(desc, p.bytes); }
    case Double => Eight();
    case Enum(last) => EnumRange(f.kind, p.v);
    case _ => FromWireInRange(f.kind, p.v);
  }

  /** An unknown enum value, kept under the field's own number, is unknown again when read. */
  predicate TokenIsForeign(f: Field, u: Token) {
    f.kind.Enum? && u.number == f.number && u.payload.VarintP? && u.payload.v < TWO64 &&
    Decode(f, u.payload) == Foreign(u)
  }

  lemma EnumRange(k: Kind, w: nat)
    requires k.Enum?
    ensures var n := FromWire(k, w);
      -TWO31 <= n < TWO31 && ToWire(n) < TWO64 && FromWire(k, ToWire(n)) == n
  {
  }

  lemma StoreIsOk(d: Descriptor, m: Message, i: nat, vs: seq<Val>)
    requires MessageOk(d, m) && i < |d.fields|
    requires d.fields[i].mode.Singular? ==> |vs| <= 1
    requires forall j :: 0 <= j < |vs| ==> ValOk(d.fields[i].kind, vs[j])
    ensures MessageOk(d, Store(d, m, i, vs))
  {
    hide ValOk, Uninterpreted;
    var r := Store(d, m, i, vs);
    forall k | 0 <= k < |d.fields| ensures SlotOk(d.fields[k], r.slots[k]) {
      assert SlotOk(d.fields[k], m.slots[k]);
    }
  }

  lemma AddUnknownIsOk(d: Descriptor, m: Message, u: Token)
    requires MessageOk(d, m) && TokenOk(u) && Uninterpreted(d, u)
    ensures MessageOk(d, AddUnknown(m, u))
  {
    hide SlotOk, Uninterpreted, TokenOk;
  }

  lemma ForeignIsUninterpreted(d: Descriptor, i: nat, u: Token)
    requires WellFormed(d) && i < |d.fields| && TokenIsForeign(d.fields[i], u)
    ensures TokenOk(u) && Uninterpreted(d, u)
  {
    KindOk(d, i);
    hide WellFormed, Find, Decode;
  }

  lemma {:induction false} ApplyKeepsOk(d: Descriptor, m: Message, t: Token)
    requires WellFormed(d) && MessageOk(d, m) && TokenOk(t) && Apply(d, m, t).Some?
    ensures MessageOk(d, Apply(d, m, t).value)
    decreases d, 0
  {
    var i := Find(d.fields, t.number);
    if i == |d.fields| {
      AddUnknownIsOk(d, m, t);
    } else {
      var f := d.fields[i];
      KindOk(d, i);
      hide WellFormed, MessageOk, Find;
      if f.mode.Packed? && t.payload.DelimitedP? {
        ReadPackedInRange(f.kind, t.payload.bytes);
        StoreIsOk(d, m, i, ReadPacked(f.kind, t.payload.bytes).value);
      } else if TypeOf(t.payload) == WireTypeOf(f.kind) {
        DecodeIsOk(f, t.payload);
        match Decode(f, t.payload)
        case Good(v) => StoreIsOk(d, m, i, [v]);
        case Foreign(u) =>
          ForeignIsUninterpreted(d, i, u);
          AddUnknownIsOk(d, m, u);
        case Malformed =>
      } else {
        AddUnknownIsOk(d, m, t);
      }
    }
  }

  lemma {:induction false} ApplyAllKeepsOk(d: Descriptor, m: Message, ts: seq<Token>)
    requires WellFormed(d) && MessageOk(d, m) && TokensOk(ts) && ApplyAll(d, m, ts).Some?
    ensures MessageOk(d, ApplyAll(d, m, ts).value)
    decreases d, 1, |ts|
  {
    assert |m.slots| == |d.fields|;
    hide WellFormed, MessageOk, Apply, TokenOk;
    if ts == [] {
    } else {
      ApplyKeepsOk(d, m, ts[0]);
      ApplyAllKeepsOk(d, Apply(d, m, ts[0]).value, ts[1..]);
    }
  }

  lemma {:induction false} ParsedIsOk(d: Descriptor, b: seq<byte>)
    requires WellFormed(d) && Parse(d, b).Some?
    ensures MessageOk(d, Parse(d, b).value)
    decreases d, 2
  {
    hide WellFormed, ReadTokens, ApplyAll;
    ReadTokensAreOk(b);
    EmptyIsOk(d);
    ApplyAllKeepsOk(d, Empty(d), ReadTokens(b).value);
  }

  lemma EmptyIsOk(d: Descriptor)
    ensures MessageOk(d, Empty(d))
  {
  }

  /** Main result for arbitrary bytes, unknown fields and non-canonical encodings included: whatever parses
      is written in a form that parses to the same message. */
  lemma ReparseIsStable(d: Descriptor, b: seq<byte>)
    requires WellFormed(d) && Parse(d, b).Some?
    ensures var m := Parse(d, b).value;
      MessageOk(d, m) && (Fits(d, m) ==> Parse(d, Encode(d, m)) == Some(m))
  {
    ParsedIsOk(d, b);
    var m := Parse(d, b).value;
    hide Parse, WellFormed, MessageOk;
    if Fits(d, m) { RoundTrip(d, m); }
  }
}
