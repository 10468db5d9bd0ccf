/** What a parsed message holds, field by field, told from the tokens alone. */
module FieldLaws {
  import opened Bytes
  import opened Wire
  import opened WireLaws
  import opened Codec
  import opened CodecLaws

  /** The values a token has for a field. */
  function ValuesIn(f: Field, t: Token): seq<Val> {
    if t.number != f.number then []
    else if f.mode.Packed? && IsNumeric(f.kind) && t.payload.DelimitedP? then
      var r := ReadPacked(f.kind, t.payload.bytes);
      if r.Some? then r.value else []
    else if TypeOf(t.payload) == WireTypeOf(f.kind) && Decode(f, t.payload).Good? then [Decode(f, t.payload).v]
    else []
  }

  /** All values for a field, in the order in which they come. */
  function AllValues(f: Field, ts: seq<Token>): seq<Val> {
    if ts == [] then [] else ValuesIn(f, ts[0]) + AllValues(f, ts[1..])
  }

  /** What becomes unknown of a token: all of it if no field has its number, or the field has another wire type. */
  function LeftOver(d: Descriptor, t: Token): seq<Token> {
    var i := Find(d.fields, t.number);
    if i == |d.fields| then [t]
    else if d.fields[i].mode.Packed? && IsNumeric(d.fields[i].kind) && t.payload.DelimitedP? then []
    else if TypeOf(t.payload) != WireTypeOf(d.fields[i].kind) then [t]
    else if Decode(d.fields[i], t.payload).Foreign? then [Decode(d.fields[i], t.payload).t]
    else []
  }

  function AllLeftOver(d: Descriptor, ts: seq<Token>): seq<Token> {
    if ts == [] then [] else LeftOver(d, ts[0]) + AllLeftOver(d, ts[1..])
  }

  /** A singular field keeps the last value, or what it had if there is none; any other field takes all of them. */
  predicate Receives(mode: Mode, was: seq<Val>, vs: seq<Val>, now: seq<Val>) {
    if !mode.Singular? then now == was + vs
    else if vs == [] then now == was
    else now == [vs[|vs| - 1]]
  }

  lemma ReceivesTwice(mode: Mode, was: seq<Val>, vs: seq<Val>, mid: seq<Val>, ws: seq<Val>, now: seq<Val>)
    requires Receives(mode, was, vs, mid) && Receives(mode, mid, ws, now)
    ensures Receives(mode, was, vs + ws, now)
  {
    Associate(was, vs, ws);
  }

  ghost predicate Collected(d: Descriptor, m: Message, ts: seq<Token>, r: Message)
    requires |m.slots| == |r.slots| == |d.fields|
  {
    r.unknown == m.unknown + AllLeftOver(d, ts) &&
    forall i :: 0 <= i < |d.fields| ==> Receives(d.fields[i].mode, m.slots[i], AllValues(d.fields[i], ts), r.slots[i])
  }

  lemma ApplyOthers(d: Descriptor, m: Message, t: Token, i: nat)
    requires WellFormed(d) && |m.slots| == |d.fields| && Apply(d, m, t).Some? && i < |d.fields|
    requires i != Find(d.fields, t.number)
    ensures Apply(d, m, t).value.slots[i] == m.slots[i] && ValuesIn(d.fields[i], t) == []
  {
    KindOk(d, i);
    hide WellFormed, Find, Decode, ReadPacked;
  }

  lemma ApplyOwn(d: Descriptor, m: Message, t: Token)
    requires WellFormed(d) && |m.slots| == |d.fields| && Apply(d, m, t).Some?
    ensures var (i, r) := (Find(d.fields, t.number), Apply(d, m, t).value);
      i < |d.fields| ==> Receives(d.fields[i].mode, m.slots[i], ValuesIn(d.fields[i], t), r.slots[i])
    ensures Apply(d, m, t).value.unknown == m.unknown + LeftOver(d, t)
  {
    var i := Find(d.fields, t.number);
    if i < |d.fields| { KindOk(d, i); }
    hide WellFormed, Find, Decode, ReadPacked;
    assert m.unknown + [] == m.unknown;
    if i < |d.fields| { assert m.slots[i] + [] == m.slots[i]; }
  }

  lemma ApplyCollects(d: Descriptor, m: Message, t: Token, i: nat)
    requires WellFormed(d) && |m.slots| == |d.fields| && Apply(d, m, t).Some? && i < |d.fields|
    ensures Receives(d.fields[i].mode, m.slots[i], ValuesIn(d.fields[i], t), Apply(d, m, t).value.slots[i])
  {
    ApplyOwn(d, m, t);
    if i != Find(d.fields, t.number) { ApplyOthers(d, m, t, i); }
    hide WellFormed, Find, Apply, ValuesIn;
    assert m.slots[i] + [] == m.slots[i];
  }

  lemma {:induction false} ApplyAllCollects(d: Descriptor, m: Message, ts: seq<Token>)
    requires WellFormed(d) && |m.slots| == |d.fields| && ApplyAll(d, m, ts).Some?
    ensures Collected(d, m, ts, ApplyAll(d, m, ts).value)
    decreases |ts|
  {
    hide WellFormed, Apply, ValuesIn, LeftOver, Receives;
    if ts == [] {
      forall i | 0 <= i < |d.fields| ensures Receives(d.fields[i].mode, m.slots[i], [], m.slots[i]) {
        ReceivesNothing(d.fields[i].mode, m.slots[i]);
      }
      assert m.unknown + [] == m.unknown;
    } else {
      var next := Apply(d, m, ts[0]).value;
      ApplyOwn(d, m, ts[0]);
      ApplyAllCollects(d, next, ts[1..]);
      var r := ApplyAll(d, next, ts[1..]).value;
      forall i | 0 <= i < |d.fields|
        ensures Receives(d.fields[i].mode, m.slots[i], AllValues(d.fields[i], ts), r.slots[i])
      {
        ApplyCollects(d, m, ts[0], i);
        ReceivesTwice(d.fields[i].mode, m.slots[i], ValuesIn(d.fields[i], ts[0]), next.slots[i],
          AllValues(d.fields[i], ts[1..]), r.slots[i]);
      }
      Associate(m.unknown, LeftOver(d, ts[0]), AllLeftOver(d, ts[1..]));
    }
  }

  lemma ReceivesNothing(mode: Mode, was: seq<Val>)
    ensures Receives(mode, was, [], was)
  {
    assert was + [] == was;
  }

  /** What a message holds once bytes have been parsed into it: in a singular field the last value the bytes have for
      it, in any other all of them behind those it had, and as unknown fields all that no field takes. */
  lemma ParseCollects(d: Descriptor, m: Message, b: seq<byte>)
    requires WellFormed(d) && |m.slots| == |d.fields| && ParseInto(d, m, b).Some?
    ensures ReadTokens(b).Some? && Collected(d, m, ReadTokens(b).value, ParseInto(d, m, b).value)
  {
    hide WellFormed, ReadTokens, ApplyAll, Collected;
    ApplyAllCollects(d, m, ReadTokens(b).value);
  }

  /** Of two encodings one behind the other: in a singular field the second one's value counts, if it has one; in any
      other the values of both, in order; and the unknown fields of both. */
  lemma LastScalarWins(d: Descriptor, a: seq<byte>, b: seq<byte>, i: nat)
    requires Parse(d, a).Some? && Parse(d, b).Some? && i < |d.fields|
    ensures Parse(d, a + b).Some?
    ensures var (x, y, both) := (Parse(d, a).value, Parse(d, b).value, Parse(d, a + b).value);
      && both.slots[i] == (if !d.fields[i].mode.Singular? then x.slots[i] + y.slots[i]
                           else if y.slots[i] != [] then y.slots[i] else x.slots[i])
      && both.unknown == x.unknown + y.unknown
  {
    ConcatIsMerge(d, a, b);
    hide Parse;
  }

  // ---- the order of writing ----

  predicate Ascending(ts: seq<Token>) {
    forall i, j :: 0 <= i < j < |ts| ==> ts[i].number <= ts[j].number
  }

  lemma {:induction false} ValTokensNumber(f: Field, vs: seq<Val>)
    requires forall j :: 0 <= j < |vs| ==> ValOk(f.kind, vs[j])
    ensures forall j :: 0 <= j < |vs| ==> ValTokens(f, vs)[j].number == f.number
  {
    hide ValOk, PayloadOf;
    if vs == [] {
    } else {
      ValTokensNumber(f, vs[1..]);
    }
  }

  lemma SlotTokensNumber(f: Field, vs: seq<Val>)
    requires SlotOk(f, vs)
    ensures forall j :: 0 <= j < |SlotTokens(f, vs)| ==> SlotTokens(f, vs)[j].number == f.number
  {
    ValTokensNumber(f, vs);
    hide ValTokens, PackedBytes, ValOk;
  }

  /** Known fields are written by ascending number, unknown ones behind them. */
  lemma {:induction false} WrittenInOrder(d: Descriptor, m: Message, i: nat) returns (known: seq<Token>)
    requires WellFormed(d) && MessageOk(d, m) && i <= |d.fields|
    ensures TokensFrom(d, m, i) == known + m.unknown && Ascending(known)
    ensures forall j :: 0 <= j < |known| && i < |d.fields| ==> d.fields[i].number <= known[j].number
    ensures i == |d.fields| ==> known == []
    decreases |d.fields| - i
  {
    hide WellFormed, SlotTokens, MessageOk;
    if i == |d.fields| {
      known := [];
      assert [] + m.unknown == m.unknown;
    } else {
      SlotIsOk(d, m, i);
      SlotTokensNumber(d.fields[i], m.slots[i]);
      var later := WrittenInOrder(d, m, i + 1);
      if i + 1 < |d.fields| { NumbersAscend(d, i); }
      known := SlotTokens(d.fields[i], m.slots[i]) + later;
      Associate(SlotTokens(d.fields[i], m.slots[i]), later, m.unknown);
    }
  }

  lemma SlotIsOk(d: Descriptor, m: Message, i: nat)
    requires MessageOk(d, m) && i < |d.fields|
    ensures |m.slots| == |d.fields| && SlotOk(d.fields[i], m.slots[i])
  {
  }

  lemma NumbersAscend(d: Descriptor, i: nat)
    requires WellFormed(d) && i + 1 < |d.fields|
    ensures d.fields[i].number < d.fields[i + 1].number
  {
    FieldsOkAt(d, 0, i + 1);
  }
}
