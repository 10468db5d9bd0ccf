/** The generated parsers: one loop over tags with direct jumps to the field expected next. */
module MessageParser {
  import opened Bytes
  import opened Wire
  import opened Codec
  import opened CodecLaws

  /** The bytes up to the current limit. */
  class CodedInput {
    var rest: seq<byte>
    var legit: bool  // the last tag was not there because the message had ended

    constructor (data: seq<byte>)
      ensures rest == data && !legit
    {
      rest, legit := data, false;
    }

    /** 0 at the end of the message, and for a malformed tag. */
    method ReadTag() returns (tag: nat)
      modifies this
      ensures tag < TWO32 && legit == (old(rest) == [])
      ensures old(rest) == [] ==> tag == 0 && rest == []
      ensures old(rest) != [] ==>
        match Wire.ReadTag(old(rest))
        case None => tag == 0 && rest == old(rest)
        case Some((t, after)) => tag == t && rest == after
    {
      legit := rest == [];
      if legit { return 0; }
      match Wire.ReadTag(rest)
      case None => tag := 0;
      case Some((t, after)) => tag, rest := t, after;
    }

    /** Takes the tag if it comes next; may decline, as where a buffer ends. */
    method ExpectTag(tag: nat) returns (taken: bool)
      requires tag < 128
      modifies this
      ensures legit == old(legit)
      ensures taken ==> old(rest) == [tag as byte] + rest
      ensures !taken ==> rest == old(rest)
    {
      var buffered: bool := *;
      taken := buffered && rest != [] && rest[0] == tag as byte;
      if taken { rest := rest[1..]; }
    }

    /** Whether the message ends here; may decline. */
    method ExpectAtEnd() returns (end: bool)
      modifies this
      ensures rest == old(rest)
      ensures if end then rest == [] && legit else legit == old(legit)
    {
      var buffered: bool := *;
      end := buffered && rest == [];
      if end { legit := true; }
    }

    method ReadVarint() returns (v: Option<nat>)
      modifies this`rest
      ensures match Wire.ReadVarint(old(rest))
        case None => v == None
        case Some((w, after)) => v == Some(w) && rest == after
    {
      match Wire.ReadVarint(rest)
      case None => v := None;
      case Some((w, after)) => v, rest := Some(w), after;
    }

    method ReadFixed64() returns (v: Option<nat>)
      modifies this`rest
      ensures match Wire.ReadFixed(old(rest), 8)
        case None => v == None
        case Some((w, after)) => v == Some(w) && rest == after
    {
      match Wire.ReadFixed(rest, 8)
      case None => v := None;
      case Some((w, after)) => v, rest := Some(w), after;
    }

    method ReadBytes() returns (v: Option<seq<byte>>)
      modifies this`rest
      ensures match ReadDelimited(old(rest))
        case None => v == None
        case Some((bytes, after)) => v == Some(bytes) && rest == after
    {
      match ReadDelimited(rest)
      case None => v := None;
      case Some((bytes, after)) => v, rest := Some(bytes), after;
    }

    method SkipField(tag: nat) returns (t: Option<Token>)
      modifies this`rest
      ensures match ReadPayload(tag, old(rest))
        case None => t == None
        case Some((p, after)) => t == Some(Token(tag / 8, p)) && rest == after
    {
      match ReadPayload(tag, rest)
      case None => t := None;
      case Some((p, after)) => t, rest := Some(Token(tag / 8, p)), after;
    }

    /** Reads a length and makes it the limit; what lies beyond is handed to PopLimit. */
    method PushLimit() returns (outer: Option<seq<byte>>)
      modifies this`rest
      ensures match ReadDelimited(old(rest))
        case None => outer == None
        case Some((bytes, after)) => outer == Some(after) && rest == bytes
    {
      match ReadDelimited(rest)
      case None => outer := None;
      case Some((bytes, after)) => outer, rest := Some(after), bytes;
    }

    method PopLimit(outer: seq<byte>)
      modifies this
      ensures rest == old(rest) + outer && !legit
    {
      rest, legit := rest + outer, false;
    }
  }

  /** One field, its tag already read: the message after it and the bytes left. */
  function Outcome(d: Descriptor, m: Message, tag: nat, b: seq<byte>): (r: Option<(Message, seq<byte>)>)
    requires |m.slots| == |d.fields|
    ensures r.Some? ==> |r.value.0.slots| == |d.fields| && |r.value.1| <= |b|
  {
    match ReadPayload(tag, b)
    case None => None
    case Some((p, rest)) =>
      match Apply(d, m, Token(tag / 8, p))
      case None => None
      case Some(next) => Some((next, rest))
  }

  /** The plain loop, entered with a tag already read: dispatch on the tag, then go on with the rest. */
  function Resume(d: Descriptor, m: Message, tag: nat, b: seq<byte>): Option<Message>
    requires |m.slots| == |d.fields|
  {
    match Outcome(d, m, tag, b)
    case None => None
    case Some((next, rest)) => ParseInto(d, next, rest)
  }

  lemma PlainLoop(d: Descriptor, m: Message, b: seq<byte>)
    requires |m.slots| == |d.fields|
    ensures ParseInto(d, m, b) ==
      if b == [] then Some(m)
      else match Wire.ReadTag(b)
        case None => None
        case Some((tag, rest)) => Resume(d, m, tag, rest)
  {
    hide ReadPayload, Wire.ReadTag, Apply;
    if b != [] && ReadToken(b).Some? {
      var (t, rest) := ReadToken(b).value;
      if ReadTokens(rest).Some? {
        assert ReadTokens(b).value[1..] == ReadTokens(rest).value;
      }
    }
  }

  // ---- reading ahead ----

  /** The tag of a packed block of the field comes next. */
  predicate BlockNext(f: Field, b: seq<byte>) { b != [] && b[0] as nat == MakeTag(f.number, DELIMITED) }

  /** A number of a packed field that is not packed. */
  predicate IsLoose(f: Field, tag: nat) { f.mode.Packed? && tag % 8 == WireTypeOf(f.kind) }

  /** After such a number the reader takes up to k more, each behind a tag it takes for granted: that of a
      packed block, although what it reads is then a number that is not packed. */
  function MoreNumbers(d: Descriptor, m: Message, i: nat, b: seq<byte>, k: nat): (r: Option<(Message, seq<byte>)>)
    requires i < |d.fields| == |m.slots|
    ensures r.Some? ==> |r.value.0.slots| == |d.fields| && |r.value.1| <= |b|
  {
    if k == 0 then Some((m, b))
    else
      match MoreNumbers(d, m, i, b, k - 1)
      case None => None
      case Some((next, rest)) =>
        if !BlockNext(d.fields[i], rest) then Some((next, rest))
        else Outcome(d, next, MakeTag(d.fields[i].number, WireTypeOf(d.fields[i].kind)), rest[1..])
  }

  /** One field as the parser reads it. */
  function OutcomeAhead(d: Descriptor, m: Message, tag: nat, b: seq<byte>, k: nat): Option<(Message, seq<byte>)>
    requires |m.slots| == |d.fields|
  {
    match Outcome(d, m, tag, b)
    case None => None
    case Some((next, rest)) =>
      var i := Find(d.fields, tag / 8);
      if i < |d.fields| && IsLoose(d.fields[i], tag) then MoreNumbers(d, next, i, rest, k) else Some((next, rest))
  }

  /** A nested message without loose numbers in front of blocks. */
  predicate PartUnmixed(f: Field, p: Payload)
    decreases f, 0, 0
  {
    f.kind.Sub? && p.DelimitedP? ==> Unmixed(f.kind.desc, p.bytes)
  }

  predicate UnmixedAfter(d: Descriptor, tag: nat, b: seq<byte>)
    decreases d, |b|, 1
  {
    match ReadPayload(tag, b)
    case None => true
    case Some((p, rest)) =>
      var i := Find(d.fields, tag / 8);
      (i < |d.fields| ==>
        PartUnmixed(d.fields[i], p) && !(IsLoose(d.fields[i], tag) && BlockNext(d.fields[i], rest))) &&
      Unmixed(d, rest)
  }

  /** Nowhere, nested messages included, is a loose number directly followed by a block of the same field. */
  predicate Unmixed(d: Descriptor, b: seq<byte>)
    decreases d, |b|, 0
  {
    b == [] ||
    match Wire.ReadTag(b)
    case None => true
    case Some((tag, rest)) => UnmixedAfter(d, tag, rest)
  }

  lemma {:induction false} NothingMore(d: Descriptor, m: Message, i: nat, b: seq<byte>, k: nat)
    requires i < |d.fields| == |m.slots| && !BlockNext(d.fields[i], b)
    ensures MoreNumbers(d, m, i, b, k) == Some((m, b))
  {
    if k == 0 {
    } else {
      NothingMore(d, m, i, b, k - 1);
    }
  }

  /** Where nothing is mixed, reading ahead makes no difference. */
  lemma UnmixedOutcome(d: Descriptor, m: Message, tag: nat, b: seq<byte>, k: nat)
    requires |m.slots| == |d.fields| && UnmixedAfter(d, tag, b)
    ensures OutcomeAhead(d, m, tag, b, k) == Outcome(d, m, tag, b)
    ensures Outcome(d, m, tag, b).Some? ==> Unmixed(d, Outcome(d, m, tag, b).value.1)
    ensures PartOf(d, tag, b)
  {
    hide ReadPayload, Apply, Unmixed, PartUnmixed, Find;
    var i := Find(d.fields, tag / 8);
    var r := Outcome(d, m, tag, b);
    if r.Some? && i < |d.fields| && IsLoose(d.fields[i], tag) {
      NothingMore(d, r.value.0, i, r.value.1, k);
    }
  }

  /** However far the reader goes ahead at this field, whatever the message holds so far, it makes no difference. */
  ghost predicate ReadsAlike(d: Descriptor, tag: nat, b: seq<byte>) {
    forall m: Message, k: nat :: |m.slots| == |d.fields| ==> OutcomeAhead(d, m, tag, b, k) == Outcome(d, m, tag, b)
  }

  /** At a field that can be read, reading ahead makes a difference exactly if it is a loose number with a block of
      its field directly behind. */
  lemma DiffersExactly(d: Descriptor, m: Message, tag: nat, b: seq<byte>)
    requires |m.slots| == |d.fields| && Outcome(d, m, tag, b).Some?
    ensures var i, rest := Find(d.fields, tag / 8), Outcome(d, m, tag, b).value.1;
      (forall k: nat :: OutcomeAhead(d, m, tag, b, k) == Outcome(d, m, tag, b)) <==>
      !(i < |d.fields| && IsLoose(d.fields[i], tag) && BlockNext(d.fields[i], rest))
  {
    hide Outcome, Find;
    var i := Find(d.fields, tag / 8);
    var (next, rest) := Outcome(d, m, tag, b).value;
    if i < |d.fields| && IsLoose(d.fields[i], tag) {
      if BlockNext(d.fields[i], rest) {
        NoneYet(d, next, i, rest);
        OneMoreNumber(d, next, i, rest, 0);
        assert OutcomeAhead(d, m, tag, b, 1) != Outcome(d, m, tag, b);
      } else {
        forall k: nat ensures OutcomeAhead(d, m, tag, b, k) == Outcome(d, m, tag, b) {
          NothingMore(d, next, i, rest, k);
        }
      }
    }
  }

  /** The parser reads alike at this field, in the message nested in it, and at all that follow. */
  ghost predicate AlikeAfter(d: Descriptor, tag: nat, b: seq<byte>)
    decreases d, |b|, 1
  {
    ReadsAlike(d, tag, b) &&
    match ReadPayload(tag, b)
    case None => true
    case Some((p, rest)) =>
      var i := Find(d.fields, tag / 8);
      (i < |d.fields| && d.fields[i].kind.Sub? && p.DelimitedP? ==> Alike(d.fields[i].kind.desc, p.bytes)) &&
      Alike(d, rest)
  }

  /** The parser reads alike at every field, nested messages included, however far it goes ahead at any of them. */
  ghost predicate Alike(d: Descriptor, b: seq<byte>)
    decreases d, |b|, 0
  {
    b == [] ||
    match Wire.ReadTag(b)
    case None => true
    case Some((tag, rest)) => AlikeAfter(d, tag, rest)
  }

  lemma LooseIsRead(d: Descriptor, m: Message, tag: nat, b: seq<byte>)
    requires WellFormed(d) && |m.slots| == |d.fields| && ReadPayload(tag, b).Some?
    requires var i := Find(d.fields, tag / 8); i < |d.fields| && IsLoose(d.fields[i], tag)
    ensures Outcome(d, m, tag, b).Some? && Outcome(d, m, tag, b).value.1 == ReadPayload(tag, b).value.1
  {
    var i := Find(d.fields, tag / 8);
    KindOk(d, i);
    hide WellFormed, Find, ReadPayload, FromWire, ReadPacked, Store;
    var p := ReadPayload(tag, b).value.0;
    assert Decode(d.fields[i], p).Good?;
  }

  lemma ReadsAlikeExactly(d: Descriptor, tag: nat, b: seq<byte>)
    requires WellFormed(d)
    ensures ReadsAlike(d, tag, b) <==>
      (ReadPayload(tag, b).Some? ==>
        var i := Find(d.fields, tag / 8);
        !(i < |d.fields| && IsLoose(d.fields[i], tag) && BlockNext(d.fields[i], ReadPayload(tag, b).value.1)))
  {
    var i := Find(d.fields, tag / 8);
    if ReadPayload(tag, b).Some? && i < |d.fields| && IsLoose(d.fields[i], tag) {
      forall m: Message | |m.slots| == |d.fields|
        ensures (forall k: nat :: OutcomeAhead(d, m, tag, b, k) == Outcome(d, m, tag, b)) <==>
                !BlockNext(d.fields[i], ReadPayload(tag, b).value.1)
      {
        LooseIsRead(d, m, tag, b);
        DiffersExactly(d, m, tag, b);
      }
      assert |Empty(d).slots| == |d.fields|;
      hide WellFormed, Find, ReadPayload, Outcome, OutcomeAhead, BlockNext, IsLoose;
    } else {
      hide WellFormed, Find, ReadPayload, Apply, IsLoose;
    }
  }

  /** The parser reads alike everywhere exactly if no loose number stands in front of a block. (Final messages may
      still coincide where it does not, as later values replace earlier ones.) */
  lemma {:induction false} AlikeExactly(d: Descriptor, b: seq<byte>)
    requires WellFormed(d)
    ensures Alike(d, b) <==> Unmixed(d, b)
    decreases d, |b|, 0
  {
    hide Wire.ReadTag, AlikeAfter, UnmixedAfter, WellFormed;
    if b != [] && Wire.ReadTag(b).Some? {
      var (tag, rest) := Wire.ReadTag(b).value;
      AlikeAfterExactly(d, tag, rest);
    }
  }

  lemma {:induction false} AlikeAfterExactly(d: Descriptor, tag: nat, b: seq<byte>)
    requires WellFormed(d)
    ensures AlikeAfter(d, tag, b) <==> UnmixedAfter(d, tag, b)
    decreases d, |b|, 1
  {
    ReadsAlikeExactly(d, tag, b);
    hide ReadsAlike, ReadPayload, Find, Alike, Unmixed, IsLoose, BlockNext, WellFormed;
    if ReadPayload(tag, b).Some? {
      var (p, rest) := ReadPayload(tag, b).value;
      var i := Find(d.fields, tag / 8);
      AlikeExactly(d, rest);
      if i < |d.fields| && d.fields[i].kind.Sub? && p.DelimitedP? {
        KindOk(d, i);
        AlikeExactly(d.fields[i].kind.desc, p.bytes);
      }
    }
  }

  /** The nested message of a field, if it has one, is unmixed. */
  predicate PartOf(d: Descriptor, tag: nat, b: seq<byte>) {
    match ReadPayload(tag, b)
    case None => true
    case Some((p, _)) => var i := Find(d.fields, tag / 8); i < |d.fields| ==> PartUnmixed(d.fields[i], p)
  }

  class MessageObject {
    const desc: Descriptor
    var slots: seq<seq<Val>>
    var unknown: seq<Token>

    constructor (desc: Descriptor)
      requires WellFormed(desc)
      ensures this.desc == desc && Valid() && Value() == Empty(desc)
    {
      this.desc := desc;
      slots, unknown := Empty(desc).slots, [];
    }

    ghost predicate Valid()
      reads this
    {
      |slots| == |desc.fields| && WellFormed(desc)
    }

    ghost function Value(): Message
      reads this
    {
      Message(slots, unknown)
    }

    /** set_x for a singular field, add_x for a repeated one. */
    method Put(i: nat, v: Val)
      requires i < |slots| == |desc.fields|
      modifies this`slots
      ensures |slots| == |desc.fields| && Value() == Store(desc, old(Value()), i, [v])
      ensures slots[i] == (if desc.fields[i].mode.Singular? then [v] else old(slots[i]) + [v])
      ensures forall k :: 0 <= k < |slots| && k != i ==> slots[k] == old(slots[k])
    {
      slots := slots[i := if desc.fields[i].mode.Singular? then [v] else slots[i] + [v]];
    }

    method Clear()
      requires Valid()
      modifies this
      ensures Valid() && Value() == Empty(desc)
    {
      slots, unknown := Empty(desc).slots, [];
    }

    /** Field by field: what the other message has is set or appended here. */
    method MergeFrom(from: MessageObject)
      requires Valid() && from != this && from.desc == desc && |from.slots| == |slots|
      modifies this
      ensures Valid() && Value() == Merge(desc, old(Value()), from.Value())
      ensures forall k :: 0 <= k < |slots| ==>
        slots[k] == if !desc.fields[k].mode.Singular? then old(slots[k]) + from.slots[k]
                    else if from.slots[k] != [] then from.slots[k] else old(slots[k])
      ensures unknown == old(unknown) + from.unknown
    {
      ghost var old_slots := slots;
      for i := 0 to |slots|
        invariant |slots| == |desc.fields|
        invariant forall k :: 0 <= k < i ==> slots[k] == Combine(desc.fields[k].mode, old_slots[k], from.slots[k])
        invariant forall k :: i <= k < |slots| ==> slots[k] == old_slots[k]
        invariant unknown == old(unknown)
      {
        if !desc.fields[i].mode.Singular? {
          slots := slots[i := slots[i] + from.slots[i]];
        } else if from.slots[i] != [] {
          slots := slots[i := from.slots[i]];
        }
      }
      unknown := unknown + from.unknown;
      assert slots == Merge(desc, old(Value()), from.Value()).slots;
    }

    /** One value in the field's own wire type. */
    method ReadValue(i: nat, input: CodedInput) returns (ok: bool)
      requires Valid() && i < |slots| && !input.legit
      modifies this, input
      ensures Valid() && (ok ==> !input.legit)
      ensures match ReadPayload(MakeTag(desc.fields[i].number, WireTypeOf(desc.fields[i].kind)), old(input.rest))
        case None => !ok
        case Some((p, after)) =>
          (ok ==> input.rest == after) &&
          (PartUnmixed(desc.fields[i], p) ==>
            match Decode(desc.fields[i], p)
            case Good(v) => ok && Value() == Store(desc, old(Value()), i, [v])
            case Foreign(u) => ok && Value() == AddUnknown(old(Value()), u)
            case Malformed => !ok)
      decreases desc, 0
    {
      var f := desc.fields[i];
      TagType(f.number, WireTypeOf(f.kind));
      KindOk(desc, i);
      hide Wire.ReadVarint, Wire.ReadFixed, ReadDelimited, ReadGroup, FromWire, Store, WellFormed, Unmixed;
      if f.kind.Double? {
        var bits := input.ReadFixed64();
        if bits == None { return false; }
        Put(i, Num(bits.value));
      } else if f.kind.Text? {
        var bytes := input.ReadBytes();
        if bytes == None { return false; }
        Put(i, Str(bytes.value));
      } else if f.kind.Sub? {
        var child := ReadMessage(f.kind.desc, input);
        if child == None { return false; }
        Put(i, Msg(child.value));
      } else {
        var w := input.ReadVarint();
        if w == None { return false; }
        var n := FromWire(f.kind, w.value);
        if f.kind.Enum? && !(0 <= n <= f.kind.last) {
          unknown := unknown + [Token(f.number, VarintP(ToWire(n)))];
        } else {
          Put(i, Num(n));
        }
      }
      ok := true;
    }

    /** A nested message: a length, and a parser of its own that must use up exactly that many bytes. */
    method ReadMessage(part: Descriptor, input: CodedInput) returns (m: Option<Message>)
      requires WellFormed(part) && part < desc
      modifies input
      ensures m.Some? ==> !input.legit
      ensures match ReadDelimited(old(input.rest))
        case None => m == None
        case Some((bytes, after)) =>
          (Unmixed(part, bytes) ==> m == Parse(part, bytes)) && (m.Some? ==> input.rest == after)
      decreases part, 5
    {
      hide ReadDelimited, ParseInto, WellFormed, Unmixed;
      var outer := input.PushLimit();
      if outer == None { return None; }
      var child := new MessageObject(part);
      var parsed := child.MergePartialFromCodedStream(input);
      if !parsed || !input.legit { return None; }
      input.PopLimit(outer.value);
      m := Some(Message(child.slots, child.unknown));
    }

    /** All values of a packed field. */
    method ReadPackedValues(i: nat, input: CodedInput) returns (ok: bool)
      requires Valid() && i < |slots| && desc.fields[i].mode.Packed? && !input.legit
      modifies this`slots, input
      ensures Valid() && !input.legit && IsNumeric(desc.fields[i].kind)
      ensures match ReadDelimited(old(input.rest))
        case None => !ok
        case Some((bytes, after)) =>
          match ReadPacked(desc.fields[i].kind, bytes)
          case None => !ok
          case Some(vs) => ok && input.rest == after && Value() == Store(desc, old(Value()), i, vs)
    {
      var f := desc.fields[i];
      KindOk(desc, i);
      hide Wire.ReadVarint, Wire.ReadFixed, ReadDelimited, FromWire, WellFormed;
      var outer := input.PushLimit();
      if outer == None { return false; }
      ghost var goal := ReadPacked(f.kind, input.rest);
      ghost var done: seq<Val> := [];
      ghost var others := slots;
      assert others[i] + done == others[i];
      AheadNone(goal);
      while input.rest != []
        invariant Valid() && slots == others[i := others[i] + done]
        invariant goal == Ahead(done, ReadPacked(f.kind, input.rest)) && !input.legit
        decreases |input.rest|
      {
        ghost var before := ReadPacked(f.kind, input.rest);
        var w: Option<nat>;
        if f.kind.Double? { w := input.ReadFixed64(); } else { w := input.ReadVarint(); }
        if w == None { return false; }
        var v := Num(FromWire(f.kind, w.value));
        AheadOne(done, v, ReadPacked(f.kind, input.rest));
        slots := slots[i := slots[i] + [v]];
        done := done + [v];
        assert others[i] + done == others[i] + done[..|done| - 1] + [v];
      }
      input.PopLimit(outer.value);
      assert done + [] == done;
      ok := true;
    }

    /** One value, or one packed block. */
    method ReadOnce(i: nat, tag: nat, input: CodedInput) returns (ok: bool)
      requires Valid() && i < |slots| && !input.legit && tag / 8 == desc.fields[i].number
      requires tag % 8 == PrimaryType(desc.fields[i]) || tag % 8 == WireTypeOf(desc.fields[i].kind)
      modifies this, input
      ensures Valid() && (ok ==> !input.legit && |input.rest| <= |old(input.rest)|)
      ensures PartOf(desc, tag, old(input.rest)) ==>
        match Outcome(desc, old(Value()), tag, old(input.rest))
        case None => !ok
        case Some((next, after)) => ok && Value() == next && input.rest == after
      decreases desc, 1
    {
      var f := desc.fields[i];
      KindOk(desc, i);
      TagParts(tag);
      hide Wire.ReadVarint, Wire.ReadFixed, ReadDelimited, ReadGroup, Decode, ReadPacked, Store, WellFormed, Find;
      hide PartUnmixed;
      if f.mode.Packed? && tag % 8 == DELIMITED {
        ok := ReadPackedValues(i, input);
      } else {
        ok := ReadValue(i, input);
      }
    }

    /** The case of one field: the goto label with the field's own wire type, or the other one a packed field
        may come in. Behind a loose number more may be taken, as many as the list has space for. */
    method ReadField(i: nat, tag: nat, input: CodedInput) returns (ok: bool, ghost ahead: nat)
      requires Valid() && i < |slots| && !input.legit && tag / 8 == desc.fields[i].number
      requires tag % 8 == PrimaryType(desc.fields[i]) || tag % 8 == WireTypeOf(desc.fields[i].kind)
      modifies this, input
      ensures Valid() && (ok ==> !input.legit && |input.rest| <= |old(input.rest)|)
      ensures PartOf(desc, tag, old(input.rest)) ==>
        match OutcomeAhead(desc, old(Value()), tag, old(input.rest), ahead)
        case None => !ok
        case Some((next, after)) => ok && Value() == next && input.rest == after
      decreases desc, 3
    {
      var f := desc.fields[i];
      KindOk(desc, i);
      hide WellFormed, Outcome, Find, MoreNumbers;
      ahead := 0;
      ok := ReadOnce(i, tag, input);
      if ok && f.mode.Packed? && tag % 8 == WireTypeOf(f.kind) {
        ok, ahead := ReadMore(i, input);
      }
    }

    /** The runtime's loop for loose numbers, with the tag it is given. */
    method ReadMore(i: nat, input: CodedInput) returns (ok: bool, ghost ahead: nat)
      requires Valid() && i < |slots| && !input.legit && desc.fields[i].mode.Packed?
      modifies this, input
      ensures Valid() && (ok ==> !input.legit && |input.rest| <= |old(input.rest)|)
      ensures match MoreNumbers(desc, old(Value()), i, old(input.rest), ahead)
        case None => !ok
        case Some((next, after)) => ok && Value() == next && input.rest == after
      decreases desc, 2
    {
      var f := desc.fields[i];
      KindOk(desc, i);
      TagType(f.number, WireTypeOf(f.kind));
      hide WellFormed, Outcome, MoreNumbers;
      ghost var m, b := Value(), input.rest;
      ok, ahead := true, 0;
      NoneYet(desc, m, i, b);
      var space: nat := *;
      while space > 0
        invariant Valid() && !input.legit && |input.rest| <= |b| && ok
        invariant MoreNumbers(desc, m, i, b, ahead) == Some((Value(), input.rest))
      {
        var taken := input.ExpectTag(MakeTag(f.number, DELIMITED));
        if !taken { return; }
        OneMoreNumber(desc, m, i, b, ahead);
        NoPart(desc, i, input.rest);
        ahead := ahead + 1;
        ok := ReadOnce(i, MakeTag(f.number, WireTypeOf(f.kind)), input);
        if !ok { return; }
        space := space - 1;
      }
    }

    /** After a field: the tags expected next, then the end, and else the next tag whatever it is. */
    method Follow(i: nat, input: CodedInput) returns (tag: nat, jump: int, end: bool)
      requires Valid() && i < |slots| && !input.legit
      modifies input
      ensures jump >= 0 ==>
        jump < |slots| && tag == MakeTag(desc.fields[jump].number, PrimaryType(desc.fields[jump]))
      ensures |input.rest| + (if tag != 0 then 1 else 0) <= |old(input.rest)|
      ensures AtTag(desc, Value(), ParseInto(desc, Value(), old(input.rest)), tag, input.rest, input.legit)
      ensures Unmixed(desc, old(input.rest)) && tag != 0 ==> UnmixedAfter(desc, tag, input.rest)
      ensures end ==> tag == 0 && input.legit
    {
      var gotos := desc.fields[i].gotos;
      KindOk(desc, i);
      PlainLoop(desc, Value(), input.rest);
      hide ParseInto, Resume, Wire.ReadTag, WellFormed, UnmixedAfter;
      ghost var before := input.rest;
      while gotos != []
        invariant GotosOk(desc, gotos) && input.rest == before && !input.legit
        decreases |gotos|
      {
        var (expected, target) := gotos[0];
        GotoTag(desc, gotos);
        var taken := input.ExpectTag(expected);
        if taken {
          ReadSmallTag(expected, input.rest);
          return expected, target, false;
        }
        gotos := gotos[1..];
      }
      jump := -1;
      if desc.fields[i].atEnd {
        end := input.ExpectAtEnd();
        if end { return 0, -1, true; }
      }
      end := false;
      tag := input.ReadTag();
    }

    /** Reading until the end of the message; successful if that is where it stopped. Where nothing is mixed the
        result is that of the plain loop, whatever expected tags are taken or declined. */
    method MergePartialFromCodedStream(input: CodedInput) returns (ok: bool)
      requires Valid()
      modifies this, input
      ensures Valid() && (ok && input.legit ==> input.rest == [])
      ensures Unmixed(desc, old(input.rest)) ==>
        match ParseInto(desc, old(Value()), old(input.rest))
        case None => !(ok && input.legit)
        case Some(m) => ok && input.legit && Value() == m && input.rest == []
      decreases desc, 4
    {
      ghost var goal, plain := ParseInto(desc, Value(), input.rest), Unmixed(desc, input.rest);
      PlainLoop(desc, Value(), input.rest);
      hide ParseInto, Wire.ReadTag, Outcome, WellFormed, Find, UnmixedAfter, OutcomeAhead;
      var tag := input.ReadTag();
      var jump := -1;
      while tag != 0
        invariant Valid() && (tag != 0 ==> !input.legit) && (input.legit ==> input.rest == [])
        invariant plain ==> AtTag(desc, Value(), goal, tag, input.rest, input.legit)
        invariant plain && tag != 0 ==> UnmixedAfter(desc, tag, input.rest)
        invariant jump >= 0 ==>
          jump < |slots| && tag == MakeTag(desc.fields[jump].number, PrimaryType(desc.fields[jump]))
        decreases |input.rest| + if tag != 0 then 1 else 0
      {
        var i := if jump >= 0 then jump else Find(desc.fields, tag / 8);
        if jump >= 0 { TagType(desc.fields[jump].number, PrimaryType(desc.fields[jump])); }
        if i < |desc.fields| && (tag % 8 == PrimaryType(desc.fields[i]) || tag % 8 == WireTypeOf(desc.fields[i].kind)) {
          ghost var m, b := Value(), input.rest;
          var read, ahead := ReadField(i, tag, input);
          if plain { UnmixedOutcome(desc, m, tag, b, ahead); }
          if !read { return false; }
          var end;
          tag, jump, end := Follow(i, input);
          if end { return true; }
        } else {
          if tag % 8 == END_GROUP {
            NoPayload(desc, Value(), tag, input.rest);
            return true;
          }
          SkippedOutcome(desc, Value(), tag, input.rest);
          if plain { UnmixedOutcome(desc, Value(), tag, input.rest, 0); }
          var t := input.SkipField(tag);
          if t == None { return false; }
          unknown := unknown + [t.value];
          PlainLoop(desc, Value(), input.rest);
          tag := input.ReadTag();
          jump := -1;
        }
      }
      ok := true;
    }
  }

  lemma NoneYet(d: Descriptor, m: Message, i: nat, b: seq<byte>)
    requires i < |d.fields| == |m.slots|
    ensures MoreNumbers(d, m, i, b, 0) == Some((m, b))
  {
  }

  lemma OneMoreNumber(d: Descriptor, m: Message, i: nat, b: seq<byte>, k: nat)
    requires i < |d.fields| == |m.slots| && MoreNumbers(d, m, i, b, k).Some?
    ensures var (next, rest) := MoreNumbers(d, m, i, b, k).value;
      BlockNext(d.fields[i], rest) ==>
      MoreNumbers(d, m, i, b, k + 1) ==
        Outcome(d, next, MakeTag(d.fields[i].number, WireTypeOf(d.fields[i].kind)), rest[1..])
  {
    hide Outcome;
  }

  /** A packed field has no nested messages. */
  lemma NoPart(d: Descriptor, i: nat, b: seq<byte>)
    requires WellFormed(d) && i < |d.fields| && d.fields[i].mode.Packed?
    ensures PartOf(d, MakeTag(d.fields[i].number, WireTypeOf(d.fields[i].kind)), b)
  {
    KindOk(d, i);
    TagType(d.fields[i].number, WireTypeOf(d.fields[i].kind));
    hide WellFormed, ReadPayload, Find;
  }

  /** Between two rounds: a tag has been read and the plain loop entered with it gives goal, or there is none. */
  ghost predicate AtTag(d: Descriptor, m: Message, goal: Option<Message>, tag: nat, rest: seq<byte>, legit: bool)
    requires |m.slots| == |d.fields|
  {
    if tag != 0 then !legit && goal == Resume(d, m, tag, rest)
    else if legit then rest == [] && goal == Some(m)
    else goal == None
  }

  function Ahead(done: seq<Val>, r: Option<seq<Val>>): Option<seq<Val>> {
    match r
    case None => None
    case Some(vs) => Some(done + vs)
  }

  lemma AheadNone(r: Option<seq<Val>>)
    ensures Ahead([], r) == r
  {
    if r.Some? { assert [] + r.value == r.value; }
  }

  lemma AheadOne(done: seq<Val>, v: Val, r: Option<seq<Val>>)
    ensures Ahead(done, Ahead([v], r)) == Ahead(done + [v], r)
  {
    if r.Some? { assert done + ([v] + r.value) == done + [v] + r.value; }
  }

  lemma TagType(number: nat, wireType: nat)
    requires wireType < 8
    ensures MakeTag(number, wireType) % 8 == wireType && MakeTag(number, wireType) / 8 == number
  {
  }

  lemma TagParts(tag: nat)
    ensures tag == MakeTag(tag / 8, tag % 8)
  {
  }

  lemma {:induction false} GotoTag(d: Descriptor, gotos: seq<(nat, nat)>)
    requires GotosOk(d, gotos) && gotos != [] && WellFormed(d)
    ensures 0 < gotos[0].0 < 128 && gotos[0].1 < |d.fields|
  {
    KindOk(d, gotos[0].1);
  }

  /** A tag of one byte is read as it stands. */
  lemma ReadSmallTag(tag: nat, rest: seq<byte>)
    requires 0 < tag < 128
    ensures Wire.ReadTag([tag as byte] + rest) == Some((tag, rest))
  {
    assert ([tag as byte] + rest)[1..] == rest;
  }

  lemma NoPayload(d: Descriptor, m: Message, tag: nat, b: seq<byte>)
    requires |m.slots| == |d.fields| && tag % 8 == END_GROUP
    ensures Resume(d, m, tag, b) == None
  {
  }

  /** A tag no case accepts. */
  lemma SkippedOutcome(d: Descriptor, m: Message, tag: nat, b: seq<byte>)
    requires |m.slots| == |d.fields| && WellFormed(d)
    requires var i := Find(d.fields, tag / 8);
      i < |d.fields| ==> tag % 8 != PrimaryType(d.fields[i]) && tag % 8 != WireTypeOf(d.fields[i].kind)
    ensures Outcome(d, m, tag, b) ==
      match ReadPayload(tag, b)
      case None => None
      case Some((p, rest)) => Some((AddUnknown(m, Token(tag / 8, p)), rest))
  {
    hide ReadPayload, Decode, ReadPacked, Find, WellFormed;
  }
}
