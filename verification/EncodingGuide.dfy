/** The wire format against the Protocol Buffers Encoding guide: what bytes mean, and the guide's own examples. */
module EncodingGuide {
  import opened Bytes
  import opened Wire
  import opened Codec

  // ---- base 128 varints ----

  /** Groups of seven bits, the most significant one first. */
  function FromGroups(bs: seq<byte>): nat {
    if bs == [] then 0 else 128 * FromGroups(bs[..|bs| - 1]) + bs[|bs| - 1] as nat % 128
  }

  function Reversed<T>(s: seq<T>): seq<T> {
    if s == [] then [] else Reversed(s[1..]) + [s[0]]
  }

  lemma ReversedPush(b: byte, bs: seq<byte>)
    ensures FromGroups(Reversed([b] + bs)) == 128 * FromGroups(Reversed(bs)) + b as nat % 128
  {
    assert ([b] + bs)[1..] == bs;
    var back := Reversed(bs);
    hide Reversed;
    assert (back + [b])[..|back|] == back;
  }

  /** The groups of a varint come in reverse. */
  lemma {:induction false} VarintGroups(v: nat)
    ensures FromGroups(Reversed(Varint(v))) == v
  {
    hide FromGroups, Reversed;
    if v < 128 {
      assert [v as byte] == [v as byte] + [];
      ReversedPush(v as byte, []);
      assert FromGroups(Reversed([])) == 0 by { NoGroups(); }
    } else {
      VarintGroups(v / 128);
      ReversedPush((128 + v % 128) as byte, Varint(v / 128));
    }
  }

  lemma NoGroups()
    ensures FromGroups(Reversed([])) == 0
  {
  }

  /** All bytes of a varint but the last have the top bit set, and there is no more than is needed. */
  lemma {:induction false} VarintBytes(v: nat)
    ensures var bs := Varint(v);
      bs[|bs| - 1] < 128 && (forall i :: 0 <= i < |bs| - 1 ==> bs[i] >= 128) && (|bs| > 1 ==> bs[|bs| - 1] != 0)
  {
    if v < 128 {
    } else {
      VarintBytes(v / 128);
      assert Varint(v)[1..] == Varint(v / 128);
    }
  }

  /** Bytes that have the top bit set. */
  predicate AllGoOn(bs: seq<byte>) { forall i :: 0 <= i < |bs| ==> bs[i] >= 128 }

  lemma {:induction false} GroupsRead(bs: seq<byte>, last: byte, rest: seq<byte>, k: nat)
    requires AllGoOn(bs) && last < 128
    ensures ReadGroups(bs + [last] + rest, k) ==
            if |bs| < k then Some((FromGroups(Reversed(bs + [last])), rest)) else None
    decreases |bs|
  {
    var b := bs + [last] + rest;
    hide FromGroups, Reversed;
    if bs == [] {
      assert b[1..] == rest && [] + [last] == [last] && [last] == [last] + [];
      ReversedPush(last, []);
      NoGroups();
    } else if k > 0 {
      assert b[1..] == bs[1..] + [last] + rest && bs + [last] == [bs[0]] + (bs[1..] + [last]);
      ReversedPush(bs[0], bs[1..] + [last]);
      GroupsRead(bs[1..], last, rest, k - 1);
    }
  }

  lemma {:induction false} GroupsCut(bs: seq<byte>, k: nat)
    requires AllGoOn(bs)
    ensures ReadGroups(bs, k) == None
    decreases |bs|
  {
    if bs != [] && k > 0 { GroupsCut(bs[1..], k - 1); }
  }

  /** Any varint of at most ten bytes is read, whether or not it is the shortest one, and its low 64 bits count; what
      has no end, or has it later, is refused. */
  lemma VarintRead(bs: seq<byte>, last: byte, rest: seq<byte>)
    requires AllGoOn(bs) && last < 128
    ensures ReadVarint(bs + [last] + rest) ==
            if |bs| < 10 then Some((FromGroups(Reversed(bs + [last])) % TWO64, rest)) else None
    ensures ReadVarint(bs) == None
    ensures ReadVarint32(bs + [last] + rest) ==
            if |bs| < 10 then Some((FromGroups(Reversed(bs + [last])) % TWO64 % TWO32, rest)) else None
  {
    GroupsRead(bs, last, rest, 10);
    GroupsCut(bs, 10);
    hide ReadGroups, FromGroups, Reversed;
  }

  // ---- numbers ----

  /** Signed numbers are written in two's complement of 64 bits, whatever their type. */
  lemma TwosComplement(n: int)
    requires -TWO63 <= n < TWO63
    ensures 0 <= ToWire(n) < TWO64 && (ToWire(n) - n) % TWO64 == 0
  {
  }

  /** A number read is the one of its type that agrees with the bits on the wire as far as the type goes; a truth
      value is an int32 that is not 0. */
  lemma ReadInType(w: nat)
    requires w < TWO64
    ensures var n := FromWire(Int64, w); -TWO63 <= n < TWO63 && (n - w) % TWO64 == 0
    ensures var n := FromWire(Int32, w); -TWO31 <= n < TWO31 && (n - w) % TWO32 == 0
    ensures var n := FromWire(UInt32, w); 0 <= n < TWO32 && (n - w) % TWO32 == 0
    ensures FromWire(Bool, w) == if FromWire(Int32, w) == 0 then 0 else 1
    ensures FromWire(Double, w) == w
    ensures forall last :: FromWire(Enum(last), w) == FromWire(Int32, w)
  {
  }

  /** An enum takes the numbers it knows; any other is kept as an unknown field, with its sign. */
  lemma UnknownEnum(f: Field, last: nat, w: nat)
    requires f.kind == Enum(last) && w < TWO64
    ensures var n := FromWire(Int32, w);
      if 0 <= n <= last then Decode(f, VarintP(w)) == Good(Num(n))
      else exists x: nat ::
        x < TWO64 && FromWire(Int64, x) == n && Decode(f, VarintP(w)) == Foreign(Token(f.number, VarintP(x)))
  {
    var n := FromWire(Int32, w);
    assert FromWire(Int64, ToWire(n)) == n;
  }

  // ---- wire types ----

  lemma OneByteTag(tag: byte, rest: seq<byte>)
    requires 0 < tag < 128
    ensures ReadTag([tag] + rest) == Some((tag as nat, rest)) && Varint(tag as nat) == [tag]
  {
    assert ([tag] + rest)[1..] == rest;
  }

  /** Wire types 6 and 7 do not exist, a group does not end before it has started, and no tag is 0. */
  lemma RefusedTypes(tag: byte, rest: seq<byte>)
    requires tag == 0 || (tag < 128 && tag % 8 in {4, 6, 7})
    ensures ReadToken([tag] + rest) == None
  {
    if tag == 0 {
      assert ReadGroups([tag] + rest, MAX_VARINT).value.0 == 0;
    } else {
      OneByteTag(tag, rest);
      hide ReadTag, Varint;
    }
  }

  /** A group ends with its own number and no other. */
  lemma GroupEnds(start: nat, end: nat, rest: seq<byte>)
    requires 0 < start < 16 && 0 < end < 16
    ensures ReadToken([(8 * start + 3) as byte, (8 * end + 4) as byte] + rest) ==
            if start == end then Some((Token(start, GroupP([])), rest)) else None
  {
    var a, b := (8 * start + 3) as byte, (8 * end + 4) as byte;
    OneByteTag(a, [b] + rest);
    OneByteTag(b, rest);
    assert [a, b] + rest == [a] + ([b] + rest);
    hide ReadTag, Varint;
    assert ReadGroup(start, [b] + rest) == if start == end then Some(([], rest)) else None;
    assert ReadPayload(a as nat, [b] + rest) == if start == end then Some((GroupP([]), rest)) else None;
  }

  /** The four bytes of a fixed32 and the eight of a fixed64 are as they are; an empty group is its two tags. */
  lemma OtherTypes(word: nat, bits: nat)
    ensures EncodeToken(Token(1, Fixed32P(word))) == [0x0d] + ToLittleEndian(word, 4)
    ensures EncodeToken(Token(1, Fixed64P(bits))) == [0x09] + ToLittleEndian(bits, 8)
    ensures EncodeToken(Token(1, GroupP([]))) == [0x0b, 0x0c]
  {
    hide ToLittleEndian;
    OneByteTag(0x0d, []);
    OneByteTag(0x09, []);
    OneByteTag(0x0b, []);
    OneByteTag(0x0c, []);
    hide Varint;
    assert EncodeTokens([]) == [] && [] + [0x0c as byte] == [0x0c];
  }

  // ---- the guide's examples ----

  /** Field 1 with 150 is 08 96 01. */
  lemma OneHundredFifty()
    ensures EncodeToken(Token(1, VarintP(150))) == [0x08, 0x96, 0x01]
    ensures ReadToken([0x08, 0x96, 0x01]) == Some((Token(1, VarintP(150)), []))
  {
    assert Varint(150) == [0x96, 0x01] && Varint(8) == [0x08];
    var b: seq<byte> := [0x08, 0x96, 0x01];
    assert b[1..] == [0x96, 0x01] && [0x96 as byte, 0x01][1..] == [0x01] && [0x01 as byte][1..] == [];
    assert ReadVarint(b) == Some((8, [0x96, 0x01]));
    assert ReadVarint([0x96, 0x01]) == Some((150, []));
  }

  /** Field 2 with the text "testing" is 12 07 and the seven bytes of the text. */
  lemma Testing(text: seq<byte>)
    requires |text| == 7
    ensures EncodeToken(Token(2, DelimitedP(text))) == [0x12, 0x07] + text
  {
    assert Varint(0x12) == [0x12] && Varint(7) == [7];
  }

  /** Field 4 packed with 3, 270 and 86942 is 22 06 03 8e 02 9e a7 05. */
  lemma PackedExample()
    ensures var vs := [Num(3), Num(270), Num(86942)];
      EncodeToken(Token(4, DelimitedP(PackedBytes(Int64, vs)))) == [0x22, 0x06, 0x03, 0x8e, 0x02, 0x9e, 0xa7, 0x05]
  {
    var vs := [Num(3), Num(270), Num(86942)];
    assert Varint(3) == [0x03] && Varint(270) == [0x8e, 0x02];
    assert Varint(5) == [0x05] && Varint(679) == [0xa7, 0x05] && Varint(86942) == [0x9e, 0xa7, 0x05];
    assert vs[1..] == [Num(270), Num(86942)] && vs[1..][1..] == [Num(86942)] && vs[1..][1..][1..] == [];
    assert PackedBytes(Int64, []) == [];
    assert PackedBytes(Int64, [Num(86942)]) == [0x9e, 0xa7, 0x05];
    assert PackedBytes(Int64, vs[1..]) == [0x8e, 0x02, 0x9e, 0xa7, 0x05];
    assert PackedBytes(Int64, vs) == [0x03, 0x8e, 0x02, 0x9e, 0xa7, 0x05];
    assert Varint(0x22) == [0x22] && Varint(6) == [0x06];
  }

  /** A double is its 64 bits, the least significant byte first. */
  lemma {:induction false} LastByteCountsMost(bs: seq<byte>, b: byte)
    ensures LittleEndian(bs + [b]) == LittleEndian(bs) + b as nat * Pow256(|bs|)
  {
    if bs == [] {
      assert ([] + [b])[1..] == [];
    } else {
      assert (bs + [b])[1..] == bs[1..] + [b];
      LastByteCountsMost(bs[1..], b);
      TwoFiftySix(b as nat, Pow256(|bs| - 1));
    }
  }

  lemma TwoFiftySix(b: nat, p: nat)
    ensures 256 * (b * p) == b * (256 * p)
  {
  }
}
