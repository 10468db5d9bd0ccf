/** Bytes, and options for what may be missing. */
module Bytes {
  newtype byte = b: int | 0 <= b < 256

  datatype Option<+T> = None | Some(value: T)

  const RECORD_SEPARATOR: byte := 0x1e
  const UNIT_SEPARATOR: byte := 0x1f

  lemma Associate<T>(a: seq<T>, b: seq<T>, c: seq<T>)
    ensures a + b + c == a + (b + c)
  {
  }

  /** A word stored in memory order of a little-endian machine. */
  function LittleEndian(bs: seq<byte>): nat {
    if bs == [] then 0 else bs[0] as nat + 256 * LittleEndian(bs[1..])
  }

  function Pow256(k: nat): (r: nat)
    ensures r >= 1
  {
    if k == 0 then 1 else 256 * Pow256(k - 1)
  }

  function ToLittleEndian(n: nat, width: nat): (bs: seq<byte>)
    ensures |bs| == width
  {
    if width == 0 then [] else [(n % 256) as byte] + ToLittleEndian(n / 256, width - 1)
  }

  lemma {:induction false} LittleEndianRoundTrip(n: nat, width: nat)
    requires n < Pow256(width)
    ensures LittleEndian(ToLittleEndian(n, width)) == n
  {
    if width == 0 {
    } else {
      LittleEndianRoundTrip(n / 256, width - 1);
    }
  }

  lemma {:induction false} LittleEndianBound(bs: seq<byte>)
    ensures LittleEndian(bs) < Pow256(|bs|)
  {
    if bs == [] {
    } else {
      LittleEndianBound(bs[1..]);
    }
  }

  /** The word left in memory when only its first bytes are overwritten. */
  function Overlay(bs: seq<byte>, old_: nat): nat {
    if bs == [] then old_ else bs[0] as nat + 256 * Overlay(bs[1..], old_ / 256)
  }

  lemma {:induction false} FullOverlay(bs: seq<byte>, old_: nat)
    requires old_ < Pow256(|bs|)
    ensures Overlay(bs, old_) == LittleEndian(bs)
  {
    if bs == [] {
    } else {
      FullOverlay(bs[1..], old_ / 256);
    }
  }

  lemma {:induction false} OverlayBound(bs: seq<byte>, old_: nat, width: nat)
    requires |bs| <= width && old_ < Pow256(width)
    ensures Overlay(bs, old_) < Pow256(width)
  {
    if bs == [] {
    } else {
      OverlayBound(bs[1..], old_ / 256, width - 1);
    }
  }

  /** In memory: the new bytes, and the old ones behind them. */
  lemma {:induction false} OverlayBytes(bs: seq<byte>, old_: nat, width: nat)
    requires |bs| <= width
    ensures ToLittleEndian(Overlay(bs, old_), width) == bs + ToLittleEndian(old_, width)[|bs|..]
  {
    if bs == [] {
    } else {
      OverlayBytes(bs[1..], old_ / 256, width - 1);
      OverlayFirst(bs, old_);
      LittleEndianFirst(Overlay(bs, old_), width);
      LittleEndianFirst(old_, width);
      hide Overlay, ToLittleEndian;
      assert bs == [bs[0]] + bs[1..];
      Associate([bs[0]], bs[1..], ToLittleEndian(old_ / 256, width - 1)[|bs| - 1..]);
    }
  }

  lemma LittleEndianFirst(n: nat, width: nat)
    requires width > 0
    ensures ToLittleEndian(n, width) == [(n % 256) as byte] + ToLittleEndian(n / 256, width - 1)
  {
  }

  lemma OverlayFirst(bs: seq<byte>, old_: nat)
    requires bs != []
    ensures Overlay(bs, old_) % 256 == bs[0] as nat && Overlay(bs, old_) / 256 == Overlay(bs[1..], old_ / 256)
  {
  }

  /** The C string that starts a buffer: everything before the first zero byte. */
  function CString(bs: seq<byte>): (s: seq<byte>)
    ensures s <= bs && 0 !in s
    ensures |s| < |bs| ==> bs[|s|] == 0
  {
    if bs == [] || bs[0] == 0 then [] else [bs[0]] + CString(bs[1..])
  }

  lemma {:induction false} CStringStops(a: seq<byte>, rest: seq<byte>)
    ensures CString(a + [0] + rest) == CString(a)
  {
    if a == [] {
      assert (a + [0] + rest)[0] == 0;
    } else {
      assert (a + [0] + rest)[1..] == a[1..] + [0] + rest;
      CStringStops(a[1..], rest);
    }
  }
}
