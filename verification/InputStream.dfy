/** A finite input stream with the state flags of std::istream. */
module InputStreams {
  import opened Bytes

  /** How often a byte may have been read when a scan step starts at p: bytes behind p at most seven times, the
      six bytes a rejected header can reach beyond the separator once for each separator before p. */
  ghost function Allowance(i: nat, p: nat): nat {
    if i < p then 7 else if i < p + 6 then 6 - (i - p) else 0
  }

  class InputStream {
    const data: seq<byte>
    var pos: nat
    var eof: bool
    var fail: bool
    ghost var touched: seq<nat>  // how often each byte has been read
    ghost var base: nat        // where the current scan step started

    ghost predicate Valid()
      reads this
    {
      base <= pos <= |data| && |touched| == |data| && (eof ==> fail) &&
      forall i :: 0 <= i < |touched| ==> touched[i] <= Allowance(i, base) + if base <= i < pos then 1 else 0
    }

    constructor (data: seq<byte>)
      ensures Valid() && this.data == data && pos == base == 0 && Good()
    {
      this.data := data;
      pos, eof, fail := 0, false, false;
      touched, base := seq(|data|, _ => 0), 0;
    }

    /** A file that could not be opened. */
    constructor Unopened()
      ensures Valid() && data == [] && fail
    {
      data := [];
      pos, eof, fail := 0, false, true;
      touched, base := [], 0;
    }

    predicate Good()
      reads this
    {
      !eof && !fail
    }

    /** Linear work: no byte is read more than seven times. */
    ghost predicate WorkBounded()
      reads this
    {
      forall i :: 0 <= i < |touched| ==> touched[i] <= 7
    }

    lemma ValidIsBounded()
      requires Valid()
      ensures WorkBounded()
    {
    }

    /** At the end of the stream the flags are set and the variable keeps what it held. */
    method Get(unset: byte) returns (ch: byte)
      requires Valid()
      modifies this
      ensures Valid() && base == old(base)
      ensures old(Good()) && old(pos) < |data| ==> Good() && ch == data[old(pos)] && pos == old(pos) + 1
      ensures !(old(Good()) && old(pos) < |data|) ==> fail && ch == unset && pos == old(pos)
      ensures old(Good()) && old(pos) == |data| ==> eof
    {
      ch := unset;
      var got := Extract(1);
      if |got| == 1 { ch := got[0]; }
    }

    /** Unformatted extraction of n bytes; a short one sets both flags. */
    method Extract(n: nat) returns (got: seq<byte>)
      requires Valid()
      modifies this
      ensures Valid() && base == old(base) && |got| <= n && old(pos) <= pos && got == data[old(pos)..pos]
      ensures old(Good()) && old(pos) + n <= |data| ==>
        Good() && pos == old(pos) + n
      ensures !(old(Good()) && old(pos) + n <= |data|) ==> fail && (n > 0 ==> |got| < n)
      ensures !old(Good()) ==> pos == old(pos)
      ensures old(Good()) && old(pos) + n > |data| ==> eof && pos == |data|
    {
      if !Good() {
        fail := true;
        return [];
      }
      var end := if pos + n <= |data| then pos + n else |data|;
      if pos + n > |data| { eof, fail := true, true; }
      got := data[pos..end];
      ghost var was, from := touched, pos;
      touched := seq(|was|, i requires 0 <= i < |was| => if from <= i < end then was[i] + 1 else was[i]);
      pos := end;
    }

    /** Into a buffer. */
    method Read(buffer: array<byte>, n: nat)
      requires Valid() && n <= buffer.Length
      modifies this, buffer
      ensures Valid() && base == old(base)
      ensures old(Good()) && old(pos) + n <= |data| ==>
        Good() && pos == old(pos) + n && buffer[..n] == data[old(pos)..pos]
      ensures !(old(Good()) && old(pos) + n <= |data|) ==> fail
    {
      var got := Extract(n);
      forall i | 0 <= i < |got| {
        buffer[i] := got[i];
      }
      if |got| == n { assert buffer[..n] == got; }
    }

    method Tell() returns (p: int)
      ensures p == if fail then -1 else pos
    {
      p := if fail then -1 else pos;
    }

    /** Back to just after the start of the current step. */
    method Seek(p: nat)
      requires Valid()
      requires !fail ==> p == base + 1 && p <= pos <= base + 7
      modifies this
      ensures Valid() && fail == old(fail)
      ensures !fail ==> Good() && pos == base == p
      ensures fail ==> pos == old(pos)
    {
      eof := eof && fail;
      if !fail {
        pos, base := p, p;
      }
    }

    ghost method StartStep()
      requires Valid()
      modifies this`base
      ensures Valid() && base == pos
    {
      base := pos;
    }
  }
}
