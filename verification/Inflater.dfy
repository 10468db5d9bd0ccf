/** Unpacking into a buffer that grows on demand. */
module Inflation {
  import opened Bytes
  import opened Records

  /** All a compressed payload decodes to, and how it ends. */
  datatype Ending = Complete | Damaged | CutShort
  datatype Deflated = Deflated(output: seq<byte>, ending: Ending)

  datatype Code = OK | STREAM_END | BUF_ERROR | DATA_ERROR

  function LastCode(ending: Ending): Code {
    match ending
    case Complete => STREAM_END
    case Damaged => DATA_ERROR
    case CutShort => BUF_ERROR
  }

  /** The decompressor: writes what fits into the space given and answers BUF_ERROR for more space or more input.
      When the output exactly fills the space it may finish at once or only when called again. */
  class ZStream {
    const whole: Deflated
    var done: nat

    constructor (whole: Deflated)
      ensures this.whole == whole && done == 0
    {
      this.whole, done := whole, 0;
    }

    method Inflate(buffer: array<byte>, start: nat, space: nat) returns (code: Code)
      requires start + space == buffer.Length && done <= |whole.output|
      modifies this, buffer
      ensures old(done) <= done <= |whole.output| && done - old(done) <= space
      ensures buffer[..start] == old(buffer[..start])
      ensures buffer[start..start + (done - old(done))] == whole.output[old(done)..done]
      ensures code == BUF_ERROR && !whole.ending.CutShort? ==> done - old(done) == space
      ensures code == BUF_ERROR || done == |whole.output|
      ensures code != BUF_ERROR ==> code == LastCode(whole.ending)
      ensures whole.ending.CutShort? ==> code == BUF_ERROR
    {
      var left := |whole.output| - done;
      var n := if left <= space then left else space;
      ghost var from := done;
      forall i | 0 <= i < n {
        buffer[start + i] := whole.output[done + i];
      }
      done := done + n;
      assert buffer[start..start + n] == whole.output[from..done];
      var finish: bool := *;
      if whole.ending.CutShort? || n < left || (n == space && !finish) {
        code := BUF_ERROR;
      } else {
        code := LastCode(whole.ending);
      }
    }
  }

  lemma LastCodes(ending: Ending)
    ensures (LastCode(ending) == STREAM_END) == ending.Complete? && (LastCode(ending) == BUF_ERROR) == ending.CutShort?
  {
  }

  datatype Result = Inflated | DataError | OutOfMemory

  class Inflater {
    const memory: nat
    var mInflateLength: nat
    var mInflateSize: nat
    var mInflate: array<byte>
    ghost var largest: nat   // the longest output any payload so far has held
    ghost var starved: bool  // some payload so far was cut short

    ghost predicate Valid()
      reads this, mInflate
    {
      mInflate.Length == mInflateSize && MAX_DATA <= mInflateSize &&
      (mInflateSize <= MAX_DATA || (mInflateSize <= memory && (starved || mInflateSize <= 2 * largest)))
    }

    constructor (memory: nat)
      ensures Valid() && this.memory == memory && largest == 0 && !starved && fresh(mInflate)
    {
      this.memory := memory;
      mInflateLength, mInflateSize, largest, starved := 0, MAX_DATA, 0, false;
      mInflate := new byte[MAX_DATA];
    }

    /** A larger buffer with the same start; the old one stays if none can be had. */
    method Grow(required: nat) returns (ok: bool)
      requires mInflate.Length == mInflateSize && mInflateLength <= mInflateSize < required
      modifies this`mInflate, this`mInflateSize
      ensures ok == (required <= memory)
      ensures ok ==> fresh(mInflate) && mInflate.Length == mInflateSize == required
      ensures !ok ==> mInflate == old(mInflate) && mInflateSize == old(mInflateSize)
      ensures mInflateLength <= mInflate.Length && mInflate[..mInflateLength] == old(mInflate[..mInflateLength])
    {
      if required > memory { return false; }
      var tmp := new byte[required];
      forall i | 0 <= i < mInflateLength {
        tmp[i] := mInflate[i];
      }
      assert tmp[..mInflateLength] == mInflate[..mInflateLength];
      mInflate, mInflateSize := tmp, required;
      ok := true;
    }

    /** The buffer starts with everything the stream has written so far. */
    ghost predicate Holds(strm: ZStream)
      reads this, mInflate, strm
    {
      mInflateLength == strm.done <= |strm.whole.output| && mInflateLength <= mInflate.Length == mInflateSize &&
      mInflate[..mInflateLength] == strm.whole.output[..mInflateLength]
    }

    method Fill(strm: ZStream, nextOut: nat) returns (code: Code)
      requires nextOut == strm.done <= |strm.whole.output| && nextOut <= mInflate.Length == mInflateSize
      requires mInflate[..nextOut] == strm.whole.output[..nextOut]
      modifies this`mInflateLength, mInflate, strm
      ensures Holds(strm)
      ensures code == BUF_ERROR ==> strm.whole.ending.CutShort? || mInflateLength == mInflateSize
      ensures code != BUF_ERROR ==> mInflateLength == |strm.whole.output| && code == LastCode(strm.whole.ending)
      ensures strm.whole.ending.CutShort? ==> code == BUF_ERROR
    {
      code := strm.Inflate(mInflate, nextOut, mInflateSize - nextOut);
      assert mInflate[..strm.done] == mInflate[..nextOut] + mInflate[nextOut..strm.done];
      mInflateLength := strm.done;
    }

    /** One more round with twice the space, which a payload asks for only if it has filled what there is. */
    method GrowAndFill(strm: ZStream) returns (ok: bool, code: Code)
      requires Valid() && Holds(strm)
      requires if strm.whole.ending.CutShort? then starved else mInflateLength == mInflateSize
      requires |strm.whole.output| <= largest
      modifies this`mInflate, this`mInflateSize, this`mInflateLength, mInflate, strm
      ensures Valid() && Holds(strm) && (mInflate == old(mInflate) || fresh(mInflate))
      ensures ok == (2 * old(mInflateSize) <= memory) && (ok ==> mInflateSize == 2 * old(mInflateSize))
      ensures ok && code == BUF_ERROR ==> strm.whole.ending.CutShort? || mInflateLength == mInflateSize
      ensures ok && code != BUF_ERROR ==> mInflateLength == |strm.whole.output| && code == LastCode(strm.whole.ending)
      ensures ok && strm.whole.ending.CutShort? ==> code == BUF_ERROR
    {
      code := BUF_ERROR;
      ok := Grow(2 * mInflateSize);
      if ok { code := Fill(strm, mInflateLength); }
    }

    /** Ends with the whole output in the buffer, or with a data error after all of it; a payload that is cut
        short asks for more space until there is none. */
    method Inflate(whole: Deflated) returns (result: Result)
      requires Valid()
      modifies this, mInflate
      ensures Valid() && largest == if |whole.output| > old(largest) then |whole.output| else old(largest)
      ensures starved == (old(starved) || whole.ending.CutShort?)
      ensures mInflate == old(mInflate) || fresh(mInflate)
      ensures whole.ending.CutShort? ==> result.OutOfMemory?
      ensures 2 * |whole.output| <= memory && !whole.ending.CutShort? ==> !result.OutOfMemory?
      ensures !result.OutOfMemory? ==>
        && mInflateLength == |whole.output| <= mInflateSize && mInflate[..mInflateLength] == whole.output
        && result == if whole.ending.Complete? then Inflated else DataError
    {
      hide LastCode;
      largest := if |whole.output| > largest then |whole.output| else largest;
      starved := starved || whole.ending.CutShort?;
      ghost var bound, short := largest, starved;
      var strm := new ZStream(whole);
      // do ... while, first round written out
      var ret := Fill(strm, 0);
      while ret == BUF_ERROR
        invariant mInflate == old(mInflate) || fresh(mInflate)
        invariant Valid() && largest == bound && starved == short && Holds(strm)
        invariant ret == BUF_ERROR ==> whole.ending.CutShort? || mInflateLength == mInflateSize
        invariant ret != BUF_ERROR ==> mInflateLength == |whole.output| && ret == LastCode(whole.ending)
        invariant whole.ending.CutShort? ==> ret == BUF_ERROR
        decreases if ret == BUF_ERROR then 1 else 0, memory - mInflateSize
      {
        var ok;
        ok, ret := GrowAndFill(strm);
        if !ok { return OutOfMemory; }
      }
      LastCodes(whole.ending);
      result := if ret == STREAM_END then Inflated else DataError;
    }

    /** Room for the NUL that ends the text. */
    method Terminate() returns (ok: bool)
      requires Valid() && mInflateLength <= mInflateSize && mInflateLength <= largest
      modifies this`mInflate, this`mInflateSize, mInflate
      ensures Valid()
      ensures mInflate == old(mInflate) || fresh(mInflate)
      ensures 2 * mInflateLength <= memory ==> ok
      ensures mInflateLength <= mInflateSize && mInflate[..mInflateLength] == old(mInflate[..mInflateLength])
      ensures ok ==> mInflateLength < mInflateSize && mInflate[mInflateLength] == 0
    {
      if mInflateLength >= mInflateSize {
        ok := Grow(mInflateLength + 1);
        if !ok { return; }
      }
      mInflate[mInflateLength] := 0;
      ok := true;
    }
  }
}
