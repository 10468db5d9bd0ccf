/** The record reader: finds frames in a byte stream, unpacks their payloads and keeps count of what failed. */
module TelemetryRecords {
  import opened Bytes
  import opened InputStreams
  import opened Records
  import opened Inflation
  import Descriptors
  import Codec
  import M = Metrics
  import MessageParser

  /** Memory holds every payload a record can bring, at twice its unpacked size. */
  ghost predicate RoomFor(zlib: seq<byte> -> Deflated, memory: nat) {
    forall d :: |d| <= MAX_DATA && !zlib(d).ending.CutShort? ==> 2 * |zlib(d).output| <= memory
  }

  lemma NoRoom(zlib: seq<byte> -> Deflated, memory: nat, d: seq<byte>)
    requires |d| <= MAX_DATA && !zlib(d).ending.CutShort? && 2 * |zlib(d).output| > memory
    ensures !RoomFor(zlib, memory)
  {
  }

  datatype Verdict = Hit | GiveUp | Again

  class TelemetryRecord<Document> {
    const zlib: seq<byte> -> Deflated           // what a compressed payload holds
    const parse: seq<byte> -> Option<Document>  // the JSON parser
    const memory: nat                           // the largest buffer that can be allocated

    var mPathLength: nat
    const mPath: array<byte>
    var mDataLength: nat
    const mData: array<byte>
    var mTimestamp: nat
    const mInflater: Inflater
    var mDocument: Option<Document>
    var mMetrics: Counters

    ghost predicate Valid()
      reads this, mInflater, mInflater.mInflate
    {
      mPath.Length == MAX_PATH + 1 && mData.Length == MAX_DATA + 1 && mPath != mData &&
      mPathLength < Pow256(2) && mDataLength < Pow256(4) && mTimestamp < Pow256(8) &&
      mInflater.Valid() && mInflater.memory == memory &&
      mInflater.mInflate != mPath && mInflater.mInflate != mData
    }

    constructor (zlib: seq<byte> -> Deflated, parse: seq<byte> -> Option<Document>, memory: nat)
      ensures Valid() && mMetrics == ZERO
      ensures this.zlib == zlib && this.parse == parse && this.memory == memory
      ensures fresh(mPath) && fresh(mData) && fresh(mInflater) && fresh(mInflater.mInflate)
      ensures mInflater.largest == 0
    {
      this.zlib, this.parse, this.memory := zlib, parse, memory;
      mPathLength, mDataLength, mTimestamp := 0, 0, 0;
      mPath := new byte[MAX_PATH + 1];
      mData := new byte[MAX_DATA + 1];
      mInflater := new Inflater(memory);
      mDocument, mMetrics := None, ZERO;
    }

    predicate Gzip(data: seq<byte>) {
      |data| > 2 && data[0] == 0x1f && data[1] == 0x8b
    }

    function ParseText(text: seq<byte>): Outcome<Document> {
      match parse(CString(text))
      case Some(d) => Parsed(d)
      case None => BadJson
    }

    /** What should become of a payload. One that is cut short exhausts memory. */
    function Process(data: seq<byte>): Outcome<Document> {
      if !Gzip(data) then ParseText(data)
      else
        var z := zlib(data);
        if z.ending.CutShort? then Exhausting
        else if z.ending.Damaged? then BadInflate
        else ParseText(z.output)
    }

    /** A gzip payload starts with the two bytes of section 2.3.1 of RFC 1952 and has more than these. It is unpacked,
        and fails as such if it is damaged; its text, or that of any other payload, up to its first NUL is parsed. */
    lemma ProcessedExactly(data: seq<byte>)
      ensures var gzip, z := |data| > 2 && [0x1f, 0x8b] <= data, zlib(data);
        && (Process(data).BadInflate? <==> gzip && z.ending.Damaged?)
        && (Process(data).Exhausting? <==> gzip && z.ending.CutShort?)
        && (gzip && z.ending.Complete? ==>
              (Process(data).Parsed? <==> parse(CString(z.output)).Some?) &&
              (Process(data).Parsed? ==> Some(Process(data).document) == parse(CString(z.output))))
        && (!gzip ==>
              (Process(data).Parsed? <==> parse(CString(data)).Some?) &&
              (Process(data).Parsed? ==> Some(Process(data).document) == parse(CString(data))))
    {
    }

    method ReadHeader(input: InputStream) returns (ok: bool)
      requires Valid() && input.Valid() && (input.Good() ==> input.pos == input.base + 1)
      modifies this`mPathLength, this`mDataLength, this`mTimestamp, this`mMetrics, input
      ensures Valid() && input.Valid() && input.base == old(input.base)
      ensures !old(input.Good()) ==> !ok && input.fail && mMetrics == old(mMetrics)
      ensures old(input.Good()) ==> var h := HeaderAt(input.data, old(input.pos));
        && ok == h.Accepted?
        && (ok ==> input.Good() && input.pos == old(input.pos) + HEADER_SIZE && mMetrics == old(mMetrics)
                   && mPathLength == h.header.pathLength && mDataLength == h.header.dataLength
                   && mTimestamp == h.header.timestamp)
        && (h.Short? ==> input.fail && mMetrics == old(mMetrics))
        && (h.LongPath? ==> input.Good() && input.base < input.pos <= input.base + 7
                            && mMetrics == old(mMetrics).(pathLength := old(mMetrics).pathLength + 1))
        && (h.LongData? ==> input.Good() && input.base < input.pos <= input.base + 7
                            && mMetrics == old(mMetrics).(dataLength := old(mMetrics).dataLength + 1))
    {
      hide InputStream.Valid, LittleEndian, Overlay;
      mPathLength := ReadValue(input, 2, mPathLength);
      if !input.Good() { return false; }
      if mPathLength > MAX_PATH {
        mMetrics := mMetrics.(pathLength := mMetrics.pathLength + 1);
        return false;
      }
      mDataLength := ReadValue(input, 4, mDataLength);
      if !input.Good() { return false; }
      if mDataLength > MAX_DATA {
        mMetrics := mMetrics.(dataLength := mMetrics.dataLength + 1);
        return false;
      }
      mTimestamp := ReadValue(input, 8, mTimestamp);
      if !input.Good() { return false; }
      ok := true;
    }

    /** Reads straight over the old value, so a short read leaves its last bytes in place. */
    method ReadValue(input: InputStream, width: nat, val: nat) returns (r: nat)
      requires input.Valid() && val < Pow256(width)
      modifies input
      ensures input.Valid() && input.base == old(input.base) && r < Pow256(width)
      ensures old(input.pos) <= input.pos && r == Overlay(input.data[old(input.pos)..input.pos], val)
      ensures old(input.Good()) && old(input.pos) + width <= |input.data| ==>
        input.Good() && input.pos == old(input.pos) + width && r == LittleEndian(input.data[old(input.pos)..input.pos])
      ensures !(old(input.Good()) && old(input.pos) + width <= |input.data|) ==> input.fail
    {
      var got := input.Extract(width);
      r := Overlay(got, val);
      OverlayBound(got, val, width);
      if |got| == width { FullOverlay(got, val); }
    }

    /** One round of the search. Where it neither finds a header nor gives up, one byte has been skipped. */
    method TryRecord(input: InputStream, unset: byte) returns (verdict: Verdict)
      requires Valid() && input.Valid() && input.Good()
      modifies this`mPathLength, this`mDataLength, this`mTimestamp, this`mMetrics, input
      ensures Valid() && input.Valid()
      ensures var p, step := old(input.pos), StepAt(input.data, old(input.pos));
        if Skips(step) then verdict == Again && input.Good() && input.pos == p + 1
                            && mMetrics == Plus(old(mMetrics), SkipCount(step))
        else Halted(input, p, old(mMetrics), unset, verdict)
    {
      hide LittleEndian, Pow256, BodyStep, HeaderAt;
      input.StartStep();
      var ch := input.Get(unset);
      if ch == RECORD_SEPARATOR {
        var pos := input.Tell();
        var found := ReadHeader(input);
        if found { return Hit; }
        if input.fail { return GiveUp; }
        input.Seek(pos);
      } else {
        mMetrics := mMetrics.(corrupt := mMetrics.corrupt + 1);
      }
      verdict := Again;
    }

    /** The header at q has been read and the body comes next. */
    ghost predicate AtBody(input: InputStream, q: nat)
      reads this, input
    {
      HeaderStarts(input.data, q) && input.Good() && input.base == q && input.pos == q + 15 &&
      Accepted(Header(mPathLength, mDataLength, mTimestamp)) == HeaderAt(input.data, q + 1)
    }

    /** The search is over at p: a header has been read, or the stream has failed. */
    ghost predicate Halted(input: InputStream, p: nat, counts: Counters, unset: byte, verdict: Verdict)
      reads this, input
    {
      if verdict == Hit then AtBody(input, p) && mMetrics == counts
      else input.fail && !HeaderStarts(input.data, p) && EndCounts(counts, p == |input.data|, unset, mMetrics)
    }

    method FindRecord(input: InputStream, unset: byte, ghost frames: seq<Frame>) returns (ok: bool)
      requires Valid() && input.Valid() && input.Good()
      modifies this`mPathLength, this`mDataLength, this`mTimestamp, this`mMetrics, input
      ensures Valid() && input.Valid()
      ensures var r := Scan(input.data, old(Progress(input.pos, mMetrics, frames)));
        ok == HeaderStarts(input.data, r.pos) && Halted(input, r.pos, r.counts, unset, if ok then Hit else GiveUp)
    {
      ghost var at := Progress(input.pos, mMetrics, frames);
      ghost var goal := Scan(input.data, at);
      hide StepAt, Scan, HeaderAt, HeaderStarts, Valid, InputStream.Valid;
      var verdict := Again;
      while verdict == Again && input.Good()
        invariant Valid() && input.Valid()
        invariant at.pos <= |input.data| && goal == Scan(input.data, at)
        invariant if verdict == Again && input.Good() then at.pos == input.pos && at.counts == mMetrics
                  else !Skips(StepAt(input.data, at.pos)) && Halted(input, at.pos, at.counts, unset, verdict)
        decreases |input.data| - at.pos, if verdict == Again && input.Good() then 1 else 0
      {
        ghost var step := StepAt(input.data, at.pos);
        verdict := TryRecord(input, unset);
        if Skips(step) {
          ScanOn(input.data, at);
          at := SkipOne(at, step);
        }
      }
      ok := verdict == Hit;
      HitStopsScan(input.data, at);
    }

    /** The payload unpacked into the buffer of the inflater and ended by a NUL. Memory runs out on every payload that
        is cut short, and otherwise only if it cannot hold this one twice. */
    method Unpack() returns (result: Inflation.Result)
      requires Valid() && mDataLength <= MAX_DATA
      modifies mInflater, mInflater.mInflate
      ensures Valid() && (mInflater.mInflate == old(mInflater.mInflate) || fresh(mInflater.mInflate))
      ensures var z := zlib(old(mData[..mDataLength]));
        && (z.ending.CutShort? ==> result == OutOfMemory)
        && (result == OutOfMemory ==> z.ending.CutShort? || 2 * |z.output| > memory)
        && (result != OutOfMemory ==> result == if z.ending.Damaged? then DataError else Inflated)
        && (result == Inflated ==> CString(mInflater.mInflate[..]) == CString(z.output))
    {
      hide CString, Pow256;
      var whole := zlib(mData[..mDataLength]);
      result := mInflater.Inflate(whole);
      if result == Inflated {
        var room := mInflater.Terminate();
        if !room { return OutOfMemory; }
        Terminated(mInflater.mInflate[..], whole.output);
      }
    }

    method ProcessRecord() returns (ok: bool, threw: bool)
      requires Valid() && mDataLength <= MAX_DATA && mData[mDataLength] == 0
      modifies this`mDocument, this`mMetrics, mInflater, mInflater.mInflate
      ensures Valid() && (mInflater.mInflate == old(mInflater.mInflate) || fresh(mInflater.mInflate))
      ensures var payload := old(mData[..mDataLength]);
        if threw then !ok && (Process(payload).Exhausting? || !RoomFor(zlib, memory))
        else
          match Process(payload)
          case Parsed(d) => ok && mDocument == Some(d) && mMetrics == old(mMetrics)
          case Exhausting => false
          case BadInflate => !ok && mMetrics == old(mMetrics).(inflate := old(mMetrics).inflate + 1)
          case BadJson => !ok && mMetrics == old(mMetrics).(parse := old(mMetrics).parse + 1)
    {
      hide CString, Pow256, Inflater.Valid, RoomFor;
      threw := false;
      ghost var payload := mData[..mDataLength];
      if mDataLength > 2 && mData[0] == 0x1f && mData[1] == 0x8b {
        var ret := Unpack();
        if ret == OutOfMemory {
          if !zlib(payload).ending.CutShort? { NoRoom(zlib, memory, payload); }
          return false, true;
        }
        if ret != Inflated {
          mMetrics := mMetrics.(inflate := mMetrics.inflate + 1);
          return false, false;
        }
        mDocument := parse(CString(mInflater.mInflate[..]));
      } else {
        Terminated(mData[..], payload);
        mDocument := parse(CString(mData[..]));
      }
      if mDocument.None? {
        mMetrics := mMetrics.(parse := mMetrics.parse + 1);
        return false, false;
      }
      ok := true;
    }

    lemma Terminated(buffer: seq<byte>, text: seq<byte>)
      requires |text| < |buffer| && buffer[..|text|] == text && buffer[|text|] == 0
      ensures CString(buffer) == CString(text)
    {
      hide CString;
      assert buffer == text + [0] + buffer[|text| + 1..];
      CStringStops(text, buffer[|text| + 1..]);
    }

    /** One record, as ReadFrom says; threw: memory ran out while unpacking. unset: what the character variable holds
        when nothing has been read into it. */
    method Read(input: InputStream, unset: byte) returns (ok: bool, threw: bool)
      requires Valid() && input.Valid()
      modifies this, mPath, mData, mInflater, mInflater.mInflate, input
      ensures Valid() && input.Valid() && (mInflater.mInflate == old(mInflater.mInflate) || fresh(mInflater.mInflate))
      ensures old(input.fail) ==> !ok && !threw && input.fail && mMetrics == old(mMetrics)
      ensures !old(input.fail) ==>
        var (answer, r) := ReadFrom(Process, input.data, Progress(old(input.pos), old(mMetrics), []));
        Gives(input, (answer, r), unset, ok, threw)
    {
      ok, threw := false, false;
      ghost var at := Progress(input.pos, mMetrics, []);
      ghost var goal := ReadFrom(Process, input.data, at);
      hide ReadFrom, Process;
      while !ok && !threw && !input.fail
        invariant Valid() && input.Valid()
        invariant mInflater.mInflate == old(mInflater.mInflate) || fresh(mInflater.mInflate)
        invariant old(input.fail) ==> !ok && !threw && input.fail && mMetrics == old(mMetrics)
        invariant !old(input.fail) ==> Pending(input, at, goal, ok, threw) || Gives(input, goal, unset, ok, threw)
        decreases if ok || threw || input.fail then 0 else 1 + |input.data| - input.pos
      {
        ok, threw, at := TryRead(input, unset, at);
      }
    }

    /** No answer yet: what is left to read from here decides. */
    ghost predicate Pending(input: InputStream, at: Progress, goal: (Answer<Document>, Progress), ok: bool, threw: bool)
      requires Valid()
      reads this, mInflater, mInflater.mInflate, input
    {
      !ok && !threw && input.Good() && at.pos == input.pos <= |input.data| && at.counts == mMetrics &&
      goal == ReadFrom(Process, input.data, at)
    }

    /** Finds one frame and processes it. */
    method TryRead(input: InputStream, unset: byte, ghost at: Progress)
      returns (ok: bool, threw: bool, ghost next: Progress)
      requires Valid() && input.Valid() && input.Good() && at.pos == input.pos && at.counts == mMetrics
      modifies this, mPath, mData, mInflater, mInflater.mInflate, input
      ensures Valid() && input.Valid() && (mInflater.mInflate == old(mInflater.mInflate) || fresh(mInflater.mInflate))
      ensures var goal := ReadFrom(Process, input.data, at);
        || (Pending(input, next, goal, ok, threw) && at.pos < next.pos)
        || ((ok || threw || input.fail) && Gives(input, goal, unset, ok, threw))
    {
      ok, threw, next := false, false, at;
      ReadOn(Process, input.data, at);
      hide StepAt, Scan, ReadFrom, Process, Pow256, CString, InputStream.Valid;
      var whole := FindFrame(input, unset, at);
      if !whole { return; }
      ghost var frame := StepAt(input.data, Scan(input.data, at).pos).frame;
      assert mData[..mDataLength] == frame.data by {
        assert mData[..mDataLength] == mData[..mDataLength + 1][..mDataLength];
      }
      label Before:
      ok, threw := ProcessRecord();
      assert mPath[..mPathLength + 1] == old@Before(mPath[..mPathLength + 1]);
      if !ok && !threw {
        next := AfterFailure(TakeFrame(Scan(input.data, at), frame), Process(frame.data));
      }
    }

    /** Finds one frame and has its path and data in the buffers, or the stream has ended. */
    method FindFrame(input: InputStream, unset: byte, ghost at: Progress) returns (whole: bool)
      requires Valid() && input.Valid() && input.Good() && at.pos == input.pos && at.counts == mMetrics
      modifies this`mPathLength, this`mDataLength, this`mTimestamp, this`mMetrics, mPath, mData, input
      ensures Valid() && input.Valid()
      ensures var here := Scan(input.data, at);
        var step := StepAt(input.data, here.pos);
        if whole then step.Framed? && input.Good() && input.pos == here.pos + Size(step.frame) &&
                      InBuffers(step.frame) && mMetrics == here.counts
        else step.Stop? && input.fail && EndCounts(here.counts, step.atEnd, unset, mMetrics)
    {
      hide StepAt, Scan, HeaderAt, HeaderStarts, Pow256, InputStream.Valid;
      whole := FindRecord(input, unset, at.frames);
      ghost var here := Scan(input.data, at);
      NoHeader(input.data, here.pos);
      if whole { whole := TakeBody(input, here.pos); }
    }

    /** Path and data, each ended by a NUL in its buffer. */
    method TakeBody(input: InputStream, ghost q: nat) returns (whole: bool)
      requires Valid() && input.Valid() && AtBody(input, q)
      modifies mPath, mData, input
      ensures Valid() && input.Valid()
      ensures var step := StepAt(input.data, q);
        && whole == step.Framed? && !Skips(step) && (!whole ==> step == Stop(false) && input.fail)
        && (whole ==> input.Good() && input.pos == q + Size(step.frame) && InBuffers(step.frame))
    {
      HeaderFits(input.data, q + 1);
      ReadBody(input.data, q);
      hide LittleEndian, InputStream.Valid, HeaderAt, Pow256;
      whole := ReadText(input, mPath, mPathLength);
      if !whole { return; }
      ghost var path := mPath[..mPathLength + 1];
      whole := ReadText(input, mData, mDataLength);
      assert mPath[..mPathLength + 1] == path;
    }

    /** n bytes and a NUL behind them. */
    method ReadText(input: InputStream, buffer: array<byte>, n: nat) returns (whole: bool)
      requires input.Valid() && input.Good() && n < buffer.Length
      modifies buffer, input
      ensures input.Valid() && whole == (old(input.pos) + n <= |input.data|)
      ensures if whole then input.Good() && input.pos == old(input.pos) + n &&
                            buffer[..n + 1] == input.data[old(input.pos)..input.pos] + [0]
              else input.fail
    {
      hide InputStream.Valid;
      input.Read(buffer, n);
      if !input.Good() { return false; }
      buffer[n] := 0;
      whole := true;
    }

    ghost predicate InBuffers(frame: Frame)
      reads this, mPath, mData
    {
      mPathLength == |frame.path| < mPath.Length && mPath[..mPathLength + 1] == frame.path + [0] &&
      mDataLength == |frame.data| < mData.Length && mData[..mDataLength + 1] == frame.data + [0] &&
      mTimestamp == frame.timestamp
    }

    /** What an answer means for the caller. */
    ghost predicate Delivers(input: InputStream, answer: Answer<Document>, r: Progress, unset: byte, ok: bool,
        threw: bool)
      reads this, mPath, input
    {
      match answer
      case Found(frame, d) =>
        && ok && !threw && input.Good() && input.pos == r.pos && mMetrics == r.counts
        && mPathLength == |frame.path| < mPath.Length && mPath[..mPathLength + 1] == frame.path + [0]
        && mTimestamp == frame.timestamp && mDocument == Some(d)
      case Ended(atEnd) => !ok && !threw && input.fail && EndCounts(r.counts, atEnd, unset, mMetrics)
      case Exhausted(_) => !ok && threw
    }

    /** The answer, unless memory does not hold every payload and has run out before it. */
    ghost predicate Gives(input: InputStream, goal: (Answer<Document>, Progress), unset: byte, ok: bool, threw: bool)
      reads this, mPath, input
    {
      Delivers(input, goal.0, goal.1, unset, ok, threw) || (!ok && threw && !RoomFor(zlib, memory))
    }

    /** The counts since the last report, as the fields of a message; bits is the double of a count. */
    method GetMetrics(msg: MessageParser.MessageObject, bits: nat -> nat)
      requires msg.Valid() && msg.desc == Descriptors.MESSAGE && Codec.MessageOk(Descriptors.MESSAGE, msg.Value())
      requires forall n :: bits(n) < 0x1_0000_0000_0000_0000
      modifies this`mMetrics, msg
      ensures M.Reports(msg, MetricsOf(old(mMetrics), bits), old(msg.Value())) && mMetrics == ZERO
    {
      M.Report(msg, MetricsOf(mMetrics, bits));
      mMetrics := ZERO;
    }
  }

  function MetricsOf(c: Counters, bits: nat -> nat): seq<M.Metric> {
    [M.Named("Invalid Path Length", "count", bits(c.pathLength)),
     M.Named("Invalid Data Length", "count", bits(c.dataLength)),
     M.Named("Inflate Failures", "count", bits(c.inflate)),
     M.Named("Parse Failures", "count", bits(c.parse)),
     M.Named("Corrupt Data", "B", bits(c.corrupt))]
  }

  /** Each count is reported under its own name. */
  lemma ReportedByName(c: Counters, bits: nat -> nat)
    ensures var ms := MetricsOf(c, bits);
      && M.IsReported(ms, "Invalid Path Length", bits(c.pathLength), "count")
      && M.IsReported(ms, "Invalid Data Length", bits(c.dataLength), "count")
      && M.IsReported(ms, "Inflate Failures", bits(c.inflate), "count")
      && M.IsReported(ms, "Parse Failures", bits(c.parse), "count")
      && M.IsReported(ms, "Corrupt Data", bits(c.corrupt), "B")
  {
    M.OtherName("Invalid Path Length", "Invalid Data Length", 8);
    hide M.Ascii;
    var ms := MetricsOf(c, bits);
    assert M.IsOnly(ms, M.Ascii("Invalid Path Length"), 0);
    assert M.IsOnly(ms, M.Ascii("Invalid Data Length"), 1);
    assert M.IsOnly(ms, M.Ascii("Inflate Failures"), 2);
    assert M.IsOnly(ms, M.Ascii("Parse Failures"), 3);
    assert M.IsOnly(ms, M.Ascii("Corrupt Data"), 4);
  }
}
