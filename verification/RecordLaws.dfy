/** What reading a stream amounts to: the leftmost header, every byte accounted for, and what was written. */
module RecordLaws {
  import opened Bytes
  import opened Records

  // ---- leftmost match ----

  /** The scan stops at the first acceptable header; if it stops without one there is none further on, even
      when it gives up on a header that is cut short. */
  lemma {:induction false} ScanIsLeftmost(s: seq<byte>, at: Progress)
    requires at.pos <= |s|
    ensures var q := Scan(s, at).pos;
      && (forall i :: at.pos <= i < q ==> !HeaderStarts(s, i))
      && (!HeaderStarts(s, q) ==> forall i :: at.pos <= i ==> !HeaderStarts(s, i))
    decreases |s| - at.pos
  {
    var step := StepAt(s, at.pos);
    SkipIsNoHeader(s, at.pos);
    hide StepAt, HeaderAt, HeaderStarts;
    if Skips(step) {
      ScanIsLeftmost(s, SkipOne(at, step));
    } else if !HeaderStarts(s, at.pos) {
      StopMeansNone(s, at.pos);
    }
  }

  lemma SkipIsNoHeader(s: seq<byte>, p: nat)
    requires p <= |s|
    ensures Skips(StepAt(s, p)) ==> p < |s| && !HeaderStarts(s, p)
  {
    hide HeaderAt;
  }

  lemma StopMeansNone(s: seq<byte>, p: nat)
    requires p <= |s| && !Skips(StepAt(s, p)) && !HeaderStarts(s, p)
    ensures forall i :: p <= i ==> !HeaderStarts(s, i)
  {
    hide LittleEndian;
  }

  // ---- conservation ----

  function TotalSize(frames: seq<Frame>): nat {
    if frames == [] then 0 else TotalSize(frames[..|frames| - 1]) + Size(frames[|frames| - 1])
  }

  function Rejected(c: Counters): nat { c.corrupt + c.pathLength + c.dataLength }

  function Failed(c: Counters): nat { c.inflate + c.parse }

  function Accounted(at: Progress): nat { Rejected(at.counts) + TotalSize(at.frames) }

  lemma {:induction false} ScanConserves(s: seq<byte>, at: Progress)
    requires at.pos <= |s|
    ensures var r := Scan(s, at);
      r.pos - at.pos == Accounted(r) - Accounted(at) && Failed(r.counts) == Failed(at.counts)
    decreases |s| - at.pos
  {
    var step := StepAt(s, at.pos);
    hide StepAt;
    if Skips(step) { ScanConserves(s, SkipOne(at, step)); }
  }

  /** Every byte passed over is a rejected one or part of a frame, and every frame but the one returned was
      counted as a failure. */
  lemma {:induction false} ReadConserves<D>(process: seq<byte> -> Outcome<D>, s: seq<byte>, at: Progress)
    requires at.pos <= |s|
    ensures var (answer, r) := ReadFrom(process, s, at);
      && r.pos - at.pos == Accounted(r) - Accounted(at)
      && Failed(r.counts) - Failed(at.counts) + (if answer.Ended? then 0 else 1) == |r.frames| - |at.frames|
      && (answer.Found? ==> r.frames != [] && answer.frame == r.frames[|r.frames| - 1])
    decreases |s| - at.pos
  {
    ScanConserves(s, at);
    ReadOn(process, s, at);
    var here := Scan(s, at);
    match StepAt(s, here.pos)
    case Framed(frame) =>
      var next := TakeFrame(here, frame);
      assert next.frames[..|here.frames|] == here.frames;
      var o := process(frame.data);
      if o.BadInflate? || o.BadJson? {
        ReadConserves(process, s, AfterFailure(next, o));
      }
    case _ =>
  }

  /** The same at the end of the stream, for the counts the reader is left with: they account for every byte up to
      where it stopped, and for one that is not there exactly if that is the end of the stream and the unset
      character is no separator. */
  lemma EndConserves<D>(process: seq<byte> -> Outcome<D>, s: seq<byte>, at: Progress, unset: byte, left: Counters)
    requires at.pos <= |s| && ReadFrom(process, s, at).0.Ended?
    requires EndCounts(ReadFrom(process, s, at).1.counts, ReadFrom(process, s, at).0.atEnd, unset, left)
    ensures var (answer, r) := ReadFrom(process, s, at);
      var extra := Rejected(left) + TotalSize(r.frames) - Accounted(at) - (r.pos - at.pos);
      && extra == (if answer.atEnd && unset != RECORD_SEPARATOR then 1 else 0)
      && Failed(left) - Failed(at.counts) == |r.frames| - |at.frames|
      && (answer.atEnd ==> r.pos == |s|)
  {
    ReadConserves(process, s, at);
    StopsAtEnd(process, s, at);
    hide ReadFrom, TotalSize;
  }

  /** Concretely, reading an empty stream counts one corrupt byte. */
  lemma NothingCounted<D>(process: seq<byte> -> Outcome<D>, left: Counters)
    requires EndCounts(ReadFrom(process, [], Progress(0, ZERO, [])).1.counts, true, 0, left)
    ensures ReadFrom(process, [], Progress(0, ZERO, [])) == (Ended(true), Progress(0, ZERO, []))
    ensures left == ZERO.(corrupt := 1)
  {
    assert StepAt([], 0) == Stop(true);
    HitStopsScan([], Progress(0, ZERO, []));
    ReadOn(process, [], Progress(0, ZERO, []));
    hide ReadFrom, Scan;
  }

  lemma {:induction false} StopsAtEnd<D>(process: seq<byte> -> Outcome<D>, s: seq<byte>, at: Progress)
    requires at.pos <= |s|
    ensures var (answer, r) := ReadFrom(process, s, at); answer == Ended(true) ==> r.pos == |s|
    decreases |s| - at.pos
  {
    ReadOn(process, s, at);
    var here := Scan(s, at);
    hide ReadFrom, Scan, HeaderAt;
    if StepAt(s, here.pos).Framed? {
      var o := process(StepAt(s, here.pos).frame.data);
      if o.BadInflate? || o.BadJson? {
        StopsAtEnd(process, s, AfterFailure(TakeFrame(here, StepAt(s, here.pos).frame), o));
      }
    }
  }

  /** A reader's life: reads, with reports in between that reset the counters. */
  datatype Act = DoRead | DoReport

  datatype Life<D> = Life(at: Progress, reports: seq<Counters>, returned: seq<(Frame, D)>)

  function Report<D>(life: Life<D>): Life<D> {
    Life(life.at.(counts := ZERO), life.reports + [life.at.counts], life.returned)
  }

  function Return<D>(life: Life<D>, at: Progress, frame: Frame, d: D): Life<D> {
    Life(at, life.reports, life.returned + [(frame, d)])
  }

  /** None once a read returns nothing. */
  function Live<D>(process: seq<byte> -> Outcome<D>, s: seq<byte>, life: Life<D>, acts: seq<Act>): (r: Option<Life<D>>)
    requires life.at.pos <= |s|
    decreases |acts|
  {
    if acts == [] then Some(life)
    else match acts[0]
      case DoReport => Live(process, s, Report(life), acts[1..])
      case DoRead =>
        match ReadFrom(process, s, life.at)
        case (Found(frame, d), at) => Live(process, s, Return(life, at, frame, d), acts[1..])
        case _ => None
  }

  function SumRejected(reports: seq<Counters>): nat {
    if reports == [] then 0 else SumRejected(reports[..|reports| - 1]) + Rejected(reports[|reports| - 1])
  }

  function SumFailed(reports: seq<Counters>): nat {
    if reports == [] then 0 else SumFailed(reports[..|reports| - 1]) + Failed(reports[|reports| - 1])
  }

  predicate Balanced<D>(life: Life<D>, start: nat) {
    life.at.pos - start == SumRejected(life.reports) + Accounted(life.at) &&
    |life.at.frames| - |life.returned| == SumFailed(life.reports) + Failed(life.at.counts)
  }

  /** Byte conservation over any run of reads and reports: bytes consumed = bytes rejected, added up over all
      reports, + the sizes of all frames; frames not returned = inflate and parse failures. */
  lemma {:induction false} LifeIsBalanced<D>(process: seq<byte> -> Outcome<D>, s: seq<byte>, life: Life<D>,
      acts: seq<Act>, start: nat)
    requires life.at.pos <= |s| && Balanced(life, start)
    ensures var r := Live(process, s, life, acts); r.Some? ==> Balanced(r.value, start)
    decreases |acts|
  {
    hide ReadFrom, Balanced, Report, Return;
    if acts == [] {
    } else {
      match acts[0]
      case DoReport =>
        ReportKeepsBalance(life, start);
        LifeIsBalanced(process, s, Report(life), acts[1..], start);
      case DoRead =>
        match ReadFrom(process, s, life.at)
        case (Found(frame, d), at) =>
          ReadKeepsBalance(process, s, life, at, frame, d, start);
          LifeIsBalanced(process, s, Return(life, at, frame, d), acts[1..], start);
        case _ =>
    }
  }

  lemma ReportKeepsBalance<D>(life: Life<D>, start: nat)
    requires Balanced(life, start)
    ensures Report(life).at.pos == life.at.pos && Balanced(Report(life), start)
  {
    SumPush(life.reports, life.at.counts);
    hide SumRejected, SumFailed, TotalSize;
  }

  lemma SumPush(reports: seq<Counters>, c: Counters)
    ensures SumRejected(reports + [c]) == SumRejected(reports) + Rejected(c)
    ensures SumFailed(reports + [c]) == SumFailed(reports) + Failed(c)
  {
    assert (reports + [c])[..|reports|] == reports;
  }

  lemma ReadKeepsBalance<D>(process: seq<byte> -> Outcome<D>, s: seq<byte>, life: Life<D>, at: Progress, frame: Frame,
      d: D, start: nat)
    requires life.at.pos <= |s| && Balanced(life, start)
    requires ReadFrom(process, s, life.at) == (Found(frame, d), at)
    ensures Return(life, at, frame, d).at.pos <= |s| && Balanced(Return(life, at, frame, d), start)
  {
    ReadConserves(process, s, life.at);
    hide ReadFrom;
  }

  // ---- round trip ----

  predicate Writable(f: Frame) {
    |f.path| <= MAX_PATH && |f.data| <= MAX_DATA && f.timestamp < Pow256(8)
  }

  function Written(f: Frame): (bs: seq<byte>)
    ensures |bs| == Size(f)
  {
    [RECORD_SEPARATOR] + ToLittleEndian(|f.path|, 2) + ToLittleEndian(|f.data|, 4) +
    ToLittleEndian(f.timestamp, 8) + f.path + f.data
  }

  /** Any bytes, then a frame. */
  datatype Item = Item(garbage: seq<byte>, frame: Frame)

  function Layout(items: seq<Item>, tail: seq<byte>): seq<byte> {
    if items == [] then tail
    else items[0].garbage + Written(items[0].frame) + Layout(items[1..], tail)
  }

  /** From p on, s holds the items and the tail; each separator in garbage starts a header with an oversized
      length, wherever that header's bytes come from, and none in the tail starts an acceptable header. */
  ghost predicate Laid(s: seq<byte>, p: nat, items: seq<Item>, tail: seq<byte>)
    requires p <= |s|
    decreases |items|
  {
    s[p..] == Layout(items, tail) &&
    if items == [] then forall i :: p <= i ==> !HeaderStarts(s, i)
    else
      var q := p + |items[0].garbage|;
      var next := q + Size(items[0].frame);
      next <= |s| && Writable(items[0].frame) &&
      (forall i :: p <= i < q && s[i] == RECORD_SEPARATOR ==>
        HeaderAt(s, i + 1).LongPath? || HeaderAt(s, i + 1).LongData?) &&
      Laid(s, next, items[1..], tail)
  }

  function ReadAll<D>(process: seq<byte> -> Outcome<D>, s: seq<byte>, at: Progress): (r: (seq<(Frame, D)>, Answer<D>))
    requires at.pos <= |s|
    decreases |s| - at.pos
  {
    match ReadFrom(process, s, at)
    case (Found(frame, d), next) =>
      var (rest, last) := ReadAll(process, s, next);
      ([(frame, d)] + rest, last)
    case (last, _) => ([], last)
  }

  /** The frames whose payload can be processed. */
  function Readable<D>(process: seq<byte> -> Outcome<D>, items: seq<Item>): seq<(Frame, D)> {
    if items == [] then []
    else
      var rest := Readable(process, items[1..]);
      match process(items[0].frame.data)
      case Parsed(d) => [(items[0].frame, d)] + rest
      case _ => rest
  }

  lemma SkipRegion(s: seq<byte>, at: Progress, q: nat) returns (there: Progress)
    requires at.pos <= q <= |s|
    requires forall i :: at.pos <= i < q && s[i] == RECORD_SEPARATOR ==>
      HeaderAt(s, i + 1).LongPath? || HeaderAt(s, i + 1).LongData?
    ensures there.pos == q && Scan(s, at) == Scan(s, there)
    decreases q - at.pos
  {
    there := at;
    if at.pos < q {
      var step := StepAt(s, at.pos);
      assert Skips(step) by { hide HeaderAt; }
      ScanOn(s, at);
      there := SkipRegion(s, SkipOne(at, step), q);
    }
  }

  lemma SliceOf(s: seq<byte>, q: nat, w: seq<byte>, a: nat, b: nat)
    requires q + |w| <= |s| && s[q..q + |w|] == w && a <= b <= |w|
    ensures s[q + a..q + b] == w[a..b]
  {
    var t := s[q..q + |w|];
    forall i | a <= i < b ensures s[q + i] == w[i] {
      assert t[i] == w[i];
    }
  }

  lemma WrittenParts(f: Frame)
    ensures var w := Written(f);
      && w[0] == RECORD_SEPARATOR
      && w[1..3] == ToLittleEndian(|f.path|, 2) && w[3..7] == ToLittleEndian(|f.data|, 4)
      && w[7..15] == ToLittleEndian(f.timestamp, 8)
      && w[15..15 + |f.path|] == f.path && w[15 + |f.path|..] == f.data
  {
    hide ToLittleEndian;
  }

  lemma WrittenWords(s: seq<byte>, q: nat, f: Frame)
    requires Writable(f) && q + Size(f) <= |s| && s[q..q + Size(f)] == Written(f)
    ensures HeaderAt(s, q + 1) == Accepted(Header(|f.path|, |f.data|, f.timestamp))
  {
    hide LittleEndian, ToLittleEndian, Pow256, Written, HeaderAt;
    var w := Written(f);
    WrittenParts(f);
    SliceOf(s, q, w, 1, 3);
    SliceOf(s, q, w, 3, 7);
    SliceOf(s, q, w, 7, 15);
    WidthsSuffice();
    LittleEndianRoundTrip(|f.path|, 2);
    LittleEndianRoundTrip(|f.data|, 4);
    LittleEndianRoundTrip(f.timestamp, 8);
    HeaderOf(s, q, Header(|f.path|, |f.data|, f.timestamp));
  }

  lemma WidthsSuffice()
    ensures MAX_PATH < Pow256(2) && MAX_DATA < Pow256(4)
  {
    assert Pow256(2) == 65536 && Pow256(4) == 4294967296;
  }

  lemma HeaderOf(s: seq<byte>, q: nat, h: Header)
    requires q + 15 <= |s| && h.pathLength <= MAX_PATH && h.dataLength <= MAX_DATA
    requires LittleEndian(s[q + 1..q + 3]) == h.pathLength && LittleEndian(s[q + 3..q + 7]) == h.dataLength
    requires LittleEndian(s[q + 7..q + 15]) == h.timestamp
    ensures HeaderAt(s, q + 1) == Accepted(h)
  {
    hide LittleEndian;
    assert q + 1 + 2 == q + 3 && q + 1 + 6 == q + 7 && q + 1 + 14 == q + 15;
  }

  lemma WrittenBody(s: seq<byte>, q: nat, f: Frame)
    requires q + Size(f) <= |s| && s[q..q + Size(f)] == Written(f)
    ensures s[q] == RECORD_SEPARATOR
    ensures BodyStep(s, q + 15, Header(|f.path|, |f.data|, f.timestamp)) == Framed(f)
  {
    hide Written, ToLittleEndian;
    var w, n := Written(f), 15 + |f.path|;
    WrittenParts(f);
    SliceOf(s, q, w, 0, 1);
    assert s[q] == s[q + 0..q + 1][0] == w[0..1][0];
    SliceOf(s, q, w, 15, n);
    SliceOf(s, q, w, n, |w|);
    PartsAfter(s, q, n, |w|);
    assert s[q + 15..q + 15 + |f.path|] == f.path;
    assert s[q + 15 + |f.path|..q + 15 + |f.path| + |f.data|] == f.data;
  }

  lemma PartsAfter(s: seq<byte>, q: nat, n: nat, end: nat)
    requires 15 <= n <= end && q + end <= |s|
    ensures s[q + 15..q + n] == s[q + 15..q + 15 + (n - 15)]
    ensures s[q + n..q + end] == s[q + 15 + (n - 15)..q + 15 + (n - 15) + (end - n)]
  {
  }

  lemma WrittenHeader(s: seq<byte>, q: nat, f: Frame)
    requires Writable(f) && q + Size(f) <= |s| && s[q..q + Size(f)] == Written(f)
    ensures StepAt(s, q) == Framed(f)
  {
    WrittenWords(s, q, f);
    WrittenBody(s, q, f);
    hide HeaderAt, BodyStep, Written;
    ReadBody(s, q);
  }

  /** A frame in bytes: separator, the two lengths and the timestamp, least significant bytes first, path, data. */
  lemma ExampleFrame()
    ensures var f := Frame([0x61, 0x2f, 0x62], [0x7b, 0x7d], 0x0201);
      var s: seq<byte> := [0x1e, 3, 0, 2, 0, 0, 0, 1, 2, 0, 0, 0, 0, 0, 0, 0x61, 0x2f, 0x62, 0x7b, 0x7d];
      Written(f) == s && StepAt(s, 0) == Framed(f)
  {
    var path, data: seq<byte> := [0x61, 0x2f, 0x62], [0x7b, 0x7d];
    var f := Frame(path, data, 0x0201);
    hide ToLittleEndian, StepAt, Pow256;
    ExampleWords();
    ExampleBytes(path, data);
    assert Written(f) == [0x1e] + [3, 0] + [2, 0, 0, 0] + [1, 2, 0, 0, 0, 0, 0, 0] + path + data;
    WholeSlice(Written(f));
    hide Written;
    WrittenHeader(Written(f), 0, f);
  }

  lemma ExampleBytes(path: seq<byte>, data: seq<byte>)
    requires path == [0x61, 0x2f, 0x62] && data == [0x7b, 0x7d]
    ensures [0x1e as byte] + [3, 0] + [2, 0, 0, 0] + [1, 2, 0, 0, 0, 0, 0, 0] + path + data ==
            [0x1e, 3, 0, 2, 0, 0, 0, 1, 2, 0, 0, 0, 0, 0, 0, 0x61, 0x2f, 0x62, 0x7b, 0x7d]
  {
  }

  lemma WholeSlice(s: seq<byte>)
    ensures s[0..0 + |s|] == s
  {
  }

  lemma ExampleWords()
    ensures ToLittleEndian(3, 2) == [3, 0] && ToLittleEndian(2, 4) == [2, 0, 0, 0]
    ensures ToLittleEndian(0x0201, 8) == [1, 2, 0, 0, 0, 0, 0, 0] && 0x0201 < Pow256(8)
  {
    assert ToLittleEndian(2, 7) == [2, 0, 0, 0, 0, 0, 0];
    assert ToLittleEndian(0x0201, 8) == [1] + ToLittleEndian(2, 7);
    assert Pow256(8) == 256 * Pow256(7) && Pow256(7) == 256 * Pow256(6) && Pow256(6) > 0;
  }

  /** Resynchronising round trip: whatever lies between them, and although paths and data may hold separators,
      exactly the readable frames come back, in order, and then false. */
  lemma {:induction false} RoundTrip<D>(process: seq<byte> -> Outcome<D>, s: seq<byte>, at: Progress, items: seq<Item>,
      tail: seq<byte>)
    requires at.pos <= |s| && Laid(s, at.pos, items, tail)
    requires forall i :: 0 <= i < |items| ==> !process(items[i].frame.data).Exhausting?
    ensures ReadAll(process, s, at).0 == Readable(process, items)
    ensures ReadAll(process, s, at).1.Ended?
    decreases |items|
  {
    hide ReadFrom, Laid, Layout, Written, Scan, StepAt, HeaderAt, HeaderStarts, LittleEndian;
    if items == [] {
      NothingLeft(process, s, at, tail);
    } else {
      hide ReadAll;
      var frame := items[0].frame;
      var there := FirstFrame(s, at, items, tail);
      LaidRest(s, at.pos, items, tail);
      var next := NextAnswer(process, s, at, frame);
      if process(frame.data).Parsed? {
        ReadAllFound(process, s, at, next, frame, process(frame.data).document);
      } else {
        ReadAllAfter(process, s, at, next);
      }
      RoundTrip(process, s, next, items[1..], tail);
    }
  }

  lemma NothingLeft<D>(process: seq<byte> -> Outcome<D>, s: seq<byte>, at: Progress, tail: seq<byte>)
    requires at.pos <= |s| && Laid(s, at.pos, [], tail)
    ensures ReadFrom(process, s, at).0.Ended?
  {
    ReadOn(process, s, at);
    NoHeader(s, Scan(s, at).pos);
    hide ReadFrom, StepAt, HeaderAt, HeaderStarts, Scan;
  }

  /** The first frame decides the next answer, or is counted as a failure. */
  lemma NextAnswer<D>(process: seq<byte> -> Outcome<D>, s: seq<byte>, at: Progress, frame: Frame)
    returns (next: Progress)
    requires at.pos <= |s| && StepAt(s, Scan(s, at).pos) == Framed(frame) && !process(frame.data).Exhausting?
    ensures next.pos == Scan(s, at).pos + Size(frame) <= |s|
    ensures if process(frame.data).Parsed?
      then ReadFrom(process, s, at) == (Found(frame, process(frame.data).document), next)
      else ReadFrom(process, s, at) == ReadFrom(process, s, next)
  {
    ReadOn(process, s, at);
    next := TakeFrame(Scan(s, at), frame);
    hide ReadFrom, StepAt, Scan;
    var o := process(frame.data);
    if !o.Parsed? { next := AfterFailure(next, o); }
  }

  lemma ReadAllFound<D>(process: seq<byte> -> Outcome<D>, s: seq<byte>, at: Progress, next: Progress, frame: Frame,
      d: D)
    requires at.pos <= |s| && ReadFrom(process, s, at) == (Found(frame, d), next)
    ensures next.pos <= |s|
    ensures ReadAll(process, s, at) == ([(frame, d)] + ReadAll(process, s, next).0, ReadAll(process, s, next).1)
  {
    hide ReadFrom;
  }

  lemma LaidRest(s: seq<byte>, p: nat, items: seq<Item>, tail: seq<byte>)
    requires p <= |s| && items != [] && Laid(s, p, items, tail)
    ensures var next := p + |items[0].garbage| + Size(items[0].frame);
      next <= |s| && Laid(s, next, items[1..], tail)
  {
    hide Layout, HeaderAt;
  }

  lemma FirstFrame(s: seq<byte>, at: Progress, items: seq<Item>, tail: seq<byte>) returns (there: Progress)
    requires at.pos <= |s| && items != [] && Laid(s, at.pos, items, tail)
    ensures there == Scan(s, at) && there.pos == at.pos + |items[0].garbage|
    ensures StepAt(s, there.pos) == Framed(items[0].frame)
  {
    var q := at.pos + |items[0].garbage|;
    LayoutHead(s, at.pos, items, tail);
    hide Layout, Written, StepAt, Scan, HeaderAt, HeaderStarts, Pow256;
    there := SkipRegion(s, at, q);
    WrittenHeader(s, q, items[0].frame);
    HitStopsScan(s, there);
  }

  lemma LayoutHead(s: seq<byte>, p: nat, items: seq<Item>, tail: seq<byte>)
    requires p <= |s| && items != [] && s[p..] == Layout(items, tail)
    ensures var q := p + |items[0].garbage|;
      q + Size(items[0].frame) <= |s| && s[q..q + Size(items[0].frame)] == Written(items[0].frame)
  {
    var g, w, rest := items[0].garbage, Written(items[0].frame), Layout(items[1..], tail);
    hide Written, Layout;
    assert s[p..] == g + w + rest;
    SliceOf(s, p, s[p..], |g|, |g| + |w|);
  }

  lemma ReadAllAfter<D>(process: seq<byte> -> Outcome<D>, s: seq<byte>, at: Progress, next: Progress)
    requires at.pos <= |s| && next.pos <= |s| && ReadFrom(process, s, at) == ReadFrom(process, s, next)
    ensures ReadAll(process, s, at) == ReadAll(process, s, next)
  {
    hide ReadFrom;
  }

  // ---- only the place matters ----

  lemma {:induction false} ScanFromPlace(s: seq<byte>, a: Progress, b: Progress)
    requires a.pos == b.pos <= |s|
    ensures Scan(s, a).pos == Scan(s, b).pos
    decreases |s| - a.pos
  {
    var step := StepAt(s, a.pos);
    if Skips(step) {
      ScanOn(s, a);
      ScanOn(s, b);
    }
    hide StepAt;
    if Skips(step) { ScanFromPlace(s, SkipOne(a, step), SkipOne(b, step)); }
  }

  lemma {:induction false} ReadFromPlace<D>(process: seq<byte> -> Outcome<D>, s: seq<byte>, a: Progress, b: Progress)
    requires a.pos == b.pos <= |s|
    ensures ReadFrom(process, s, a).0 == ReadFrom(process, s, b).0
    ensures ReadFrom(process, s, a).1.pos == ReadFrom(process, s, b).1.pos
    decreases |s| - a.pos
  {
    ScanFromPlace(s, a, b);
    ReadOn(process, s, a);
    ReadOn(process, s, b);
    hide ReadFrom, Scan, StepAt;
    match StepAt(s, Scan(s, a).pos)
    case Framed(frame) =>
      var o := process(frame.data);
      if o.BadInflate? || o.BadJson? {
        ReadFromPlace(process, s, AfterFailure(TakeFrame(Scan(s, a), frame), o),
          AfterFailure(TakeFrame(Scan(s, b), frame), o));
      }
    case _ =>
  }

  /** What was read and counted before, and whether it was reported, is of no matter to what is read. */
  lemma {:induction false} ReadAllFromPlace<D>(process: seq<byte> -> Outcome<D>, s: seq<byte>, a: Progress, b: Progress)
    requires a.pos == b.pos <= |s|
    ensures ReadAll(process, s, a) == ReadAll(process, s, b)
    decreases |s| - a.pos
  {
    ReadFromPlace(process, s, a, b);
    hide ReadFrom;
    if ReadFrom(process, s, a).0.Found? {
      ReadAllFromPlace(process, s, ReadFrom(process, s, a).1, ReadFrom(process, s, b).1);
    }
  }
}
