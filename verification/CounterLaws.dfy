/** What each counter counts, told from the bytes of the stream. */
module CounterLaws {
  import opened Bytes
  import opened Records
  import opened RecordLaws

  datatype Fault = Junk | BadPath | BadData

  /** Junk is a byte that is no separator; a bad path or bad data is a separator in front of a header whose length
      of a path is too large, or is in order and its length of data is too large. */
  predicate HasFault(fault: Fault, s: seq<byte>, i: nat) {
    match fault
    case Junk => i < |s| && s[i] != 0x1e
    case BadPath => i + 3 <= |s| && s[i] == 0x1e && LittleEndian(s[i + 1..i + 3]) > 10 * 1024
    case BadData => i + 7 <= |s| && s[i] == 0x1e && LittleEndian(s[i + 1..i + 3]) <= 10 * 1024 &&
                    LittleEndian(s[i + 3..i + 7]) > 200 * 1024
  }

  /** A search goes on at a place if and only if it has one of the faults. It stops at the end of the stream, at a
      header that is cut short, and at one with both lengths in order. */
  lemma StopsExactly(s: seq<byte>, p: nat)
    requires p <= |s|
    ensures Skips(StepAt(s, p)) <==> HasFault(Junk, s, p) || HasFault(BadPath, s, p) || HasFault(BadData, s, p)
    ensures HeaderStarts(s, p) <==>
      p + 15 <= |s| && !HasFault(Junk, s, p) && !HasFault(BadPath, s, p) && !HasFault(BadData, s, p)
  {
    hide LittleEndian;
    assert p + 1 + 2 == p + 3 && p + 1 + 6 == p + 7;
  }

  /** How many places from p up to q have the fault. */
  function CountIn(fault: Fault, s: seq<byte>, p: nat, q: nat): nat
    decreases q - p
  {
    if p >= q then 0 else (if HasFault(fault, s, p) then 1 else 0) + CountIn(fault, s, p + 1, q)
  }

  /** Each counter of rejections has risen by the faults of its own kind. */
  predicate Rose(s: seq<byte>, before: Counters, p: nat, q: nat, after: Counters) {
    after == Counters(
      before.pathLength + CountIn(BadPath, s, p, q),
      before.dataLength + CountIn(BadData, s, p, q),
      before.inflate,
      before.parse,
      before.corrupt + CountIn(Junk, s, p, q))
  }

  lemma OnePlace(s: seq<byte>, p: nat)
    ensures forall f: Fault {:trigger HasFault(f, s, p)} ::
      CountIn(f, s, p, p) == 0 && CountIn(f, s, p, p + 1) == if HasFault(f, s, p) then 1 else 0
  {
    forall f: Fault ensures CountIn(f, s, p, p) == 0 && CountIn(f, s, p, p + 1) == if HasFault(f, s, p) then 1 else 0 {
      assert CountIn(f, s, p + 1, p + 1) == 0;
    }
  }

  lemma SkipHasFault(s: seq<byte>, at: Progress)
    requires at.pos <= |s| && Skips(StepAt(s, at.pos))
    ensures at.pos < |s|
    ensures Rose(s, at.counts, at.pos, at.pos + 1, SkipOne(at, StepAt(s, at.pos)).counts)
  {
    hide LittleEndian, BodyStep;
    assert at.pos + 1 + 2 == at.pos + 3 && at.pos + 1 + 6 == at.pos + 7;
    OnePlace(s, at.pos);
    hide CountIn;
  }

  /** A scan from p to q counts the junk, the bad paths and the bad data between them, each under its own name. */
  lemma {:induction false} ScanCountsExactly(s: seq<byte>, at: Progress)
    requires at.pos <= |s|
    ensures Rose(s, at.counts, at.pos, Scan(s, at).pos, Scan(s, at).counts)
    decreases |s| - at.pos
  {
    var step := StepAt(s, at.pos);
    if Skips(step) {
      ScanOn(s, at);
      SkipHasFault(s, at);
      ScanCountsExactly(s, SkipOne(at, step));
      RoseTwice(s, at.counts, at.pos, SkipOne(at, step).counts, Scan(s, at).pos, Scan(s, at).counts);
    } else {
      assert CountIn(Junk, s, at.pos, at.pos) == CountIn(BadPath, s, at.pos, at.pos) == 0;
      assert CountIn(BadData, s, at.pos, at.pos) == 0;
    }
  }

  lemma RoseTwice(s: seq<byte>, before: Counters, p: nat, mid: Counters, q: nat, after: Counters)
    requires Rose(s, before, p, p + 1, mid) && Rose(s, mid, p + 1, q, after) && p < q
    ensures Rose(s, before, p, q, after)
  {
    hide HasFault;
    assert CountIn(Junk, s, p + 1, p + 1) == CountIn(BadPath, s, p + 1, p + 1) == 0;
    assert CountIn(BadData, s, p + 1, p + 1) == 0;
  }

  // ---- stretches and frames ----

  /** From where to where a stretch of the stream was scanned. */
  type Gap = (nat, nat)

  /** The stretches one Read scans. */
  function Gaps<D>(process: seq<byte> -> Outcome<D>, s: seq<byte>, at: Progress): seq<Gap>
    requires at.pos <= |s|
    decreases |s| - at.pos
  {
    var here := Scan(s, at);
    match StepAt(s, here.pos)
    case Framed(frame) =>
      var o := process(frame.data);
      [(at.pos, here.pos)] +
      (if o.BadInflate? || o.BadJson? then Gaps(process, s, AfterFailure(TakeFrame(here, frame), o)) else [])
    case _ => [(at.pos, here.pos)]
  }

  function CountInGaps(fault: Fault, s: seq<byte>, gaps: seq<Gap>): nat {
    if gaps == [] then 0 else CountIn(fault, s, gaps[0].0, gaps[0].1) + CountInGaps(fault, s, gaps[1..])
  }

  lemma {:induction false} CountInBoth(fault: Fault, s: seq<byte>, a: seq<Gap>, b: seq<Gap>)
    ensures CountInGaps(fault, s, a + b) == CountInGaps(fault, s, a) + CountInGaps(fault, s, b)
  {
    hide CountIn;
    if a == [] {
      assert a + b == b;
    } else {
      assert (a + b)[1..] == a[1..] + b;
      CountInBoth(fault, s, a[1..], b);
    }
  }

  function BadInflates<D>(process: seq<byte> -> Outcome<D>, frames: seq<Frame>): nat {
    if frames == [] then 0
    else (if process(frames[0].data).BadInflate? then 1 else 0) + BadInflates(process, frames[1..])
  }

  function BadJsons<D>(process: seq<byte> -> Outcome<D>, frames: seq<Frame>): nat {
    if frames == [] then 0
    else (if process(frames[0].data).BadJson? then 1 else 0) + BadJsons(process, frames[1..])
  }

  lemma {:induction false} BadInBoth<D>(process: seq<byte> -> Outcome<D>, a: seq<Frame>, b: seq<Frame>)
    ensures BadInflates(process, a + b) == BadInflates(process, a) + BadInflates(process, b)
    ensures BadJsons(process, a + b) == BadJsons(process, a) + BadJsons(process, b)
  {
    if a == [] {
      assert a + b == b;
    } else {
      assert (a + b)[1..] == a[1..] + b;
      BadInBoth(process, a[1..], b);
    }
  }

  /** From p to q the stream is stretches and frames by turns; a last stretch may have no frame behind it. */
  predicate Tiled(s: seq<byte>, gaps: seq<Gap>, frames: seq<Frame>, p: nat, q: nat)
    decreases |gaps|
  {
    if gaps == [] then frames == [] && p == q
    else
      gaps[0].0 == p <= gaps[0].1 <= |s| &&
      (if frames == [] then |gaps| == 1 && gaps[0].1 == q
       else StepAt(s, gaps[0].1) == Framed(frames[0]) &&
            Tiled(s, gaps[1..], frames[1..], gaps[0].1 + Size(frames[0]), q))
  }

  lemma {:induction false} TiledBoth(s: seq<byte>, a: seq<Gap>, f: seq<Frame>, b: seq<Gap>, g: seq<Frame>, p: nat,
      m: nat, q: nat)
    requires |a| == |f| && Tiled(s, a, f, p, m) && Tiled(s, b, g, m, q)
    ensures Tiled(s, a + b, f + g, p, q)
    decreases |a|
  {
    hide StepAt;
    if a == [] {
      assert a + b == b && f + g == g;
    } else {
      assert (a + b)[1..] == a[1..] + b && (f + g)[1..] == f[1..] + g;
      TiledBoth(s, a[1..], f[1..], b, g, a[0].1 + Size(f[0]), m, q);
    }
  }

  /** All five counters, by the faults in the stretches scanned and by what became of the frames. */
  ghost predicate CountedExactly<D>(process: seq<byte> -> Outcome<D>, s: seq<byte>, before: Counters, gaps: seq<Gap>,
      frames: seq<Frame>, after: Counters)
  {
    after == Counters(
      before.pathLength + CountInGaps(BadPath, s, gaps),
      before.dataLength + CountInGaps(BadData, s, gaps),
      before.inflate + BadInflates(process, frames),
      before.parse + BadJsons(process, frames),
      before.corrupt + CountInGaps(Junk, s, gaps))
  }

  lemma OneGap(fault: Fault, s: seq<byte>, gap: Gap)
    ensures CountInGaps(fault, s, [gap]) == CountIn(fault, s, gap.0, gap.1)
  {
    hide CountIn;
    assert [gap][1..] == [];
  }

  lemma CountedBoth<D>(process: seq<byte> -> Outcome<D>, s: seq<byte>, before: Counters, a: seq<Gap>, f: seq<Frame>,
      mid: Counters, b: seq<Gap>, g: seq<Frame>, after: Counters)
    requires CountedExactly(process, s, before, a, f, mid) && CountedExactly(process, s, mid, b, g, after)
    ensures CountedExactly(process, s, before, a + b, f + g, after)
  {
    forall fault ensures CountInGaps(fault, s, a + b) == CountInGaps(fault, s, a) + CountInGaps(fault, s, b) {
      CountInBoth(fault, s, a, b);
    }
    BadInBoth(process, f, g);
    hide CountInGaps, BadInflates, BadJsons;
  }

  lemma OneStretch<D>(process: seq<byte> -> Outcome<D>, s: seq<byte>, at: Progress)
    requires at.pos <= |s|
    ensures CountedExactly(process, s, at.counts, [(at.pos, Scan(s, at).pos)], [], Scan(s, at).counts)
  {
    ScanCountsExactly(s, at);
    forall fault ensures
      CountInGaps(fault, s, [(at.pos, Scan(s, at).pos)]) == CountIn(fault, s, at.pos, Scan(s, at).pos)
    {
      OneGap(fault, s, (at.pos, Scan(s, at).pos));
    }
    hide CountInGaps, CountIn, Scan;
  }

  lemma OneFrame<D>(process: seq<byte> -> Outcome<D>, s: seq<byte>, counts: Counters, frame: Frame)
    ensures var o := process(frame.data);
      && (o.BadInflate? ==> CountedExactly(process, s, counts, [], [frame], counts.(inflate := counts.inflate + 1)))
      && (o.BadJson? ==> CountedExactly(process, s, counts, [], [frame], counts.(parse := counts.parse + 1)))
      && (!o.BadInflate? && !o.BadJson? ==> CountedExactly(process, s, counts, [], [frame], counts))
  {
    assert [frame][1..] == [];
  }

  /** One Read: it scans its gaps, the frames between them are those it read, and each of the five counters has risen
      by what it is to count in them. */
  lemma {:induction false} ReadCountsExactly<D>(process: seq<byte> -> Outcome<D>, s: seq<byte>, at: Progress)
    returns (frames: seq<Frame>)
    requires at.pos <= |s|
    ensures var (answer, r) := ReadFrom(process, s, at);
      var gaps := Gaps(process, s, at);
      && r.frames == at.frames + frames
      && Tiled(s, gaps, frames, at.pos, r.pos)
      && |gaps| == |frames| + (if answer.Ended? then 1 else 0)
      && CountedExactly(process, s, at.counts, gaps, frames, r.counts)
    decreases |s| - at.pos
  {
    ReadOn(process, s, at);
    OneStretch(process, s, at);
    var here := Scan(s, at);
    var gap := (at.pos, here.pos);
    hide ReadFrom, Scan, StepAt, CountedExactly;
    if StepAt(s, here.pos).Framed? {
      var frame := StepAt(s, here.pos).frame;
      var o := process(frame.data);
      var next := TakeFrame(here, frame);
      OneFrame(process, s, here.counts, frame);
      if o.BadInflate? || o.BadJson? {
        var failed := AfterFailure(next, o);
        FailedOnce(next, o);
        CountedBoth(process, s, at.counts, [gap], [], here.counts, [], [frame], failed.counts);
        var more := ReadCountsExactly(process, s, failed);
        var gaps := Gaps(process, s, failed);
        frames := [frame] + more;
        OneTile(s, gap, frame);
        var end := ReadFrom(process, s, failed).1;
        CountedBoth(process, s, at.counts, [gap], [frame], failed.counts, gaps, more, end.counts);
        TiledBoth(s, [gap], [frame], gaps, more, at.pos, failed.pos, end.pos);
        Associate(at.frames, [frame], more);
      } else {
        frames := [frame];
        CountedBoth(process, s, at.counts, [gap], [], here.counts, [], [frame], here.counts);
        OneTile(s, gap, frame);
      }
    } else {
      frames := [];
      assert at.frames + [] == at.frames;
    }
  }

  lemma OneTile(s: seq<byte>, gap: Gap, frame: Frame)
    ensures [gap] + [] == [gap] && [] + [frame] == [frame]
    ensures gap.0 <= gap.1 <= |s| && StepAt(s, gap.1) == Framed(frame) ==>
      Tiled(s, [gap], [frame], gap.0, gap.1 + Size(frame))
  {
    hide StepAt;
    NoTiles(s, gap.1 + Size(frame));
    OneLess(gap);
    OneLess(frame);
  }

  lemma NoTiles(s: seq<byte>, p: nat)
    ensures Tiled(s, [], [], p, p)
  {
  }

  lemma OneLess<T>(x: T)
    ensures [x][1..] == [] && [x] + [] == [x] && [] + [x] == [x]
  {
  }

  lemma FailedOnce<D>(next: Progress, o: Outcome<D>)
    requires o.BadInflate? || o.BadJson?
    ensures AfterFailure(next, o).counts ==
      if o.BadInflate? then next.counts.(inflate := next.counts.inflate + 1)
      else next.counts.(parse := next.counts.parse + 1)
  {
  }

  // ---- over a reader's life ----

  function SumOf(reports: seq<Counters>): Counters {
    if reports == [] then ZERO else Plus(SumOf(reports[..|reports| - 1]), reports[|reports| - 1])
  }

  /** All that was ever counted, reported or not. */
  function Total<D>(life: Life<D>): Counters { Plus(SumOf(life.reports), life.at.counts) }

  /** The stretches scanned by all reads. */
  function LifeGaps<D>(process: seq<byte> -> Outcome<D>, s: seq<byte>, life: Life<D>, acts: seq<Act>): seq<Gap>
    requires life.at.pos <= |s|
    decreases |acts|
  {
    if acts == [] then []
    else match acts[0]
      case DoReport => LifeGaps(process, s, Report(life), acts[1..])
      case DoRead =>
        match ReadFrom(process, s, life.at)
        case (Found(frame, d), at) =>
          Gaps(process, s, life.at) + LifeGaps(process, s, Return(life, at, frame, d), acts[1..])
        case _ => []
  }

  lemma ReportKeepsTotal<D>(life: Life<D>)
    ensures Total(Report(life)) == Total(life) && Report(life).at.pos == life.at.pos
    ensures Report(life).at.frames == life.at.frames
  {
    assert (life.reports + [life.at.counts])[..|life.reports|] == life.reports;
  }

  lemma ShiftCounted<D>(process: seq<byte> -> Outcome<D>, s: seq<byte>, sum: Counters, before: Counters,
      gaps: seq<Gap>, frames: seq<Frame>, after: Counters)
    requires CountedExactly(process, s, before, gaps, frames, after)
    ensures CountedExactly(process, s, Plus(sum, before), gaps, frames, Plus(sum, after))
  {
    hide CountInGaps, BadInflates, BadJsons;
  }

  /** Over any run of reads and reports: what has been counted in all, reports added up, is counter by counter the
      faults of its kind in the stretches scanned and the failures of its kind among the frames read; and stretches
      and frames make up all that was read. */
  lemma {:induction false} LifeCountsExactly<D>(process: seq<byte> -> Outcome<D>, s: seq<byte>, life: Life<D>,
      acts: seq<Act>)
    returns (frames: seq<Frame>)
    requires life.at.pos <= |s| && Live(process, s, life, acts).Some?
    ensures var (r, gaps) := (Live(process, s, life, acts).value, LifeGaps(process, s, life, acts));
      && r.at.frames == life.at.frames + frames && |gaps| == |frames|
      && Tiled(s, gaps, frames, life.at.pos, r.at.pos)
      && CountedExactly(process, s, Total(life), gaps, frames, Total(r))
    decreases |acts|
  {
    hide ReadFrom, Gaps, Report, Total, CountedExactly, Tiled;
    if acts == [] {
      frames := [];
      NothingCountedYet(process, s, Total(life), life.at.pos);
      assert life.at.frames + [] == life.at.frames;
    } else {
      match acts[0]
      case DoReport =>
        ReportKeepsTotal(life);
        frames := LifeCountsExactly(process, s, Report(life), acts[1..]);
      case DoRead =>
        match ReadFrom(process, s, life.at)
        case (Found(frame, d), at) =>
          var first := ReadCountsExactly(process, s, life.at);
          var next := Return(life, at, frame, d);
          var more := LifeCountsExactly(process, s, next, acts[1..]);
          frames := first + more;
          var (a, b) := (Gaps(process, s, life.at), LifeGaps(process, s, next, acts[1..]));
          var r := Live(process, s, next, acts[1..]).value;
          TotalOfReturn(life, at, frame, d);
          ShiftCounted(process, s, SumOf(life.reports), life.at.counts, a, first, at.counts);
          CountedBoth(process, s, Total(life), a, first, Total(next), b, more, Total(r));
          TiledBoth(s, a, first, b, more, life.at.pos, at.pos, r.at.pos);
          Associate(life.at.frames, first, more);
        case _ =>
    }
  }

  lemma TotalOfReturn<D>(life: Life<D>, at: Progress, frame: Frame, d: D)
    ensures Total(life) == Plus(SumOf(life.reports), life.at.counts)
    ensures Total(Return(life, at, frame, d)) == Plus(SumOf(life.reports), at.counts)
  {
  }

  lemma NothingCountedYet<D>(process: seq<byte> -> Outcome<D>, s: seq<byte>, counts: Counters, p: nat)
    ensures Tiled(s, [], [], p, p) && CountedExactly(process, s, counts, [], [], counts)
  {
  }
}
