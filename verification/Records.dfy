/** The framing of a telemetry stream, as a function of the bytes. */
module Records {
  import opened Bytes

  const MAX_PATH := 10 * 1024
  const MAX_DATA := 200 * 1024
  const HEADER_SIZE := 14

  // ---- one header ----

  datatype Header = Header(pathLength: nat, dataLength: nat, timestamp: nat)

  datatype HeaderRead = Accepted(header: Header) | LongPath | LongData | Short

  /** What the bytes after a separator say; each word is looked at only if those before it are in order. */
  function HeaderAt(s: seq<byte>, p: nat): HeaderRead
    requires p <= |s|
  {
    if |s| < p + 2 then Short
    else if LittleEndian(s[p..p + 2]) > MAX_PATH then LongPath
    else if |s| < p + 6 then Short
    else if LittleEndian(s[p + 2..p + 6]) > MAX_DATA then LongData
    else if |s| < p + 14 then Short
    else Accepted(Header(LittleEndian(s[p..p + 2]), LittleEndian(s[p + 2..p + 6]), LittleEndian(s[p + 6..p + 14])))
  }

  predicate HeaderStarts(s: seq<byte>, q: nat) {
    q < |s| && s[q] == RECORD_SEPARATOR && HeaderAt(s, q + 1).Accepted?
  }

  // ---- one step of a scan ----

  datatype Frame = Frame(path: seq<byte>, data: seq<byte>, timestamp: nat)

  function Size(f: Frame): nat { 1 + HEADER_SIZE + |f.path| + |f.data| }

  datatype Step =
    | Garbage
    | RejectPath
    | RejectData
    | Framed(frame: Frame)
    | Stop(atEnd: bool)  // nothing left, or a header or body cut short

  predicate Skips(step: Step) { step.Garbage? || step.RejectPath? || step.RejectData? }

  function BodyStep(s: seq<byte>, body: nat, h: Header): (r: Step)
    requires body <= |s|
    ensures !Skips(r)
    ensures r.Framed? ==> body - 15 + Size(r.frame) <= |s|
  {
    if |s| < body + h.pathLength + h.dataLength then Stop(false)
    else Framed(Frame(s[body..body + h.pathLength],
                      s[body + h.pathLength..body + h.pathLength + h.dataLength], h.timestamp))
  }

  function StepAt(s: seq<byte>, p: nat): (r: Step)
    requires p <= |s|
    ensures r.Framed? ==> p + Size(r.frame) <= |s|
  {
    if p == |s| then Stop(true)
    else if s[p] != RECORD_SEPARATOR then Garbage
    else match HeaderAt(s, p + 1)
      case LongPath => RejectPath
      case LongData => RejectData
      case Short => Stop(false)
      case Accepted(h) => BodyStep(s, p + 15, h)
  }

  // ---- counters ----

  datatype Counters = Counters(pathLength: nat, dataLength: nat, inflate: nat, parse: nat, corrupt: nat)

  const ZERO := Counters(0, 0, 0, 0, 0)

  function Plus(a: Counters, b: Counters): Counters {
    Counters(a.pathLength + b.pathLength, a.dataLength + b.dataLength, a.inflate + b.inflate,
             a.parse + b.parse, a.corrupt + b.corrupt)
  }

  function SkipCount(step: Step): Counters
    requires Skips(step)
  {
    match step
    case Garbage => ZERO.(corrupt := 1)
    case RejectPath => ZERO.(pathLength := 1)
    case RejectData => ZERO.(dataLength := 1)
  }

  // ---- looking for a record ----

  /** Where a reader stands, what it has counted, and the frames it has read. */
  datatype Progress = Progress(pos: nat, counts: Counters, frames: seq<Frame>)

  function SkipOne(at: Progress, step: Step): Progress
    requires Skips(step)
  {
    at.(pos := at.pos + 1, counts := Plus(at.counts, SkipCount(step)))
  }

  /** Where the scan stops skipping. */
  function Scan(s: seq<byte>, at: Progress): (r: Progress)
    requires at.pos <= |s|
    ensures at.pos <= r.pos <= |s| && r.frames == at.frames
    ensures !Skips(StepAt(s, r.pos))
    decreases |s| - at.pos
  {
    var step := StepAt(s, at.pos);
    if Skips(step) then Scan(s, SkipOne(at, step)) else at
  }

  lemma ScanOn(s: seq<byte>, at: Progress)
    requires at.pos <= |s| && Skips(StepAt(s, at.pos))
    ensures at.pos < |s| && Scan(s, at) == Scan(s, SkipOne(at, StepAt(s, at.pos)))
  {
    hide HeaderAt;
  }

  lemma HitStopsScan(s: seq<byte>, at: Progress)
    requires at.pos <= |s|
    ensures HeaderStarts(s, at.pos) ==> !Skips(StepAt(s, at.pos))
    ensures !Skips(StepAt(s, at.pos)) ==> Scan(s, at) == at
  {
    hide HeaderAt;
  }

  /** A scan that runs off the end looks at a character that was never set; unless that happens to be a separator
      it is counted as corrupt. */
  predicate EndCounts(counts: Counters, atEnd: bool, unset: byte, after: Counters) {
    after == if atEnd && unset != RECORD_SEPARATOR then Plus(counts, SkipCount(Garbage)) else counts
  }

  // ---- what becomes of a payload ----

  datatype Outcome<+D> = Parsed(document: D) | BadInflate | BadJson | Exhausting

  function FailureCount<D>(o: Outcome<D>): Counters
    requires o.BadInflate? || o.BadJson?
  {
    if o.BadInflate? then ZERO.(inflate := 1) else ZERO.(parse := 1)
  }

  // ---- one call of Read ----

  datatype Answer<+D> = Found(frame: Frame, document: D) | Ended(atEnd: bool) | Exhausted(payload: seq<byte>)

  function TakeFrame(at: Progress, frame: Frame): Progress {
    at.(pos := at.pos + Size(frame), frames := at.frames + [frame])
  }

  function AfterFailure<D>(at: Progress, o: Outcome<D>): Progress
    requires o.BadInflate? || o.BadJson?
  {
    at.(counts := Plus(at.counts, FailureCount(o)))
  }

  function ReadFrom<D>(process: seq<byte> -> Outcome<D>, s: seq<byte>, at: Progress): (r: (Answer<D>, Progress))
    requires at.pos <= |s|
    ensures at.pos <= r.1.pos <= |s|
    ensures !r.0.Ended? ==> at.pos < r.1.pos
    decreases |s| - at.pos
  {
    var here := Scan(s, at);
    match StepAt(s, here.pos)
    case Framed(frame) =>
      var next := TakeFrame(here, frame);
      var o := process(frame.data);
      (match o
       case Parsed(d) => (Found(frame, d), next)
       case Exhausting => (Exhausted(frame.data), next)
       case _ => ReadFrom(process, s, AfterFailure(next, o)))
    case Stop(atEnd) => (Ended(atEnd), here)
  }

  lemma HeaderFits(s: seq<byte>, p: nat)
    requires p <= |s| && HeaderAt(s, p).Accepted?
    ensures var h := HeaderAt(s, p).header;
      h.pathLength <= MAX_PATH && h.dataLength <= MAX_DATA && p + HEADER_SIZE <= |s|
  {
  }

  lemma ReadBody(s: seq<byte>, q: nat)
    requires HeaderStarts(s, q)
    ensures StepAt(s, q) == BodyStep(s, q + 15, HeaderAt(s, q + 1).header)
  {
  }

  lemma NoHeader(s: seq<byte>, q: nat)
    requires q <= |s| && !Skips(StepAt(s, q))
    ensures !HeaderStarts(s, q) ==> StepAt(s, q) == Stop(q == |s|)
  {
    hide HeaderAt;
  }

  /** ReadFrom, one frame at a time. */
  lemma ReadOn<D>(process: seq<byte> -> Outcome<D>, s: seq<byte>, at: Progress)
    requires at.pos <= |s|
    ensures var here := Scan(s, at);
      var r := ReadFrom(process, s, at);
      match StepAt(s, here.pos)
      case Framed(frame) =>
        var next := TakeFrame(here, frame);
        (match process(frame.data)
         case Parsed(d) => r == (Found(frame, d), next)
         case Exhausting => r == (Exhausted(frame.data), next)
         case o => r == ReadFrom(process, s, AfterFailure(next, o)))
      case Stop(atEnd) => r == (Ended(atEnd), here)
      case _ => false
  {
    hide StepAt, Scan;
  }
}
