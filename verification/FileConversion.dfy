/** From a file of framed records to lines of converted documents. */
module FileConversion {
  import opened Bytes
  import opened DocumentConversion
  import opened HistogramCaches
  import opened HistogramSpecification
  import opened InputStreams
  import opened Json
  import opened RecordLaws
  import opened Records
  import opened TelemetryRecords
  import R = Revisions

  type Doc = seq<Member>

  /** A document as parsed, with the buffer its names point into. */
  datatype Source = Source(doc: Doc, behind: Behind)

  type Recovered = (Frame, Source)

  const TAB: byte := 9
  const NEWLINE: byte := 10
  const SLASH: byte := 47

  /** What surrounds a run: the cache's world, what the cache meets at each record, the JSON writer, and the schema's
      path for a document. */
  datatype Setting = Setting(w: R.World, visits: nat -> R.Visit, text: Doc -> seq<byte>, place: Doc -> string)

  /** A line and where it goes. */
  type Entry = (string, seq<byte>)

  /** The part of a path before its first slash. */
  function Uuid(path: seq<byte>): seq<byte> {
    if path == [] || path[0] == 0 || path[0] == SLASH then [] else [path[0]] + Uuid(path[1..])
  }

  function Line(e: Setting, path: seq<byte>, doc: Doc): seq<byte> {
    Uuid(path) + [TAB] + e.text(doc) + [NEWLINE]
  }

  /** A line is the characters of the path before a slash, if it has one, then a tab, the document, and a newline. */
  lemma LineExactly(e: Setting, uuid: seq<byte>, rest: seq<byte>, doc: Doc)
    requires 0 !in uuid && 47 !in uuid && (rest == [] || rest[0] == 47)
    ensures Line(e, uuid + rest, doc) == uuid + [9] + e.text(doc) + [10]
  {
    UuidOfPrefix(uuid + rest, |uuid|);
    assert (uuid + rest)[..|uuid|] == uuid;
  }

  /** cache: what the cache knows; processed and failed count records. */
  datatype Work = Work(cache: R.State, lines: seq<Entry>, dataOut: nat, processed: nat, failed: nat)

  /** One record. */
  ghost function Handle(e: Setting, work: Work, seen: nat, found: Recovered): Work {
    var (cache, doc, ok) := AttemptWith(e.w, work.cache, found.1.doc, e.visits(seen), found.1.behind);
    if ok then
      var line := Line(e, found.0.path, doc);
      Work(cache, work.lines + [(e.place(doc), line)], work.dataOut + |line|, work.processed + 1, work.failed)
    else
      Work(cache, work.lines, work.dataOut, work.processed + 1, work.failed + 1)
  }

  ghost function HandleAll(e: Setting, work: Work, seen: nat, found: seq<Recovered>): Work
    decreases |found|
  {
    if found == [] then work
    else HandleAll(e, Handle(e, work, seen, found[0]), seen + 1, found[1..])
  }

  class Counts {
    var mDataOut: nat
    var mRecordsProcessed: nat
    var mRecordsFailed: nat

    constructor ()
      ensures mDataOut == mRecordsProcessed == mRecordsFailed == 0
    {
      mDataOut, mRecordsProcessed, mRecordsFailed := 0, 0, 0;
    }
  }

  class RecordWriter {
    var written: seq<Entry>

    constructor ()
      ensures written == []
    {
      written := [];
    }
  }

  ghost function WorkOf(cache: HistogramCache, writer: RecordWriter, counts: Counts): Work
    reads cache, writer, counts
  {
    Work(cache.View(), writer.written, counts.mDataOut, counts.mRecordsProcessed, counts.mRecordsFailed)
  }

  lemma {:induction false} UuidOfPrefix(path: seq<byte>, n: nat)
    requires n <= |path| && forall i :: 0 <= i < n ==> path[i] != 0 && path[i] != SLASH
    requires n < |path| ==> path[n] == 0 || path[n] == SLASH
    ensures Uuid(path) == path[..n]
  {
    if n == 0 {
    } else {
      UuidOfPrefix(path[1..], n - 1);
      assert path[..n] == [path[0]] + path[1..][..n - 1];
    }
  }

  /** The characters before a slash or the end of the string. */
  method ExtractUuid(s: array<byte>, ghost path: seq<byte>) returns (sb: seq<byte>)
    requires |path| < s.Length && s[..|path| + 1] == path + [0]
    ensures sb == Uuid(path)
  {
    assert forall i :: 0 <= i < |path| ==> s[i] == s[..|path| + 1][i] == path[i];
    assert s[|path|] == s[..|path| + 1][|path|] == 0;
    sb := [];
    var x := 0;
    while s[x] != 0 && s[x] != SLASH
      invariant 0 <= x <= |path| && sb == path[..x]
      invariant forall i :: 0 <= i < x ==> path[i] != 0 && path[i] != SLASH
      decreases |path| - x
    {
      sb := sb + [s[x]];
      x := x + 1;
    }
    UuidOfPrefix(path, x);
  }

  /** What the answer of one Read has to do with all that is read from there on. */
  lemma ReadAllSplits(process: seq<byte> -> Outcome<Source>, s: seq<byte>, at: Progress, counts: Counters)
    requires at.pos <= |s|
    ensures var (answer, r) := ReadFrom(process, s, at);
      var (found, last) := ReadAll(process, s, at);
      match answer
      case Found(frame, d) =>
        var (rest, end) := ReadAll(process, s, Progress(r.pos, counts, []));
        found == [(frame, d)] + rest && last == end
      case _ => found == [] && last == answer
  {
    var (answer, r) := ReadFrom(process, s, at);
    if answer.Found? { ReadAllFromPlace(process, s, r, Progress(r.pos, counts, [])); }
    hide ReadFrom;
  }

  lemma HandleAllSplits(e: Setting, work: Work, seen: nat, first: Recovered, rest: seq<Recovered>)
    ensures HandleAll(e, work, seen, [first] + rest) == HandleAll(e, Handle(e, work, seen, first), seen + 1, rest)
    ensures HandleAll(e, work, seen, []) == work
  {
    assert ([first] + rest)[1..] == rest;
  }

  method HandleRecord(e: Setting, seen: nat, path: array<byte>, ghost frame: Frame, d: Source, cache: HistogramCache,
      writer: RecordWriter, counts: Counts)
    requires |frame.path| < path.Length && path[..|frame.path| + 1] == frame.path + [0]
    requires cache.Valid() && cache.w == e.w
    modifies cache, writer, counts
    ensures cache.Valid()
    ensures WorkOf(cache, writer, counts) == Handle(e, old(WorkOf(cache, writer, counts)), seen, (frame, d))
  {
    hide AttemptWith, HistogramCache.View, HistogramCache.Valid, Uuid;
    var document := new Document(d.doc);
    var converted := ConvertHistogramData(cache, document, e.visits(seen), d.behind);
    if converted {
      var sb := ExtractUuid(path, frame.path);
      sb := sb + [TAB] + e.text(document.members) + [NEWLINE];
      writer.written := writer.written + [(e.place(document.members), sb)];
      counts.mDataOut := counts.mDataOut + |sb|;
    } else {
      counts.mRecordsFailed := counts.mRecordsFailed + 1;
    }
    counts.mRecordsProcessed := counts.mRecordsProcessed + 1;
  }

  lemma {:induction false} HandleOneMore(e: Setting, work: Work, seen: nat, found: seq<Recovered>, last: Recovered)
    ensures HandleAll(e, work, seen, found + [last]) ==
            Handle(e, HandleAll(e, work, seen, found), seen + |found|, last)
    decreases |found|
  {
    hide Handle;
    if found == [] {
      assert [] + [last] == [last] && [last][1..] == [];
    } else {
      assert (found + [last])[1..] == found[1..] + [last];
      HandleOneMore(e, Handle(e, work, seen, found[0]), seen + 1, found[1..], last);
    }
  }

  /** Of all that can be read, handled have been dealt with and rest is still to come. */
  ghost predicate Handled(e: Setting, was: Work, now: Work, all: seq<Recovered>, n: nat, rest: seq<Recovered>) {
    n <= |all| && all[n..] == rest && now == HandleAll(e, was, 0, all[..n])
  }

  lemma NextHandled(e: Setting, was: Work, now: Work, all: seq<Recovered>, n: nat, first: Recovered,
      rest: seq<Recovered>)
    requires Handled(e, was, now, all, n, [first] + rest)
    ensures Handled(e, was, Handle(e, now, n, first), all, n + 1, rest)
  {
    assert all[n] == all[n..][0] == first;
    assert all[n + 1..] == all[n..][1..] == rest;
    assert all[..n + 1] == all[..n] + [first];
    HandleOneMore(e, was, 0, all[..n], first);
    hide Handle, HandleAll;
  }

  /** Handles the records that can be read, in order: all of them, unless memory runs out on one. data is None for a
      file that cannot be opened; it ends at once, and successfully if its size can be told. */
  method ProcessFile(e: Setting, data: Option<seq<byte>>, sizeKnown: bool, unset: byte, record: TelemetryRecord<Source>,
      cache: HistogramCache, writer: RecordWriter, counts: Counts) returns (ok: bool, ghost n: nat)
    requires record.Valid() && cache.Valid() && cache.w == e.w
    modifies record, record.mPath, record.mData, record.mInflater, record.mInflater.mInflate
    modifies cache, writer, counts
    ensures record.Valid() && cache.Valid()
    ensures data.None? ==> ok == sizeKnown && WorkOf(cache, writer, counts) == old(WorkOf(cache, writer, counts))
    ensures data.Some? ==>
      var (found, last) := ReadAll(record.Process, data.value, Progress(0, old(record.mMetrics), []));
      && n <= |found|
      && WorkOf(cache, writer, counts) == HandleAll(e, old(WorkOf(cache, writer, counts)), 0, found[..n])
      && (ok ==> n == |found| && !last.Exhausted? && sizeKnown)
      && (RoomFor(record.zlib, record.memory) ==> n == |found| && ok == (!last.Exhausted? && sizeKnown))
  {
    n := 0;
    if data.None? {
      var none := new InputStream.Unopened();
      var read, thrown := record.Read(none, unset);
      return sizeKnown, 0;
    }
    ok, n := ProcessStream(e, data.value, unset, record, cache, writer, counts);
    ok := ok && sizeKnown;
  }

  method ProcessStream(e: Setting, data: seq<byte>, unset: byte, record: TelemetryRecord<Source>, cache: HistogramCache,
      writer: RecordWriter, counts: Counts) returns (ok: bool, ghost n: nat)
    requires record.Valid() && cache.Valid() && cache.w == e.w
    modifies record, record.mPath, record.mData, record.mInflater, record.mInflater.mInflate
    modifies cache, writer, counts
    ensures record.Valid() && cache.Valid()
    ensures var (found, last) := ReadAll(record.Process, data, Progress(0, old(record.mMetrics), []));
      && n <= |found|
      && WorkOf(cache, writer, counts) == HandleAll(e, old(WorkOf(cache, writer, counts)), 0, found[..n])
      && (ok ==> n == |found| && !last.Exhausted?)
      && (RoomFor(record.zlib, record.memory) ==> n == |found| && ok == !last.Exhausted?)
  {
    hide ReadAll, ReadFrom, HandleAll, Handle, HistogramCache.View, HistogramCache.Valid, TelemetryRecord.Process;
    hide TelemetryRecord.Valid, InputStream.Valid, RoomFor, Handled;
    var file := new InputStream(data);
    var seen := 0;
    ghost var process, at := record.Process, Progress(0, record.mMetrics, []);
    ghost var all, work := ReadAll(process, data, at), WorkOf(cache, writer, counts);
    NothingHandled(e, work, all.0);
    var more, threw := record.Read(file, unset);
    ghost var read := ReadFrom(process, data, at);
    while more
      invariant file.Valid() && record.Valid() && cache.Valid() && file.data == data && record.Process == process
      invariant record.mInflater.mInflate == old(record.mInflater.mInflate) || fresh(record.mInflater.mInflate)
      invariant at.pos <= |data| && read == ReadFrom(process, data, at)
      invariant record.Gives(file, read, unset, more, threw)
      invariant ReadAll(process, data, at).1 == all.1
      invariant Handled(e, work, WorkOf(cache, writer, counts), all.0, seen, ReadAll(process, data, at).0)
      decreases |data| - at.pos
    {
      ghost var now := Progress(read.1.pos, record.mMetrics, []);
      ReadAllSplits(process, data, at, record.mMetrics);
      ghost var first, rest := (read.0.frame, read.0.document), ReadAll(process, data, now).0;
      NextHandled(e, work, WorkOf(cache, writer, counts), all.0, seen, first, rest);
      HandleRecord(e, seen, record.mPath, read.0.frame, record.mDocument.value, cache, writer, counts);
      seen := seen + 1;
      at := now;
      more, threw := record.Read(file, unset);
      read := ReadFrom(process, data, at);
    }
    ReadAllSplits(process, data, at, record.mMetrics);
    ok, n := !threw, seen;
    HandledSoFar(e, work, WorkOf(cache, writer, counts), all.0, seen, ReadAll(process, data, at).0);
  }

  lemma NothingHandled(e: Setting, work: Work, all: seq<Recovered>)
    ensures Handled(e, work, work, all, 0, all)
  {
  }

  lemma HandledSoFar(e: Setting, was: Work, now: Work, all: seq<Recovered>, n: nat, rest: seq<Recovered>)
    requires Handled(e, was, now, all, n, rest)
    ensures n <= |all| && now == HandleAll(e, was, 0, all[..n])
    ensures rest == [] ==> n == |all|
  {
    hide HandleAll;
  }

  // ---- what comes out ----

  function TotalLength(lines: seq<Entry>): nat {
    if lines == [] then 0 else TotalLength(lines[..|lines| - 1]) + |lines[|lines| - 1].1|
  }

  /** Every record is a line or a failure, and the bytes counted are those of the lines, whatever happened. */
  lemma {:induction false} CountsAddUp(e: Setting, work: Work, seen: nat, found: seq<Recovered>)
    requires work.processed == |work.lines| + work.failed && work.dataOut == TotalLength(work.lines)
    ensures var r := HandleAll(e, work, seen, found);
      && r.processed == work.processed + |found| == |r.lines| + r.failed
      && r.dataOut == TotalLength(r.lines)
      && work.lines <= r.lines
    decreases |found|
  {
    hide AttemptWith, Line;
    if found == [] {
    } else {
      var next := Handle(e, work, seen, found[0]);
      if next.lines != work.lines { assert next.lines[..|work.lines|] == work.lines; }
      CountsAddUp(e, next, seen + 1, found[1..]);
    }
  }

  /** The line a record should become, had it the converter and the server to itself. */
  ghost function Wanted(e: Setting, found: Recovered): Option<Entry> {
    var (doc, behind) := (found.1.doc, found.1.behind);
    if !Ready(doc) then None
    else
      var fresh_ := R.Fresh(e.w, Revision(doc));
      if fresh_.None? then None
      else
        var (r, ok) := Attempt(doc, Some(DefinitionsOf(Get(fresh_.value, "histograms").members)), behind);
        if ok then Some((e.place(r), Line(e, found.0.path, r))) else None
  }

  ghost function WantedLines(e: Setting, found: seq<Recovered>): seq<Entry> {
    if found == [] then []
    else
      (if Wanted(e, found[0]).Some? then [Wanted(e, found[0]).value] else []) + WantedLines(e, found[1..])
  }

  /** The server tells the truth whenever a record asks it. */
  ghost predicate Honest(e: Setting, seen: nat, found: seq<Recovered>) {
    forall i :: 0 <= i < |found| && Ready(found[i].1.doc) ==>
      R.Truthful(e.w, R.Call(Revision(found[i].1.doc), e.visits(seen + i)))
  }

  /** The record had to ask the server, and that went wrong. */
  ghost predicate Missed(e: Setting, cache: R.State, seen: nat, found: Recovered) {
    Ready(found.1.doc) && R.IsUrl(Revision(found.1.doc)) && Revision(found.1.doc) !in cache.revisions &&
    R.VisitFailed(cache.disk, R.Call(Revision(found.1.doc), e.visits(seen)))
  }

  /** The records for which nothing went wrong at the server. */
  ghost function Served(e: Setting, work: Work, seen: nat, found: seq<Recovered>): seq<Recovered>
    decreases |found|
  {
    if found == [] then []
    else
      (if Missed(e, work.cache, seen, found[0]) then [] else [found[0]]) +
      Served(e, Handle(e, work, seen, found[0]), seen + 1, found[1..])
  }

  lemma AttemptNothing(ms: Doc, behind: Behind)
    ensures Attempt(ms, None, behind) == (ms, false)
  {
  }

  lemma HandleIsWanted(e: Setting, work: Work, seen: nat, found: Recovered)
    requires R.Benign(e.w) && R.Sound(e.w, work.cache) && Honest(e, seen, [found])
    ensures var r := Handle(e, work, seen, found);
      && R.Sound(e.w, r.cache)
      && r.lines == work.lines +
           (if !Missed(e, work.cache, seen, found) && Wanted(e, found).Some? then [Wanted(e, found).value] else [])
  {
    hide R.Benign, R.Sound, R.Document, R.Find, R.VisitFailed, Attempt, Line, Ready;
    if Ready(found.1.doc) {
      var call := R.Call(Revision(found.1.doc), e.visits(seen));
      assert [found][0] == found && e.visits(seen + 0) == e.visits(seen);
      R.FindIsFresh(e.w, work.cache, call);
      if R.VisitFailed(work.cache.disk, call) && call.key !in work.cache.revisions {
        R.FailedIsUnanswered(e.w, work.cache, call);
      }
      AttemptNothing(found.1.doc, found.1.behind);
    }
  }

  /** The cache, and what it met before, do not show in the output: whatever fails at the server, the lines are those
      wanted of exactly the records for which it did not. */
  lemma {:induction false} CacheDoesNotShow(e: Setting, work: Work, seen: nat, found: seq<Recovered>)
    requires R.Benign(e.w) && R.Sound(e.w, work.cache) && Honest(e, seen, found)
    ensures HandleAll(e, work, seen, found).lines == work.lines + WantedLines(e, Served(e, work, seen, found))
    ensures R.Sound(e.w, HandleAll(e, work, seen, found).cache)
    decreases |found|
  {
    hide R.Benign, R.Sound, Handle, Wanted, Missed, Ready, R.Truthful;
    if found == [] {
    } else {
      HonestSplits(e, seen, found);
      HandleIsWanted(e, work, seen, found[0]);
      var next := Handle(e, work, seen, found[0]);
      CacheDoesNotShow(e, next, seen + 1, found[1..]);
      hide WantedLines, Served;
      ServedFirst(e, work, seen, found);
    }
  }

  lemma HonestSplits(e: Setting, seen: nat, found: seq<Recovered>)
    requires found != [] && Honest(e, seen, found)
    ensures Honest(e, seen, [found[0]]) && Honest(e, seen + 1, found[1..])
  {
    hide Ready, R.Truthful;
    assert [found[0]][0] == found[0];
    assert forall i :: 0 <= i < |found[1..]| ==> found[1..][i] == found[i + 1] && seen + 1 + i == seen + (i + 1);
  }

  lemma ServedFirst(e: Setting, work: Work, seen: nat, found: seq<Recovered>)
    requires found != []
    ensures var next := Handle(e, work, seen, found[0]);
      WantedLines(e, Served(e, work, seen, found)) ==
      (if !Missed(e, work.cache, seen, found[0]) && Wanted(e, found[0]).Some?
       then [Wanted(e, found[0]).value] else []) +
      WantedLines(e, Served(e, next, seen + 1, found[1..]))
  {
    hide Handle, Wanted, Missed;
    var rest := Served(e, Handle(e, work, seen, found[0]), seen + 1, found[1..]);
    assert ([found[0]] + rest)[1..] == rest && [] + rest == rest;
  }

  /** If the server never fails, all records are served. */
  lemma {:induction false} AllServed(e: Setting, work: Work, seen: nat, found: seq<Recovered>)
    requires forall i :: 0 <= i < |found| && Ready(found[i].1.doc) ==> !R.WentWrong(e.visits(seen + i))
    ensures Served(e, work, seen, found) == found
    decreases |found|
  {
    hide Handle, Ready, R.WentWrong;
    if found == [] {
    } else {
      assert e.visits(seen + 0) == e.visits(seen);
      assert forall i :: 0 <= i < |found[1..]| ==> found[1..][i] == found[i + 1] && seen + 1 + i == seen + (i + 1);
      AllServed(e, Handle(e, work, seen, found[0]), seen + 1, found[1..]);
      assert [found[0]] + found[1..] == found;
    }
  }

  /** End to end: of a file of records with rubbish between them, each record that can be unpacked, parsed and
      converted, and for which nothing went wrong at the server, comes out as its own line, in order, and nothing
      else does. */
  lemma EndToEnd(process: seq<byte> -> Outcome<Source>, e: Setting, work: Work, s: seq<byte>, items: seq<Item>,
      tail: seq<byte>, counts: Counters)
    requires Laid(s, 0, items, tail) && forall i :: 0 <= i < |items| ==> !process(items[i].frame.data).Exhausting?
    requires R.Benign(e.w) && R.Sound(e.w, work.cache) && Honest(e, 0, Readable(process, items))
    ensures var (found, last) := ReadAll(process, s, Progress(0, counts, []));
      && HandleAll(e, work, 0, found).lines ==
           work.lines + WantedLines(e, Served(e, work, 0, Readable(process, items)))
      && last.Ended?
  {
    hide Laid, R.Benign, R.Sound, Honest, HandleAll, WantedLines, Served, Readable, ReadAll;
    RoundTrip(process, s, Progress(0, counts, []), items, tail);
    CacheDoesNotShow(e, work, 0, Readable(process, items));
  }

  /** A converted document has the info object that the schema demands. */
  lemma ConvertedHasInfo(w: R.World, s: R.State, ms: Doc, visit: R.Visit, behind: Behind)
    requires AttemptWith(w, s, ms, visit, behind).2
    ensures Lookup(AttemptWith(w, s, ms, visit, behind).1, "info").Obj?
  {
    hide R.Find, Lookup, DefinitionsAt;
    var found := DefinitionsAt(w, R.Find(w, s, Revision(ms), visit).1);
    assert found.Some?;
    ConvertedOnce(found.value, ms, behind, "info");
    assert "info" != "ver" && "info" != "histograms";
  }
}
