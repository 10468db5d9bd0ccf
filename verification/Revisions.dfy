/** Histogram specifications by revision: what the cache knows, and what it may answer. */
module Revisions {
  import opened Bytes
  import opened HistogramSpecification
  import opened Json

  /** What does not change: the server's answers, the keys asked for, the JSON parser, the digest. */
  datatype World = World(
    site: string -> Option<string>,
    asked: string -> bool,
    parse: string -> Option<Value>,
    digest: string -> string)

  /** body is None if the connection fails in it. One that is closed in mid body counts as the end of the text. */
  datatype Reply = Unreachable | NotHttp | Answer(status: nat, body: Option<string>)

  datatype Saving = Written | NotWritten | Raised

  /** What one call meets outside, should it get that far. */
  datatype Visit = Visit(reply: Reply, saving: Saving)

  datatype Metrics = Metrics(
    connectionErrors: nat, httpErrors: nat, invalidHistograms: nat,
    invalidRevisions: nat, cacheHits: nat, cacheMisses: nat)

  const ZERO := Metrics(0, 0, 0, 0, 0, 0)

  /**
   * A specification is named by the text it was made from. revisions holds None for a revision the server
   * does not have; texts is by digest; disk is by file name.
   */
  datatype State = State(
    revisions: map<string, Option<string>>,
    texts: map<string, string>,
    disk: map<string, string>,
    metrics: Metrics)

  predicate IsUrl(key: string) { "http" <= key }

  function TmpName(key: string): string {
    seq(|key|, i requires 0 <= i < |key| => if key[i] == '/' then '-' else key[i]) + ".json"
  }

  /** A file read character by character loses its white space. */
  function Strip(text: string): (r: string)
    ensures forall i :: 0 <= i < |r| ==> !IsSpace(r[i])
  {
    if text == "" then ""
    else if IsSpace(text[0]) then Strip(text[1..])
    else [text[0]] + Strip(text[1..])
  }

  /** The document a specification is made from; None if there can be no specification. */
  function Document(w: World, text: string): Option<Value> {
    var doc := w.parse(text);
    if doc.Some? && doc.value.Obj? && Get(doc.value, "histograms").Obj? &&
       AllAcceptable(Get(doc.value, "histograms").members)
    then doc else None
  }

  // ---- one call ----

  datatype Fetched = Json(text: string) | Refused | Garbled | Unsaved | Failed

  function Fetch(key: string, visit: Visit, disk: map<string, string>): Fetched {
    if TmpName(key) in disk then Json(Strip(disk[TmpName(key)]))
    else match visit.reply
      case Unreachable => Failed
      case NotHttp => Garbled
      case Answer(status, body) =>
        if status != 200 then Refused
        else if body.None? then Failed
        else if visit.saving.Raised? then Unsaved
        else Json(body.value)
  }

  function Saved(key: string, visit: Visit, disk: map<string, string>): map<string, string> {
    if TmpName(key) !in disk && visit.reply.Answer? && visit.reply.status == 200 && visit.reply.body.Some? &&
       visit.saving.Written?
    then disk[TmpName(key) := visit.reply.body.value] else disk
  }

  /** An entry that exists is not replaced. */
  function Insert<V>(m: map<string, V>, key: string, v: V): map<string, V> {
    if key in m then m else m[key := v]
  }

  /** Threw leaves both maps as they were. */
  function Load(w: World, s: State, key: string, visit: Visit): (State, Result<Option<string>>) {
    var d := s.(disk := Saved(key, visit, s.disk));
    match Fetch(key, visit, s.disk)
    case Failed => (d, Threw)
    case Garbled => (d.(metrics := s.metrics.(httpErrors := s.metrics.httpErrors + 1)), Ok(None))
    case Refused =>
      (d.(revisions := Insert(s.revisions, key, None),
          metrics := s.metrics.(httpErrors := s.metrics.httpErrors + 1)), Ok(None))
    case Unsaved =>
      (d.(metrics := s.metrics.(invalidHistograms := s.metrics.invalidHistograms + 1)), Ok(None))
    case Json(text) => Admit(w, d, key, text)
  }

  /** Equal texts lead to the specification made first. */
  function Admit(w: World, s: State, key: string, text: string): (State, Result<Option<string>>) {
    var k := w.digest(text);
    if k in s.texts then (s.(revisions := Insert(s.revisions, key, Some(s.texts[k]))), Ok(Some(s.texts[k])))
    else if Document(w, text).Some? then
      (s.(texts := s.texts[k := text], revisions := Insert(s.revisions, key, Some(text))), Ok(Some(text)))
    else (s, Threw)
  }

  function Find(w: World, s: State, key: string, visit: Visit): (State, Option<string>) {
    if !IsUrl(key) then
      (s.(metrics := s.metrics.(invalidRevisions := s.metrics.invalidRevisions + 1)), None)
    else if key in s.revisions then
      (s.(metrics := s.metrics.(cacheHits := s.metrics.cacheHits + 1)), s.revisions[key])
    else
      var (t, r) := Load(w, s.(metrics := s.metrics.(cacheMisses := s.metrics.cacheMisses + 1)), key, visit);
      if r.Threw? then (t.(metrics := t.metrics.(connectionErrors := t.metrics.connectionErrors + 1)), None)
      else (t, r.value)
  }

  // ---- runs ----

  datatype Call = Call(key: string, visit: Visit)

  function Run(w: World, s: State, calls: seq<Call>): State {
    if calls == [] then s
    else
      var last := calls[|calls| - 1];
      Find(w, Run(w, s, calls[..|calls| - 1]), last.key, last.visit).0
  }

  /** What a cache that remembers nothing would answer if nothing failed. */
  function Fresh(w: World, key: string): Option<Value> {
    if IsUrl(key) && w.site(key).Some? then Document(w, w.site(key).value) else None
  }

  /** The server answers the same at every visit. */
  predicate Truthful(w: World, call: Call) {
    w.asked(call.key) &&
    (call.visit.reply.Answer? ==>
      if call.visit.reply.status == 200
      then w.site(call.key).Some? && (call.visit.reply.body.Some? ==> call.visit.reply.body == w.site(call.key))
      else w.site(call.key).None?)
  }

  predicate AllTruthful(w: World, calls: seq<Call>) {
    forall i :: 0 <= i < |calls| ==> Truthful(w, calls[i])
  }

  predicate WentWrong(visit: Visit) {
    !visit.reply.Answer? || (visit.reply.status == 200 && (visit.reply.body.None? || visit.saving.Raised?))
  }

  /** The call had to visit the server, and the visit went wrong. */
  predicate VisitFailed(disk: map<string, string>, call: Call) {
    TmpName(call.key) !in disk && WentWrong(call.visit)
  }

  ghost predicate NoCollision(w: World) {
    forall a, b :: w.digest(a) == w.digest(b) ==> a == b
  }

  predicate SlashOrDash(c: char) { c == '/' || c == '-' }

  /** Keys of which one has slashes at most where the other has slashes or dashes. */
  predicate AlikeButSlashes(a: string, b: string) {
    |a| == |b| && forall i :: 0 <= i < |a| ==> a[i] == b[i] || (SlashOrDash(a[i]) && SlashOrDash(b[i]))
  }

  /** These are the keys that share a file. */
  lemma SameFileExactly(a: string, b: string)
    ensures TmpName(a) == TmpName(b) <==> AlikeButSlashes(a, b)
  {
    if TmpName(a) == TmpName(b) {
      assert |TmpName(a)| == |a| + 5 && |TmpName(b)| == |b| + 5;
      forall i | 0 <= i < |a| ensures a[i] == b[i] || (SlashOrDash(a[i]) && SlashOrDash(b[i])) {
        assert TmpName(a)[i] == TmpName(b)[i];
      }
    }
    if AlikeButSlashes(a, b) {
      assert TmpName(a)[..|a|] == TmpName(b)[..|b|];
    }
  }

  /** Keys that differ in nothing but slashes and dashes have the same specification. */
  ghost predicate NoClash(w: World) {
    forall a, b :: w.asked(a) && w.asked(b) && AlikeButSlashes(a, b) ==> w.site(a) == w.site(b)
  }

  /** No specification depends on its white space. */
  ghost predicate SpaceDoesNotMatter(w: World) {
    forall key :: w.asked(key) && w.site(key).Some? ==>
      Document(w, Strip(w.site(key).value)) == Document(w, w.site(key).value)
  }

  ghost predicate Benign(w: World) { NoCollision(w) && NoClash(w) && SpaceDoesNotMatter(w) }

  /** The answers agree on what revisions say, texts are found by their digest, and files hold what the server has. */
  ghost predicate Sound(w: World, s: State) {
    KnownOk(w, s.revisions, s.texts) && TextsOk(w, s.texts) && DiskOk(w, s.disk)
  }

  ghost predicate EntryOk(w: World, texts: map<string, string>, key: string, entry: Option<string>) {
    match entry
    case None => w.site(key).None?
    case Some(t) =>
      w.site(key).Some? && Document(w, t).Some? && Document(w, t) == Document(w, w.site(key).value) &&
      w.digest(t) in texts && texts[w.digest(t)] == t
  }

  ghost predicate KnownOk(w: World, revisions: map<string, Option<string>>, texts: map<string, string>) {
    forall key :: key in revisions ==> IsUrl(key) && EntryOk(w, texts, key, revisions[key])
  }

  ghost predicate TextsOk(w: World, texts: map<string, string>) {
    forall d :: d in texts ==> w.digest(texts[d]) == d && Document(w, texts[d]).Some?
  }

  ghost predicate DiskOk(w: World, disk: map<string, string>) {
    forall key :: w.asked(key) && TmpName(key) in disk ==> w.site(key) == Some(disk[TmpName(key)])
  }

  // ---- laws of one call ----

  lemma SavingKeepsDisk(w: World, disk: map<string, string>, call: Call)
    requires NoClash(w) && Truthful(w, call) && DiskOk(w, disk)
    ensures DiskOk(w, Saved(call.key, call.visit, disk))
  {
    forall key ensures TmpName(key) == TmpName(call.key) <==> AlikeButSlashes(key, call.key) {
      SameFileExactly(key, call.key);
    }
    hide TmpName, AlikeButSlashes;
  }

  /** Whatever text comes in makes the specification of the server's text. */
  lemma FetchedIsRight(w: World, disk: map<string, string>, call: Call)
    requires Benign(w) && Truthful(w, call) && DiskOk(w, disk)
    ensures var f := Fetch(call.key, call.visit, disk);
      && (f.Json? ==> w.site(call.key).Some? && Document(w, f.text) == Document(w, w.site(call.key).value))
      && (f.Refused? ==> w.site(call.key).None?)
      && (f.Failed? || f.Garbled? || f.Unsaved? ==> VisitFailed(disk, call))
  {
    hide TmpName, Document, Strip;
  }

  lemma EnterEntry(w: World, revisions: map<string, Option<string>>, texts: map<string, string>, key: string,
      entry: Option<string>)
    requires KnownOk(w, revisions, texts) && IsUrl(key) && EntryOk(w, texts, key, entry)
    ensures KnownOk(w, Insert(revisions, key, entry), texts)
  {
    hide EntryOk, IsUrl;
  }

  lemma EnterText(w: World, revisions: map<string, Option<string>>, texts: map<string, string>, text: string)
    requires KnownOk(w, revisions, texts) && TextsOk(w, texts) && w.digest(text) !in texts && Document(w, text).Some?
    ensures var texts' := texts[w.digest(text) := text]; KnownOk(w, revisions, texts') && TextsOk(w, texts')
  {
    hide Document, IsUrl;
  }

  ghost predicate Agrees(w: World, key: string, answer: Option<string>) {
    match answer
    case None => Fresh(w, key).None?
    case Some(t) => Document(w, t) == Fresh(w, key) && Fresh(w, key).Some?
  }

  lemma LoadIsFresh(w: World, s: State, call: Call)
    requires Benign(w) && Truthful(w, call) && Sound(w, s) && IsUrl(call.key)
    ensures var (t, r) := Load(w, s, call.key, call.visit);
      && Sound(w, t)
      && var a := if r.Ok? then r.value else None;
         Agrees(w, call.key, a) || (a.None? && VisitFailed(s.disk, call))
  {
    FetchedIsRight(w, s.disk, call);
    SavingKeepsDisk(w, s.disk, call);
    hide Document, Fetch, Saved, VisitFailed, Truthful, IsUrl, KnownOk, DiskOk;
    var f := Fetch(call.key, call.visit, s.disk);
    if f.Refused? {
      EnterEntry(w, s.revisions, s.texts, call.key, None);
    } else if f.Json? {
      var k := w.digest(f.text);
      if k in s.texts {
        EnterEntry(w, s.revisions, s.texts, call.key, Some(s.texts[k]));
      } else if Document(w, f.text).Some? {
        EnterText(w, s.revisions, s.texts, f.text);
        EnterEntry(w, s.revisions, s.texts[k := f.text], call.key, Some(f.text));
      }
    }
  }

  lemma KnownAgrees(w: World, s: State, key: string)
    requires KnownOk(w, s.revisions, s.texts) && key in s.revisions
    ensures Agrees(w, key, s.revisions[key])
  {
    hide Document;
  }

  /** Soundness is kept, and the answer is that of a fresh load unless this very call failed at the server. */
  lemma FindIsFresh(w: World, s: State, call: Call)
    requires Benign(w) && Truthful(w, call) && Sound(w, s)
    ensures var (t, a) := Find(w, s, call.key, call.visit);
      && Sound(w, t)
      && (Agrees(w, call.key, a) || (a.None? && call.key !in s.revisions && VisitFailed(s.disk, call)))
  {
    hide Load, Document, VisitFailed, Truthful, Benign, TextsOk, DiskOk;
    if !IsUrl(call.key) {
    } else if call.key in s.revisions {
      hide Fresh;
      KnownAgrees(w, s, call.key);
      hide Agrees, KnownOk;
    } else {
      hide Agrees, KnownOk, Fresh;
      var m := s.(metrics := s.metrics.(cacheMisses := s.metrics.cacheMisses + 1));
      LoadIsFresh(w, m, call);
      var (t, r) := Load(w, m, call.key, call.visit);
      assert Find(w, s, call.key, call.visit).1 == if r.Ok? then r.value else None;
    }
  }

  /** A miss that fails at the server is not answered. */
  lemma FailedIsUnanswered(w: World, s: State, call: Call)
    requires VisitFailed(s.disk, call) && call.key !in s.revisions
    ensures Find(w, s, call.key, call.visit).1.None?
  {
    hide TmpName, Document, Admit;
  }

  predicate Extends<V(==)>(m: map<string, V>, n: map<string, V>) {
    forall key :: key in m ==> key in n && n[key] == m[key]
  }

  lemma LoadExtends(w: World, s: State, key: string, visit: Visit)
    ensures var t := Load(w, s, key, visit).0;
      Extends(s.revisions, t.revisions) && Extends(s.texts, t.texts) && Extends(s.disk, t.disk)
  {
    hide TmpName, Document, Fetch;
  }

  /** An entry stays as it was first made. */
  lemma EntriesStay(w: World, s: State, call: Call)
    ensures var t := Find(w, s, call.key, call.visit).0;
      Extends(s.revisions, t.revisions) && Extends(s.texts, t.texts) && Extends(s.disk, t.disk)
  {
    hide Load;
    LoadExtends(w, s.(metrics := s.metrics.(cacheMisses := s.metrics.cacheMisses + 1)), call.key, call.visit);
  }

  /** Only the key asked for is entered, and only an answer of the server or of the disk is. */
  lemma WhatIsEntered(w: World, s: State, call: Call)
    requires IsUrl(call.key) && call.key !in s.revisions
    ensures var (t, a) := Find(w, s, call.key, call.visit);
      && (forall key :: key in t.revisions ==> key == call.key || key in s.revisions)
      && (call.key in t.revisions ==> t.revisions[call.key] == a)
      && (call.key in t.revisions <==> a.Some? || Fetch(call.key, call.visit, s.disk).Refused?)
      && (Load(w, s, call.key, call.visit).1.Threw? ==> t.revisions == s.revisions && t.texts == s.texts)
  {
    hide Document, Fetch, Saved, IsUrl;
  }

  // ---- laws of runs ----

  lemma {:induction false} RunIsSound(w: World, s: State, calls: seq<Call>)
    requires Benign(w) && AllTruthful(w, calls) && Sound(w, s)
    ensures Sound(w, Run(w, s, calls))
  {
    hide Benign, Sound, Truthful, Find;
    if calls == [] {
    } else {
      var n := |calls| - 1;
      RunIsSound(w, s, calls[..n]);
      FindIsFresh(w, Run(w, s, calls[..n]), calls[n]);
    }
  }

  /** The cache agrees with loading afresh, however many calls went before and whatever failed in them. */
  lemma AgreesWithFreshLoad(w: World, s: State, calls: seq<Call>, call: Call)
    requires Benign(w) && AllTruthful(w, calls) && Truthful(w, call) && Sound(w, s)
    ensures var t := Run(w, s, calls);
      var a := Find(w, t, call.key, call.visit).1;
      Agrees(w, call.key, a) || (a.None? && call.key !in t.revisions && VisitFailed(t.disk, call))
  {
    hide Benign, Sound, Truthful, Document, Agrees, Find, Run, VisitFailed;
    RunIsSound(w, s, calls);
    FindIsFresh(w, Run(w, s, calls), call);
  }

  /** Once answered, for ever: a later call with the same key gets the same text, and costs no visit. */
  lemma {:induction false} AnswersStay(w: World, s: State, calls: seq<Call>, key: string, visit: Visit)
    requires IsUrl(key) && key in s.revisions
    ensures var t := Run(w, s, calls);
      key in t.revisions && t.revisions[key] == s.revisions[key] &&
      Find(w, t, key, visit) ==
        (t.(metrics := t.metrics.(cacheHits := t.metrics.cacheHits + 1)), s.revisions[key])
  {
    hide Load;
    if calls == [] {
    } else {
      var n := |calls| - 1;
      AnswersStay(w, s, calls[..n], key, visit);
      EntriesStay(w, Run(w, s, calls[..n]), calls[n]);
    }
  }

  /** Equal texts share one specification, and different texts do not. */
  lemma SharedExactly(w: World, s: State, a: string, b: string)
    requires Sound(w, s) && a in s.revisions && b in s.revisions
    requires s.revisions[a].Some? && s.revisions[b].Some?
    ensures s.revisions[a] == s.revisions[b] <==> w.digest(s.revisions[a].value) == w.digest(s.revisions[b].value)
  {
    hide Document;
    assert EntryOk(w, s.texts, a, s.revisions[a]) && EntryOk(w, s.texts, b, s.revisions[b]);
  }

  // ---- the counters ----

  function Lookups(m: Metrics): nat { m.invalidRevisions + m.cacheHits + m.cacheMisses }

  function Errors(m: Metrics): nat { m.connectionErrors + m.httpErrors + m.invalidHistograms }

  /** The misses that were answered. */
  function Loads(w: World, s: State, calls: seq<Call>): nat {
    if calls == [] then 0
    else
      var n := |calls| - 1;
      var t := Run(w, s, calls[..n]);
      Loads(w, s, calls[..n]) +
      (if calls[n].key !in t.revisions && Find(w, t, calls[n].key, calls[n].visit).1.Some? then 1 else 0)
  }

  lemma FindCountsOnce(w: World, s: State, call: Call)
    requires forall key :: key in s.revisions ==> IsUrl(key)
    ensures var (t, a) := Find(w, s, call.key, call.visit);
      && (forall key :: key in t.revisions ==> IsUrl(key))
      && Lookups(t.metrics) == Lookups(s.metrics) + 1
      && t.metrics.cacheMisses - s.metrics.cacheMisses ==
           Errors(t.metrics) - Errors(s.metrics) + (if call.key !in s.revisions && a.Some? then 1 else 0)
  {
    hide Document, Fetch, Saved, IsUrl;
  }

  /** Every call is counted once; every miss is either answered or counted as one error. */
  lemma {:induction false} CountersBalance(w: World, s: State, calls: seq<Call>)
    requires forall key :: key in s.revisions ==> IsUrl(key)
    ensures var t := Run(w, s, calls);
      && Lookups(t.metrics) == Lookups(s.metrics) + |calls|
      && t.metrics.cacheMisses - s.metrics.cacheMisses == Errors(t.metrics) - Errors(s.metrics) + Loads(w, s, calls)
      && (forall key :: key in t.revisions ==> IsUrl(key))
  {
    hide Find, IsUrl, Lookups, Errors;
    if calls == [] {
    } else {
      var n := |calls| - 1;
      CountersBalance(w, s, calls[..n]);
      FindCountsOnce(w, Run(w, s, calls[..n]), calls[n]);
    }
  }

  /** The text a miss gets hold of. */
  function TextGot(s: State, call: Call): Option<string> {
    if TmpName(call.key) in s.disk then Some(Strip(s.disk[TmpName(call.key)]))
    else
      match call.visit.reply
      case Answer(200, Some(text)) => if call.visit.saving.Raised? then None else Some(text)
      case _ => None
  }

  /** What each counter counts, and when a file is made. Invalid revisions are keys that are no URL, hits and misses
      are told by the key alone. Of the misses, connection errors are those whose server cannot be reached, whose
      connection fails in the text, or whose text makes no specification; HTTP errors those answered by something
      else than HTTP or with a status other than 200; invalid histograms those whose text cannot be copied. */
  lemma CountedExactly(w: World, s: State, call: Call)
    ensures var (t, key, reply) := (Find(w, s, call.key, call.visit).0, call.key, call.visit.reply);
      var (url, known, onDisk) := ("http" <= key, key in s.revisions, TmpName(key) in s.disk);
      var (miss, visited) := (url && !known, url && !known && !onDisk);
      var ok := reply.Answer? && reply.status == 200;
      var got := TextGot(s, call);
      && t.metrics.invalidRevisions == s.metrics.invalidRevisions + (if !url then 1 else 0)
      && t.metrics.cacheHits == s.metrics.cacheHits + (if url && known then 1 else 0)
      && t.metrics.cacheMisses == s.metrics.cacheMisses + (if miss then 1 else 0)
      && t.metrics.connectionErrors == s.metrics.connectionErrors +
           (if (visited && (reply.Unreachable? || (ok && reply.body.None?))) ||
               (miss && got.Some? && w.digest(got.value) !in s.texts && Document(w, got.value).None?) then 1 else 0)
      && t.metrics.httpErrors == s.metrics.httpErrors +
           (if visited && (reply.NotHttp? || (reply.Answer? && reply.status != 200)) then 1 else 0)
      && t.metrics.invalidHistograms == s.metrics.invalidHistograms +
           (if visited && ok && reply.body.Some? && call.visit.saving.Raised? then 1 else 0)
      && t.disk == (if visited && ok && reply.body.Some? && call.visit.saving.Written?
                    then s.disk[TmpName(key) := reply.body.value] else s.disk)
  {
    hide TmpName, Strip, Document, Insert;
  }

  // ---- a file that makes no specification ----

  /** The file of the key is there, makes no specification, and the key has not been entered. */
  ghost predicate Stuck(w: World, s: State, key: string) {
    key !in s.revisions && TextsOk(w, s.texts) &&
    TmpName(key) in s.disk && Document(w, Strip(s.disk[TmpName(key)])).None?
  }

  lemma FindKeepsTexts(w: World, s: State, call: Call)
    requires TextsOk(w, s.texts)
    ensures TextsOk(w, Find(w, s, call.key, call.visit).0.texts)
  {
    hide TmpName, Document, Fetch, Saved, Insert;
  }

  lemma StuckAnswer(w: World, s: State, key: string, visit: Visit)
    requires NoCollision(w) && Stuck(w, s, key) && IsUrl(key)
    ensures Find(w, s, key, visit) ==
      (s.(metrics := s.metrics.(cacheMisses := s.metrics.cacheMisses + 1,
                                connectionErrors := s.metrics.connectionErrors + 1)), None)
  {
    hide TmpName, Document, Strip;
  }

  lemma FindKeepsStuck(w: World, s: State, call: Call, key: string)
    requires NoCollision(w) && Stuck(w, s, key) && IsUrl(key)
    ensures Stuck(w, Find(w, s, call.key, call.visit).0, key)
  {
    FindKeepsTexts(w, s, call);
    EntriesStay(w, s, call);
    if call.key == key {
      StuckAnswer(w, s, key, call.visit);
    } else {
      OthersNotEntered(w, s, call, key);
    }
    hide TmpName, Document, Strip, Find, TextsOk;
  }

  lemma OthersNotEntered(w: World, s: State, call: Call, key: string)
    requires key != call.key && key !in s.revisions
    ensures key !in Find(w, s, call.key, call.visit).0.revisions
  {
    hide TmpName, Document, Strip, Saved, Fetch;
  }

  /** For ever: whatever the server says by then, a file that makes no specification makes every call with its key a
      miss and a connection error without an answer, and nothing is entered or saved. */
  lemma {:induction false} BadFileSticks(w: World, s: State, calls: seq<Call>, key: string, visit: Visit)
    requires NoCollision(w) && Stuck(w, s, key) && IsUrl(key)
    ensures var t := Run(w, s, calls);
      && Stuck(w, t, key)
      && Find(w, t, key, visit) ==
           (t.(metrics := t.metrics.(cacheMisses := t.metrics.cacheMisses + 1,
                                     connectionErrors := t.metrics.connectionErrors + 1)), None)
    decreases |calls|
  {
    hide Find, Stuck, NoCollision, IsUrl;
    if calls == [] {
    } else {
      var n := |calls| - 1;
      BadFileSticks(w, s, calls[..n], key, visit);
      FindKeepsStuck(w, Run(w, s, calls[..n]), calls[n], key);
    }
    StuckAnswer(w, Run(w, s, calls), key, visit);
  }

  /** How it comes about: a text that makes no specification, cut off by a server that closed in mid body or not, is
      saved before it is looked at. */
  lemma BadTextSticks(w: World, s: State, call: Call)
    requires NoCollision(w) && TextsOk(w, s.texts) && IsUrl(call.key) && call.key !in s.revisions
    requires TmpName(call.key) !in s.disk && call.visit.reply.Answer? && call.visit.reply.status == 200
    requires call.visit.reply.body.Some? && call.visit.saving.Written?
    requires Document(w, call.visit.reply.body.value).None? && Document(w, Strip(call.visit.reply.body.value)).None?
    ensures Find(w, s, call.key, call.visit).1.None? && Stuck(w, Find(w, s, call.key, call.visit).0, call.key)
  {
    hide TmpName, Document, Strip;
  }

  // ---- why the conditions are needed ----

  /** Whoever wrote the file, a first load from it gives the specification of its text without white space. */
  lemma FileDecides(w: World, s: State, key: string, visit: Visit)
    requires NoCollision(w) && TextsOk(w, s.texts)
    requires IsUrl(key) && key !in s.revisions && TmpName(key) in s.disk
    ensures var a := Find(w, s, key, visit).1;
      Document(w, Strip(s.disk[TmpName(key)])) == if a.Some? then Document(w, a.value) else None
    ensures Find(w, s, key, visit).1.Some? ==> Document(w, Find(w, s, key, visit).1.value).Some?
  {
    hide TmpName, Document, Strip, Saved;
  }

  /** A first load from the disk is right exactly if white space does not matter to the specification. */
  lemma DiskCopyExactly(w: World, s: State, call: Call)
    requires NoCollision(w) && Sound(w, s) && Truthful(w, call)
    requires IsUrl(call.key) && call.key !in s.revisions && TmpName(call.key) in s.disk
    ensures Agrees(w, call.key, Find(w, s, call.key, call.visit).1) <==>
            Document(w, Strip(w.site(call.key).value)) == Document(w, w.site(call.key).value)
  {
    FileDecides(w, s, call.key, call.visit);
    hide TmpName, Document, Strip, Find, KnownOk, TextsOk, NoCollision;
  }

  lemma FirstLeavesFile(w: World, s: State, a: Call, other: string)
    requires Sound(w, s) && Truthful(w, a) && IsUrl(a.key) && a.key !in s.revisions && TmpName(a.key) !in s.disk
    requires a.visit.reply.Answer? && a.visit.reply.status == 200 && a.visit.reply.body.Some? && a.visit.saving.Written?
    requires other != a.key && other !in s.revisions
    ensures var t := Find(w, s, a.key, a.visit).0;
      && TmpName(a.key) in t.disk && Some(t.disk[TmpName(a.key)]) == w.site(a.key)
      && other !in t.revisions && TextsOk(w, t.texts)
  {
    hide TmpName, Document, KnownOk, DiskOk;
  }

  /** Two keys with one file: once the first has been loaded and saved, the second is answered rightly exactly
      if the first one's text, without its white space, makes the second one's specification. */
  lemma ClashExactly(w: World, s: State, a: Call, b: Call)
    requires NoCollision(w) && Sound(w, s) && Truthful(w, a)
    requires TmpName(a.key) == TmpName(b.key) && a.key != b.key && TmpName(a.key) !in s.disk
    requires IsUrl(a.key) && IsUrl(b.key) && a.key !in s.revisions && b.key !in s.revisions
    requires a.visit.reply.Answer? && a.visit.reply.status == 200 && a.visit.reply.body.Some? && a.visit.saving.Written?
    requires w.site(b.key).Some?
    ensures var t := Find(w, s, a.key, a.visit).0;
      Agrees(w, b.key, Find(w, t, b.key, b.visit).1) <==>
      Document(w, Strip(w.site(a.key).value)) == Document(w, w.site(b.key).value)
  {
    var t := Find(w, s, a.key, a.visit).0;
    FirstLeavesFile(w, s, a, b.key);
    hide TmpName, Document, Strip, Find, TextsOk, Sound, NoCollision, Truthful;
    FileDecides(w, t, b.key, b.visit);
  }

  /** A world in which every text makes a different specification. */
  function TellTale(site: string -> Option<string>): World {
    World(site, _ => true, text => Some(Obj([("histograms", Obj([])), (text, Null)])), text => text)
  }

  lemma EveryTextCounts(site: string -> Option<string>, a: string, b: string)
    ensures Document(TellTale(site), a) == Some(Obj([("histograms", Obj([])), (a, Null)]))
    ensures Document(TellTale(site), a) == Document(TellTale(site), b) <==> a == b
  {
    var doc := Obj([("histograms", Obj([])), (a, Null)]);
    assert Get(doc, "histograms") == Obj([]);
  }

  const NOTHING_YET := State(map[], map[], map[], ZERO)

  const NO_SERVER := Visit(Unreachable, NotWritten)

  function Success(body: string): Visit { Visit(Answer(200, Some(body)), Written) }

  lemma FileNamesClash()
    ensures TmpName("http://a/b") == TmpName("http://a-b") && "http://a/b" != "http://a-b"
    ensures Strip("http://a/b") == "http://a/b"
  {
    assert "http://a/b"[8] != "http://a-b"[8];
    assert TmpName("http://a/b") == "http:--a-b.json";
    assert TmpName("http://a-b") == "http:--a-b.json";
    StripIsIdentity("http://a/b");
  }

  /** Concretely, asking for http://a-b after http://a/b gets the other one's specification. */
  lemma ClashExists()
    ensures var (w, a, b) := (TellTale(key => Some(key)), "http://a/b", "http://a-b");
      var t := Find(w, NOTHING_YET, a, Success(a)).0;
      TmpName(a) == TmpName(b) && Sound(w, NOTHING_YET) && NoCollision(w) && !NoClash(w) &&
      !Agrees(w, b, Find(w, t, b, Success(b)).1)
  {
    FileNamesClash();
    ClashTells("http://a/b", "http://a-b");
  }

  lemma ClashTells(a: string, b: string)
    requires TmpName(a) == TmpName(b) && a != b && IsUrl(a) && IsUrl(b) && Strip(a) == a
    ensures var w := TellTale(key => Some(key));
      var t := Find(w, NOTHING_YET, a, Success(a)).0;
      Sound(w, NOTHING_YET) && NoCollision(w) && !NoClash(w) && !Agrees(w, b, Find(w, t, b, Success(b)).1)
  {
    var w := TellTale(key => Some(key));
    EveryTextCounts(w.site, a, b);
    SameFileExactly(a, b);
    hide Document, Strip, TmpName, Find, Agrees;
    ClashExactly(w, NOTHING_YET, Call(a, Success(a)), Call(b, Success(b)));
    assert w.asked(a) && w.asked(b) && w.site(a) != w.site(b);
  }

  /** Concretely, a specification with a space in a name is another one when it comes back from the disk. */
  lemma SpaceMatters()
    ensures var (w, key) := (TellTale(_ => Some("A B")), "http://a");
      var t := Find(w, NOTHING_YET, key, Success("A B")).0;
      Sound(w, NOTHING_YET) && !SpaceDoesNotMatter(w) && Agrees(w, key, Find(w, NOTHING_YET, key, Success("A B")).1) &&
      !Agrees(w, key, Find(w, State(map[], map[], t.disk, ZERO), key, NO_SERVER).1)
  {
    var (w, key) := (TellTale(_ => Some("A B")), "http://a");
    StripConcrete();
    EveryTextCounts(w.site, "A B", "AB");
    var t := Find(w, NOTHING_YET, key, Success("A B")).0;
    hide Document, Strip, TmpName;
    assert t.disk[TmpName(key)] == "A B";
    assert w.asked(key) && w.site(key) == Some("A B");
    assert "A B"[1] != "AB"[1];
  }

  lemma StripConcrete()
    ensures Strip("A B") == "AB"
  {
    assert "A B"[1..] == " B" && " B"[1..] == "B" && "B"[1..] == "";
    assert Strip("B") == "B" && Strip(" B") == "B";
  }

  lemma SavedIsThere(w: World, s: State, call: Call)
    requires IsUrl(call.key) && call.key !in s.revisions
    requires Fetch(call.key, call.visit, s.disk).Json? && call.visit.saving.Written?
    ensures TmpName(call.key) in Find(w, s, call.key, call.visit).0.disk
  {
    hide TmpName, Document, Strip;
  }

  /** What one cache has saved serves the next one, even if the server is gone by then. */
  lemma RestartFromDisk(w: World, s: State, call: Call, visit: Visit)
    requires Benign(w) && Sound(w, s) && Truthful(w, call) && Truthful(w, Call(call.key, visit))
    requires IsUrl(call.key) && call.key !in s.revisions
    requires Fetch(call.key, call.visit, s.disk).Json? && call.visit.saving.Written?
    ensures var restarted := State(map[], map[], Find(w, s, call.key, call.visit).0.disk, ZERO);
      TmpName(call.key) in restarted.disk && Agrees(w, call.key, Find(w, restarted, call.key, visit).1)
  {
    var t := Find(w, s, call.key, call.visit).0;
    FindIsFresh(w, s, call);
    hide TmpName, Document, Strip, Truthful, Admit, NoCollision, NoClash, KnownOk, TextsOk, Agrees;
    assert TmpName(call.key) in t.disk by { SavedIsThere(w, s, call); }
    assert w.site(call.key) == Some(t.disk[TmpName(call.key)]);
    hide Load, Fetch, Saved, Agrees, Find;
    DiskCopyExactly(w, State(map[], map[], t.disk, ZERO), Call(call.key, visit));
  }

  /** Reading a file goes character by character, ... */
  lemma {:induction false} StripConcat(a: string, b: string)
    ensures Strip(a + b) == Strip(a) + Strip(b)
  {
    hide IsSpace;
    if a == "" {
      assert "" + b == b;
    } else {
      StripConcat(a[1..], b);
      assert (a + b)[1..] == a[1..] + b;
      if !IsSpace(a[0]) { Associate([a[0]], Strip(a[1..]), Strip(b)); }
    }
  }

  /** ... and of them only white space is lost. */
  lemma StripOne(c: char)
    ensures Strip([c]) == if c as int in {9, 10, 11, 12, 13, 32} then "" else [c]
  {
    assert [c][1..] == "";
  }

  /** A file that has no white space, and only such a file, is read back as it was written. */
  lemma {:induction false} StripIsIdentity(text: string)
    ensures |Strip(text)| <= |text|
    ensures Strip(text) == text <==> forall i :: 0 <= i < |text| ==> !IsSpace(text[i])
  {
    if text == "" {
    } else {
      StripIsIdentity(text[1..]);
    }
  }
}
