/** Converting the histograms of a document, in place and once. */
module DocumentConversion {
  import opened Bytes
  import opened HistogramCaches
  import opened HistogramConverter
  import opened HistogramSpecification
  import opened Json
  import Revisions

  const STARTUP := "STARTUP_"

  // ---- which definition ----

  /** The text eight characters on from where a name starts. Behind a shorter name that is what follows it in the
      buffer the document was parsed in. */
  function EightOn(name: string, behind: string): string {
    if |name| >= |STARTUP| then name[|STARTUP|..] else behind
  }

  /** The definition for a histogram, and the name it goes by from then on. */
  function Resolve(defs: Definitions, name: string, behind: string): Option<(Definition, string)> {
    if name in defs then Some((defs[name], name))
    else if !(STARTUP <= name) && EightOn(name, behind) in defs
    then Some((defs[EightOn(name, behind)], EightOn(name, behind)))
    else None
  }

  /** What is meant: a leading STARTUP_ is chopped off, and nothing else is. */
  function Meant(defs: Definitions, name: string): Option<(Definition, string)> {
    if name in defs then Some((defs[name], name))
    else if STARTUP <= name && name[|STARTUP|..] in defs
    then Some((defs[name[|STARTUP|..]], name[|STARTUP|..]))
    else None
  }

  /** The test of the prefix is inverted, so the two part as soon as the text eight characters on decides. */
  lemma ResolvedAsMeantExactly(defs: Definitions, name: string, behind: string)
    ensures Resolve(defs, name, behind) == Meant(defs, name) <==> name in defs || EightOn(name, behind) !in defs
  {
  }

  /** Concretely, TELEMETRX is taken for X, and STARTUP_X is not; and in "ABCD":{"GC_MS":0, where the quotes that
      end the names have become NULs, ABCD is taken for GC_MS. */
  lemma ResolvedWrongly(def: Definition, behind: string)
    ensures var defs: Definitions := map["X" := def];
      && Resolve(defs, "TELEMETRX", behind) == Some((def, "X")) && Meant(defs, "TELEMETRX") == None
      && Resolve(defs, "STARTUP_X", behind) == None && Meant(defs, "STARTUP_X") == Some((def, "X"))
    ensures var defs: Definitions := map["GC_MS" := def];
      && Resolve(defs, "ABCD", TextAt("ABCD\0:{\"GC_MS\0:0", |STARTUP|)) == Some((def, "GC_MS"))
      && Meant(defs, "ABCD") == None
  {
    assert "TELEMETRX"[|STARTUP|..] == "X" && "STARTUP_X"[|STARTUP|..] == "X";
    assert "TELEMETRX"[0] != STARTUP[0];
    var buffer := "ABCD\0:{\"GC_MS\0:0";
    assert buffer[8..] == "GC_MS\0:0";
    TextEnds("GC_MS", ":0");
    assert "GC_MS" + "\0" + ":0" == "GC_MS\0:0";
    assert |"ABCD"| < |"GC_MS"|;
  }

  /** The C string at an offset of a buffer. */
  function TextAt(buffer: string, at: nat): string
    requires at <= |buffer|
  {
    UpToNul(buffer[at..])
  }

  function UpToNul(s: string): string {
    if s == "" || s[0] == '\0' then "" else [s[0]] + UpToNul(s[1..])
  }

  lemma {:induction false} TextEnds(s: string, rest: string)
    requires '\0' !in s
    ensures UpToNul(s + "\0" + rest) == s
  {
    if s == "" {
      assert ("" + "\0" + rest)[0] == '\0';
    } else {
      assert (s + "\0" + rest)[1..] == s[1..] + "\0" + rest;
      TextEnds(s[1..], rest);
    }
  }

  lemma {:induction false} ResolveAgain(defs: Definitions, name: string, behind: string)
    requires Resolve(defs, name, behind).Some?
    ensures var (def, renamed) := Resolve(defs, name, behind).value;
      renamed in defs && def == defs[renamed] && Resolve(defs, renamed, behind) == Some((def, renamed))
  {
  }

  // ---- one histogram ----

  function SummaryValue(v: Value): real { if IsNumber(v) then GetDouble(v) else -1.0 }

  function Summary(data: Value): (r: seq<real>)
    requires data.Obj?
    ensures |r| == EXTRA_BUCKETS_SIZE
  {
    seq(EXTRA_BUCKETS_SIZE, x requires 0 <= x < EXTRA_BUCKETS_SIZE => SummaryValue(Get(data, EXTRA_BUCKETS[x])))
  }

  function Ints(s: seq<int>): seq<Value> { seq(|s|, i requires 0 <= i < |s| => Int(s[i])) }

  function Reals(s: seq<real>): seq<Value> { seq(|s|, i requires 0 <= i < |s| => Real(s[i])) }

  function Rewritten(def: Definition, data: Value): Value
    requires Convertible(def, data) && 0 <= def.bucketCount
  {
    Arr(Ints(Dense(def, Get(data, "values").members)) + Reals(Summary(data)))
  }

  /** The member as it is left, and whether the rest is still to be done. */
  function RewriteOne(defs: Definitions, m: Member, behind: string): (Member, bool) {
    if !m.1.Obj? || Resolve(defs, m.0, behind).None? then (m, true)
    else
      var (def, name) := Resolve(defs, m.0, behind).value;
      if Convertible(def, m.1) && 0 <= def.bucketCount then ((name, Rewritten(def, m.1)), true)
      else ((name, m.1), false)
  }

  /** What follows the name of each histogram in the buffer. */
  type Behind = nat -> string

  /** In order, up to the first that fails; ms are the members from the n-th on. */
  function RewriteAll(defs: Definitions, ms: seq<Member>, behind: Behind, n: nat): (seq<Member>, bool)
    decreases |ms|
  {
    if ms == [] then ([], true)
    else
      var (m, ok) := RewriteOne(defs, ms[0], behind(n));
      if !ok then ([m] + ms[1..], false)
      else
        var (rest, result) := RewriteAll(defs, ms[1..], behind, n + 1);
        ([m] + rest, result)
  }

  method RewriteMember(def: Definition, data: Value, summary: array<real>) returns (ok: bool, v: Value)
    requires Valid(def) && data.Obj? && summary.Length == EXTRA_BUCKETS_SIZE
    modifies summary
    ensures 0 <= def.bucketCount && (ok <==> Convertible(def, data))
    ensures v == if ok then Rewritten(def, data) else data
  {
    hide Valid;
    IndexInRange(def, 0);
    var rewrite := new int[def.bucketCount](_ => 0);
    v := data;
    ok := RewriteValues(def, data, rewrite);
    if !ok { return; }
    ghost var dense := Dense(def, Get(data, "values").members);
    hide Dense, Sparse;
    for x := 0 to EXTRA_BUCKETS_SIZE
      invariant summary[..x] == Summary(data)[..x]
      invariant ok && rewrite[..] == dense
    {
      var s := Get(data, EXTRA_BUCKETS[x]);
      if IsNumber(s) { summary[x] := GetDouble(s); } else { summary[x] := -1.0; }
    }
    var items: seq<Value> := [];
    for i := 0 to rewrite.Length
      invariant items == Ints(rewrite[..])[..i]
    {
      items := items + [Int(rewrite[i])];
    }
    for i := 0 to summary.Length
      invariant items == Ints(rewrite[..]) + Reals(summary[..])[..i]
    {
      items := items + [Real(summary[i])];
    }
    v := Arr(items);
  }

  /** What GetDefinition promises fixes its answer. */
  lemma GotDefinition(hist: Specification, name: string, hd: Option<Definition>)
    requires hist.Valid() && (hd.Some? <==> HasMember(hist.members, name))
    requires hd.Some? ==> IsMadeFrom(hd.value, Lookup(hist.members, name))
    ensures hd == if name in hist.mDefinitions then Some(hist.mDefinitions[name]) else None
  {
    if hd.Some? { MadeIsKept(hist.mDefinitions, hist.members, name, hd.value); }
  }

  method RewriteAt(hist: Specification, a: array<Member>, i: nat, behind: string, summary: array<real>)
    returns (result: bool)
    requires hist.Valid() && i < a.Length && summary.Length == EXTRA_BUCKETS_SIZE
    modifies a, summary
    ensures (a[i], result) == RewriteOne(hist.mDefinitions, old(a[i]), behind)
    ensures a[..i] == old(a[..i]) && a[i + 1..] == old(a[i + 1..])
  {
    RepresentsValid(hist.mDefinitions, hist.members);
    hide Valid, Convertible, Rewritten, Represents, IsMadeFrom, Lookup, HasMember;
    result := true;
    if a[i].1.Obj? {
      var name := a[i].0;
      var hd := hist.GetDefinition(name);
      GotDefinition(hist, name, hd);
      if hd.None? && !(STARTUP <= name) {
        hd := hist.GetDefinition(EightOn(name, behind));
        GotDefinition(hist, EightOn(name, behind), hd);
        if hd.Some? { a[i] := (EightOn(name, behind), a[i].1); }
      }
      if hd.Some? {
        var v;
        result, v := RewriteMember(hd.value, a[i].1, summary);
        a[i] := (a[i].0, v);
      }
    }
  }

  method RewriteHistogram(hist: Specification, a: array<Member>, behind: Behind) returns (result: bool)
    requires hist.Valid()
    modifies a
    ensures var r := RewriteAll(hist.mDefinitions, old(a[..]), behind, 0); a[..] == r.0 && result == r.1
  {
    hide RewriteAll, RewriteOne, Specification.Valid;
    ghost var before, defs := a[..], hist.mDefinitions;
    var summary := new real[EXTRA_BUCKETS_SIZE];
    result := true;
    var i := 0;
    RewriteNothing(defs, before, behind);
    while result && i < a.Length
      invariant 0 <= i <= a.Length
      invariant a[i..] == before[i..] || !result
      invariant var (r, t) := (RewriteAll(defs, before, behind, 0), RewriteAll(defs, before[i..], behind, i));
        if result then r.0 == a[..i] + t.0 && r.1 == t.1 else r.0 == a[..] && !r.1
      decreases a.Length - i
    {
      assert a[i] == a[i..][0] == before[i];
      ghost var done, rest := a[..i], RewriteAll(defs, before[i + 1..], behind, i + 1).0;
      RewriteNext(defs, before, behind, i);
      result := RewriteAt(hist, a, i, behind(i), summary);
      assert a[..i] == done && a[i + 1..] == before[i + 1..];
      assert a[..] == done + [a[i]] + before[i + 1..];
      assert a[..i + 1] == done + [a[i]];
      assert a[..i + 1] + rest == done + ([a[i]] + rest);
      i := i + 1;
    }
    assert a[..a.Length] == a[..] && before[a.Length..] == [];
    RewriteNothing(defs, before, behind);
  }

  lemma RewriteNothing(defs: Definitions, ms: seq<Member>, behind: Behind)
    ensures RewriteAll(defs, [], behind, |ms|) == ([], true) && ms[0..] == ms
  {
  }

  lemma RewriteNext(defs: Definitions, ms: seq<Member>, behind: Behind, i: nat)
    requires i < |ms|
    ensures var (m, ok) := RewriteOne(defs, ms[i], behind(i));
      RewriteAll(defs, ms[i..], behind, i) ==
        var (rest, result) := RewriteAll(defs, ms[i + 1..], behind, i + 1);
        if ok then ([m] + rest, result)
        else ([m] + ms[i + 1..], false)
  {
    hide RewriteOne;
    assert ms[i..][1..] == ms[i + 1..];
  }

  // ---- what the rewriting does ----

  /** A number of the array is that slot's count, or behind the slots one of the histogram's own summaries. */
  ghost predicate DenseOf(def: Definition, data: Value, r: Value) {
    0 <= def.bucketCount && data.Obj? && r.Arr? && |r.items| == def.bucketCount + EXTRA_BUCKETS_SIZE &&
    Get(data, "values").Obj? && Sparse(def, Get(data, "values").members) &&
    (forall j :: 0 <= j < def.bucketCount ==> r.items[j] == Int(SlotValue(def, Get(data, "values").members, j))) &&
    forall x :: 0 <= x < EXTRA_BUCKETS_SIZE ==>
      r.items[def.bucketCount + x] == SummaryOf(Get(data, EXTRA_BUCKETS[x]))
  }

  /** A number as a real; -1 for a summary that is missing, or is no number. */
  function SummaryOf(v: Value): Value {
    match v
    case Real(_) => v
    case Int(n) => Real(n as real)
    case Null | Bool(_) | Str(_) | Arr(_) | Obj(_) => Real(-1.0)
  }

  /** The five summaries, in the order they are written in. */
  lemma FiveSummaries(def: Definition, data: Value, r: Value)
    requires DenseOf(def, data, r)
    ensures r.items[def.bucketCount..] ==
            [SummaryOf(Get(data, "sum")), SummaryOf(Get(data, "log_sum")), SummaryOf(Get(data, "log_sum_squares")),
             SummaryOf(Get(data, "sum_squares_lo")), SummaryOf(Get(data, "sum_squares_hi"))]
  {
    hide SummaryOf, Lookup, SlotValue, Sparse;
    assert EXTRA_BUCKETS[0] == "sum" && EXTRA_BUCKETS[1] == "log_sum" && EXTRA_BUCKETS[2] == "log_sum_squares";
    assert EXTRA_BUCKETS[3] == "sum_squares_lo" && EXTRA_BUCKETS[4] == "sum_squares_hi";
    var n := def.bucketCount;
    assert r.items[n..] == [r.items[n + 0], r.items[n + 1], r.items[n + 2], r.items[n + 3], r.items[n + 4]];
  }

  /** What a rewritten member has to do with the member it was. */
  ghost predicate Done(defs: Definitions, m: Member, behind: string, r: Member) {
    if m.1.Obj? && Resolve(defs, m.0, behind).Some?
    then r.0 == Resolve(defs, m.0, behind).value.1 && DenseOf(Resolve(defs, m.0, behind).value.0, m.1, r.1)
    else r == m
  }

  /** A histogram that cannot be rewritten keeps its value, though it may have another name. */
  ghost predicate Broken(defs: Definitions, m: Member, behind: string, r: Member) {
    m.1.Obj? && Resolve(defs, m.0, behind).Some? && !Convertible(Resolve(defs, m.0, behind).value.0, m.1) &&
    r == (Resolve(defs, m.0, behind).value.1, m.1)
  }

  lemma RewriteOneIsDone(defs: Definitions, m: Member, behind: string)
    requires AllValid(defs)
    ensures var (r, ok) := RewriteOne(defs, m, behind);
      if ok then Done(defs, m, behind, r) else Broken(defs, m, behind, r)
  {
    if m.1.Obj? && Resolve(defs, m.0, behind).Some? {
      var def := Resolve(defs, m.0, behind).value.0;
      assert Valid(def);
      hide Valid;
      IndexInRange(def, 0);
      hide SlotValue, IndexOf, Lookup;
    }
  }

  ghost predicate DoneUpTo(defs: Definitions, ms: seq<Member>, behind: Behind, n: nat, r: seq<Member>, k: nat)
    requires k <= |ms| == |r|
  {
    forall i :: 0 <= i < k ==> Done(defs, ms[i], behind(n + i), r[i])
  }

  /** Success rewrites every member; failure a prefix, up to the first that cannot be, and nothing behind it. */
  lemma {:induction false} RewriteShape(defs: Definitions, ms: seq<Member>, behind: Behind, n: nat) returns (k: nat)
    requires AllValid(defs)
    ensures var (r, ok) := RewriteAll(defs, ms, behind, n);
      && |r| == |ms| && k <= |ms| && (ok <==> k == |ms|)
      && DoneUpTo(defs, ms, behind, n, r, k)
      && (!ok ==> Broken(defs, ms[k], behind(n + k), r[k]) && r[k + 1..] == ms[k + 1..])
    decreases |ms|
  {
    hide RewriteOne, Done, Broken, AllValid;
    if ms == [] { return 0; }
    RewriteOneIsDone(defs, ms[0], behind(n));
    if !RewriteOne(defs, ms[0], behind(n)).1 { return 0; }
    k := RewriteShape(defs, ms[1..], behind, n + 1);
    var (m, (rest, ok)) := (RewriteOne(defs, ms[0], behind(n)).0, RewriteAll(defs, ms[1..], behind, n + 1));
    k := k + 1;
    var r := [m] + rest;
    assert r[1..] == rest;
    forall i | 0 <= i < k ensures Done(defs, ms[i], behind(n + i), r[i]) {
      if i > 0 { assert r[i] == rest[i - 1] && ms[i] == ms[1..][i - 1] && n + i == n + 1 + (i - 1); }
    }
    if !ok {
      assert r[k] == rest[k - 1] && ms[k] == ms[1..][k - 1] && n + k == n + 1 + (k - 1);
      assert r[k + 1..] == rest[k..] && ms[k + 1..] == ms[1..][k..];
    }
  }

  lemma RewriteOneTwice(defs: Definitions, m: Member, behind: string)
    ensures var (r, ok) := RewriteOne(defs, m, behind); RewriteOne(defs, r, behind) == (r, ok)
  {
    if m.1.Obj? && Resolve(defs, m.0, behind).Some? {
      ResolveAgain(defs, m.0, behind);
      hide Convertible, Rewritten, Resolve;
    }
  }

  /** Rewriting what was rewritten changes nothing, and comes out the same, whatever the histograms were. */
  lemma {:induction false} RewriteTwice(defs: Definitions, ms: seq<Member>, behind: Behind, n: nat)
    ensures var (r, ok) := RewriteAll(defs, ms, behind, n); RewriteAll(defs, r, behind, n) == (r, ok)
    decreases |ms|
  {
    hide RewriteOne;
    if ms == [] {
    } else {
      RewriteOneTwice(defs, ms[0], behind(n));
      RewriteTwice(defs, ms[1..], behind, n + 1);
      var (m, (rest, ok)) := (RewriteOne(defs, ms[0], behind(n)).0, RewriteAll(defs, ms[1..], behind, n + 1));
      assert ([m] + rest)[1..] == rest && ([m] + ms[1..])[1..] == ms[1..];
    }
  }

  // ---- the document and its version ----

  /** The first member of that name gets a new value. */
  function Put(ms: seq<Member>, name: string, v: Value): (r: seq<Member>)
    ensures |r| == |ms|
  {
    if ms == [] then []
    else if ms[0].0 == name then [(name, v)] + ms[1..]
    else [ms[0]] + Put(ms[1..], name, v)
  }

  lemma {:induction false} PutThenLookup(ms: seq<Member>, name: string, v: Value, other: string)
    ensures Lookup(Put(ms, name, v), other) == if other == name && HasMember(ms, name) then v else Lookup(ms, other)
    ensures HasMember(Put(ms, name, v), other) <==> HasMember(ms, other)
  {
    if ms != [] && ms[0].0 != name {
      PutThenLookup(ms[1..], name, v, other);
      assert Put(ms, name, v)[1..] == Put(ms[1..], name, v);
    } else if ms != [] {
      assert Put(ms, name, v)[1..] == ms[1..];
    }
  }

  /** A document that has what a conversion needs, and was not converted yet. */
  predicate Ready(ms: seq<Member>) {
    Lookup(ms, "info").Obj? && Get(Lookup(ms, "info"), "revision").Str? && Lookup(ms, "histograms").Obj? &&
    Lookup(ms, "ver") == Int(1)
  }

  function Revision(ms: seq<Member>): string
    requires Ready(ms)
  {
    Get(Lookup(ms, "info"), "revision").s
  }

  function Convert(defs: Definitions, ms: seq<Member>, behind: Behind): (seq<Member>, bool)
    requires Ready(ms)
  {
    var (hs, ok) := RewriteAll(defs, Lookup(ms, "histograms").members, behind, 0);
    (Put(Put(ms, "histograms", Obj(hs)), "ver", Int(if ok then 2 else -1)), ok)
  }

  /** One call, given what the cache found. */
  function Attempt(ms: seq<Member>, found: Option<Definitions>, behind: Behind): (seq<Member>, bool) {
    if Ready(ms) && found.Some? then Convert(found.value, ms, behind) else (ms, false)
  }

  /** The definitions a specification with this text has. */
  ghost function DefinitionsAt(w: Revisions.World, text: Option<string>): Option<Definitions> {
    if text.None? then None
    else
      var doc := Revisions.Document(w, text.value);
      if doc.None? then None else Some(DefinitionsOf(Get(doc.value, "histograms").members))
  }

  /** One call together with the cache, which is asked only for a document that is ready. */
  ghost function AttemptWith(w: Revisions.World, s: Revisions.State, ms: seq<Member>, visit: Revisions.Visit,
      behind: Behind):
    (Revisions.State, seq<Member>, bool)
  {
    if !Ready(ms) then (s, ms, false)
    else
      var (t, text) := Revisions.Find(w, s, Revision(ms), visit);
      var (r, ok) := Attempt(ms, DefinitionsAt(w, text), behind);
      (t, r, ok)
  }

  /** A document of version 1 with a revision and histograms is converted if the cache knows the revision, and its
      version then tells how that went; any other is not touched, and the cache is not asked. */
  lemma AttemptExactly(w: Revisions.World, s: Revisions.State, ms: seq<Member>, visit: Revisions.Visit, behind: Behind)
    ensures var (t, r, ok) := AttemptWith(w, s, ms, visit, behind);
      var info, histograms := Lookup(ms, "info"), Lookup(ms, "histograms");
      if info.Obj? && Lookup(info.members, "revision").Str? && histograms.Obj? && Lookup(ms, "ver") == Int(1) then
        var (after, text) := Revisions.Find(w, s, Lookup(info.members, "revision").s, visit);
        var defs := DefinitionsAt(w, text);
        && t == after
        && (defs.None? ==> r == ms && !ok)
        && (defs.Some? ==>
              var (hs, done) := RewriteAll(defs.value, histograms.members, behind, 0);
              ok == done && Lookup(r, "histograms") == Obj(hs) && Lookup(r, "ver") == Int(if done then 2 else -1))
      else (t, r, ok) == (s, ms, false)
  {
    hide Revisions.Find, DefinitionsAt, Lookup, RewriteAll;
    if Ready(ms) {
      var defs := DefinitionsAt(w, Revisions.Find(w, s, Revision(ms), visit).1);
      if defs.Some? { ConvertedOnce(defs.value, ms, behind, ""); }
      hide Convert;
    }
  }

  class Document {
    var members: seq<Member>

    constructor (members: seq<Member>)
      ensures this.members == members
    {
      this.members := members;
    }
  }

  lemma MadeAt(w: Revisions.World, h: Specification)
    requires IsMade(w, h)
    ensures h.Valid() && DefinitionsAt(w, Some(h.text)) == Some(h.mDefinitions)
  {
    RepresentsThat(h.mDefinitions, h.members);
  }

  method ConvertHistogramData(cache: HistogramCache, doc: Document, visit: Revisions.Visit, behind: Behind)
    returns (result: bool)
    requires cache.Valid()
    modifies cache, doc
    ensures cache.Valid()
    ensures (cache.View(), doc.members, result) ==
            AttemptWith(cache.w, old(cache.View()), old(doc.members), visit, behind)
  {
    hide RewriteAll, Put, Revisions.Find, Lookup, IsMade, DefinitionsAt;
    var info := Lookup(doc.members, "info");
    if !info.Obj? { return false; }
    var revision := Get(info, "revision");
    if !revision.Str? { return false; }
    var histograms := Lookup(doc.members, "histograms");
    if !histograms.Obj? { return false; }
    var ver := Lookup(doc.members, "ver");
    if !IsInt(ver) || ver.n != 1 { return false; }
    var hist := cache.FindHistogram(revision.s, visit);
    NothingAt(cache.w);
    if hist == null { return false; }
    MadeAt(cache.w, hist);
    var a := new Member[|histograms.members|](i requires 0 <= i < |histograms.members| => histograms.members[i]);
    assert a[..] == histograms.members;
    result := RewriteHistogram(hist, a, behind);
    doc.members := Put(doc.members, "histograms", Obj(a[..]));
    doc.members := Put(doc.members, "ver", Int(if result then 2 else -1));
  }

  lemma NothingAt(w: Revisions.World)
    ensures DefinitionsAt(w, None) == None
  {
  }

  lemma {:induction false} ValueIsMember(ms: seq<Member>, name: string)
    requires Lookup(ms, name) != Null
    ensures HasMember(ms, name)
  {
    if ms[0].0 != name { ValueIsMember(ms[1..], name); }
  }

  /** A converted document is not ready again; all but its histograms and its version is as it was. */
  lemma ConvertedOnce(defs: Definitions, ms: seq<Member>, behind: Behind, name: string)
    requires Ready(ms)
    ensures var (r, ok) := Convert(defs, ms, behind);
      && !Ready(r) && |r| == |ms|
      && Lookup(r, "ver") == Int(if ok then 2 else -1)
      && Lookup(r, "histograms") == Obj(RewriteAll(defs, Lookup(ms, "histograms").members, behind, 0).0)
      && (name != "ver" && name != "histograms" ==> Lookup(r, name) == Lookup(ms, name))
  {
    hide Lookup, Put, RewriteAll, HasMember;
    ValueIsMember(ms, "ver");
    ValueIsMember(ms, "histograms");
    var (hs, ok) := RewriteAll(defs, Lookup(ms, "histograms").members, behind, 0);
    var once := Put(ms, "histograms", Obj(hs));
    var v := Int(if ok then 2 else -1);
    assert "ver" != "histograms";
    PutThenLookup(ms, "histograms", Obj(hs), "ver");
    PutThenLookup(ms, "histograms", Obj(hs), "histograms");
    PutThenLookup(ms, "histograms", Obj(hs), name);
    PutThenLookup(once, "ver", v, "ver");
    PutThenLookup(once, "ver", v, "histograms");
    PutThenLookup(once, "ver", v, name);
  }

  /** The document after a run of calls, given what the cache found in each. */
  function After(ms: seq<Member>, founds: seq<Option<Definitions>>, behind: Behind): seq<Member>
    decreases |founds|
  {
    if founds == [] then ms else After(Attempt(ms, founds[0], behind).0, founds[1..], behind)
  }

  function Successes(ms: seq<Member>, founds: seq<Option<Definitions>>, behind: Behind): nat
    decreases |founds|
  {
    if founds == [] then 0
    else
      var (r, ok) := Attempt(ms, founds[0], behind);
      (if ok then 1 else 0) + Successes(r, founds[1..], behind)
  }

  /** The first of the calls in which the cache found something. */
  function FirstFound(founds: seq<Option<Definitions>>): Option<Definitions> {
    if founds == [] then None else if founds[0].Some? then founds[0] else FirstFound(founds[1..])
  }

  lemma {:induction false} NothingHappens(ms: seq<Member>, founds: seq<Option<Definitions>>, behind: Behind)
    requires !Ready(ms)
    ensures After(ms, founds, behind) == ms && Successes(ms, founds, behind) == 0
    decreases |founds|
  {
    hide Ready, Convert;
    if founds == [] {
    } else {
      NothingHappens(ms, founds[1..], behind);
    }
  }

  /** However often it is tried, the document is rewritten once at most, and success is reported once at most. */
  lemma {:induction false} ConvertsAtMostOnce(ms: seq<Member>, founds: seq<Option<Definitions>>, behind: Behind)
    ensures After(ms, founds, behind) == Attempt(ms, FirstFound(founds), behind).0
    ensures Successes(ms, founds, behind) == if Attempt(ms, FirstFound(founds), behind).1 then 1 else 0
    decreases |founds|
  {
    hide Ready, Convert;
    if founds == [] {
    } else {
      if Ready(ms) && founds[0].Some? {
        ConvertedOnce(founds[0].value, ms, behind, "");
        NothingHappens(Convert(founds[0].value, ms, behind).0, founds[1..], behind);
      } else {
        ConvertsAtMostOnce(ms, founds[1..], behind);
        if !Ready(ms) { NothingHappens(ms, founds[1..], behind); }
      }
    }
  }
}
