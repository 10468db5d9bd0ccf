/** The two-level cache of histogram specifications, by revision and by content. */
module HistogramCaches {
  import opened Bytes
  import opened HistogramSpecification
  import opened Json
  import opened Revisions
  import Codec
  import Descriptors
  import M = Metrics
  import MessageParser

  /** Compared by identity: revisions that share one hold the same object. */
  class Specification {
    const mDefinitions: Definitions
    ghost const text: string
    ghost const members: seq<Member>  // the definitions as the text has them

    constructor (definitions: Definitions, ghost text: string, ghost members: seq<Member>)
      requires Represents(definitions, members)
      ensures mDefinitions == definitions && this.text == text && this.members == members && Valid()
    {
      mDefinitions := definitions;
      this.text := text;
      this.members := members;
    }

    ghost predicate Valid() { Represents(mDefinitions, members) }

    /** The definition made from the first member of that name, if there is any. */
    method GetDefinition(name: string) returns (def: Option<Definition>)
      requires Valid()
      ensures def.Some? <==> HasMember(members, name)
      ensures def.Some? ==> IsMadeFrom(def.value, Lookup(members, name))
    {
      def := if name in mDefinitions then Some(mDefinitions[name]) else None;
    }
  }

  ghost predicate IsMade(w: World, h: Specification) {
    var doc := Document(w, h.text);
    doc.Some? && h.Valid() && h.members == Get(doc.value, "histograms").members
  }

  ghost function TextOf(h: Specification?): Option<string> {
    if h == null then None else Some(h.text)
  }

  ghost function RevisionTexts(m: map<string, Specification?>): map<string, Option<string>> {
    map key | key in m :: TextOf(m[key])
  }

  ghost function CacheTexts(m: map<string, Specification>): map<string, string> {
    map d | d in m :: m[d].text
  }

  lemma RevisionTextsOfInsert(m: map<string, Specification?>, key: string, h: Specification?)
    ensures RevisionTexts(Insert(m, key, h)) == Insert(RevisionTexts(m), key, TextOf(h))
  {
  }

  lemma CacheTextsOfUpdate(m: map<string, Specification>, d: string, h: Specification)
    ensures CacheTexts(m[d := h]) == CacheTexts(m)[d := h.text]
  {
  }

  lemma CacheTextsDomain(m: map<string, Specification>)
    ensures forall d :: d in CacheTexts(m) <==> d in m
    ensures forall d :: d in m ==> CacheTexts(m)[d] == m[d].text
  {
  }

  method NewSpecification(w: World, text: string) returns (r: Result<Specification>)
    ensures r.Ok? <==> Document(w, text).Some?
    ensures r.Ok? ==> fresh(r.value) && r.value.text == text && IsMade(w, r.value)
  {
    hide Represents, AllValid;
    var doc := w.parse(text);
    if doc.None? || !doc.value.Obj? { return Threw; }
    var defs := LoadDefinitions(doc.value);
    if defs.Threw? { return Threw; }
    var h := new Specification(defs.value, text, Get(doc.value, "histograms").members);
    r := Ok(h);
  }

  class HistogramCache {
    const w: World
    var mRevisions: map<string, Specification?>
    var mCache: map<string, Specification>
    var disk: map<string, string>
    var mMetrics: Metrics

    constructor (w: World, disk: map<string, string>)
      ensures Valid() && this.w == w && View() == State(map[], map[], disk, ZERO)
    {
      this.w := w;
      this.disk := disk;
      mRevisions, mCache, mMetrics := map[], map[], ZERO;
    }

    /** Every specification that a revision leads to is the one its text leads to. */
    ghost predicate Valid()
      reads this
    {
      (forall d :: d in mCache ==> w.digest(mCache[d].text) == d && IsMade(w, mCache[d])) &&
      (forall key :: key in mRevisions && mRevisions[key] != null ==> Cached(mRevisions[key]))
    }

    ghost predicate Cached(h: Specification)
      reads this`mCache
    {
      w.digest(h.text) in mCache && mCache[w.digest(h.text)] == h
    }

    ghost function View(): State
      reads this
    {
      State(RevisionTexts(mRevisions), CacheTexts(mCache), disk, mMetrics)
    }

    /** Two revisions share one specification exactly if the texts digested were equal. */
    lemma Sharing(a: string, b: string)
      requires Valid() && NoCollision(w) && a in mRevisions && b in mRevisions
      requires mRevisions[a] != null && mRevisions[b] != null
      ensures mRevisions[a] == mRevisions[b] <==> mRevisions[a].text == mRevisions[b].text
    {
      hide IsMade;
    }

    method FindHistogram(key: string, visit: Visit) returns (h: Specification?)
      requires Valid()
      modifies this
      ensures Valid()
      ensures (View(), TextOf(h)) == Find(w, old(View()), key, visit)
      ensures h != null ==> IsMade(w, h) && Cached(h)
    {
      hide Load, IsMade;
      h := null;
      if !("http" <= key) {
        mMetrics := mMetrics.(invalidRevisions := mMetrics.invalidRevisions + 1);
        return;
      }
      if key in mRevisions {
        mMetrics := mMetrics.(cacheHits := mMetrics.cacheHits + 1);
        h := mRevisions[key];
      } else {
        mMetrics := mMetrics.(cacheMisses := mMetrics.cacheMisses + 1);
        var r := LoadHistogram(key, visit);
        if r.Threw? {
          mMetrics := mMetrics.(connectionErrors := mMetrics.connectionErrors + 1);
        } else {
          h := r.value;
        }
      }
    }

    method LoadHistogram(key: string, visit: Visit) returns (r: Result<Specification?>)
      requires Valid()
      modifies this
      ensures Valid()
      ensures (View(), if r.Ok? then Ok(TextOf(r.value)) else Threw) == Load(w, old(View()), key, visit)
      ensures r.Ok? && r.value != null ==> IsMade(w, r.value) && Cached(r.value)
    {
      hide IsMade, Document, Strip, TmpName, RevisionTexts, CacheTexts, Insert, Admit;
      var json: string;
      var tmpName := TmpName(key);
      if tmpName !in disk {
        if visit.reply.Unreachable? { return Threw; }
        if visit.reply.NotHttp? {
          mMetrics := mMetrics.(httpErrors := mMetrics.httpErrors + 1);
          return Ok(null);
        }
        if visit.reply.status != 200 {
          mMetrics := mMetrics.(httpErrors := mMetrics.httpErrors + 1);
          Remember(key, null);
          return Ok(null);
        }
        if visit.reply.body.None? { return Threw; }
        if visit.saving.Raised? {
          mMetrics := mMetrics.(invalidHistograms := mMetrics.invalidHistograms + 1);
          return Ok(null);
        }
        json := visit.reply.body.value;
        if visit.saving.Written? { disk := disk[tmpName := json]; }
      } else {
        json := Strip(disk[tmpName]);
      }
      assert Fetch(key, visit, old(disk)) == Json(json);
      r := AdmitText(key, json);
    }

    /** Revisions with the same text share what the first of them has led to. */
    method AdmitText(key: string, json: string) returns (r: Result<Specification?>)
      requires Valid()
      modifies this`mRevisions, this`mCache
      ensures Valid()
      ensures (View(), if r.Ok? then Ok(TextOf(r.value)) else Threw) == Admit(w, old(View()), key, json)
      ensures r.Ok? ==> r.value != null && IsMade(w, r.value) && Cached(r.value)
    {
      hide IsMade, Document, RevisionTexts, CacheTexts, Insert;
      CacheTextsDomain(mCache);
      var k := w.digest(json);
      if k in mCache {
        Remember(key, mCache[k]);
        return Ok(mCache[k]);
      }
      var h := NewSpecification(w, json);
      if h.Threw? { return Threw; }
      CacheTextsOfUpdate(mCache, k, h.value);
      mCache := mCache[k := h.value];
      Remember(key, h.value);
      r := Ok(h.value);
    }

    /** The entry is made unless there is one. */
    method Remember(key: string, h: Specification?)
      requires Valid() && (h != null ==> Cached(h))
      modifies this`mRevisions
      ensures Valid()
      ensures View() == old(View()).(revisions := Insert(old(View()).revisions, key, TextOf(h)))
    {
      hide IsMade, CacheTexts, RevisionTexts;
      RevisionTextsOfInsert(mRevisions, key, h);
      mRevisions := Insert(mRevisions, key, h);
    }

    /** The counts since the last report, as the fields of a message; bits is the double of a count. */
    method GetMetrics(msg: MessageParser.MessageObject, bits: nat -> nat)
      requires Valid()
      requires msg.Valid() && msg.desc == Descriptors.MESSAGE && Codec.MessageOk(Descriptors.MESSAGE, msg.Value())
      requires forall n :: bits(n) < 0x1_0000_0000_0000_0000
      modifies this`mMetrics, msg
      ensures M.Reports(msg, MetricsOf(old(mMetrics), bits), old(msg.Value()))
      ensures Valid() && View() == old(View()).(metrics := ZERO)
    {
      hide IsMade;
      M.Report(msg, MetricsOf(mMetrics, bits));
      mMetrics := ZERO;
    }
  }

  function MetricsOf(m: Metrics, bits: nat -> nat): seq<M.Metric> {
    [M.Named("Connection Errors", "count", bits(m.connectionErrors)),
     M.Named("HTTP Errors", "count", bits(m.httpErrors)),
     M.Named("Invalid Histograms", "count", bits(m.invalidHistograms)),
     M.Named("Invalid Revisions", "count", bits(m.invalidRevisions)),
     M.Named("Cache Hits", "count", bits(m.cacheHits)),
     M.Named("Cache Misses", "count", bits(m.cacheMisses))]
  }

  /** Each count is reported under its own name. */
  lemma ReportedByName(m: Metrics, bits: nat -> nat)
    ensures var ms := MetricsOf(m, bits);
      && M.IsReported(ms, "Connection Errors", bits(m.connectionErrors), "count")
      && M.IsReported(ms, "HTTP Errors", bits(m.httpErrors), "count")
      && M.IsReported(ms, "Invalid Histograms", bits(m.invalidHistograms), "count")
      && M.IsReported(ms, "Invalid Revisions", bits(m.invalidRevisions), "count")
      && M.IsReported(ms, "Cache Hits", bits(m.cacheHits), "count")
      && M.IsReported(ms, "Cache Misses", bits(m.cacheMisses), "count")
  {
    M.OtherName("Connection Errors", "Invalid Revisions", 0);
    hide M.Ascii;
    var ms := MetricsOf(m, bits);
    assert M.IsOnly(ms, M.Ascii("Connection Errors"), 0);
    assert M.IsOnly(ms, M.Ascii("HTTP Errors"), 1);
    assert M.IsOnly(ms, M.Ascii("Invalid Histograms"), 2);
    assert M.IsOnly(ms, M.Ascii("Invalid Revisions"), 3);
    assert M.IsOnly(ms, M.Ascii("Cache Hits"), 4);
    assert M.IsOnly(ms, M.Ascii("Cache Misses"), 5);
  }
}
