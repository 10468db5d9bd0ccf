/** Histogram definitions: which bucket a lower bound belongs to. */
module HistogramSpecification {
  import opened Json

  datatype Result<+T> = Ok(value: T) | Threw

  /** buckets: the index of each lower bound. */
  datatype Definition = Definition(kind: int, min: int, max: int, bucketCount: int, buckets: map<int, int>)

  /** Where a bound stands first. */
  function FirstIndex(bounds: seq<int>, b: int): (i: nat)
    ensures i <= |bounds|
    ensures i < |bounds| ==> bounds[i] == b
    ensures forall j :: 0 <= j < i ==> bounds[j] != b
  {
    if bounds == [] || bounds[0] == b then 0 else 1 + FirstIndex(bounds[1..], b)
  }

  /** Each bound leads to its first place, and there are as many bounds as buckets. */
  ghost predicate Maps(buckets: map<int, int>, bounds: seq<int>) {
    (forall b :: b in buckets <==> b in bounds) &&
    forall b :: b in buckets ==> buckets[b] == FirstIndex(bounds, b) < |bounds|
  }

  ghost predicate IsFor(def: Definition, bounds: seq<int>) {
    |bounds| == def.bucketCount && Maps(def.buckets, bounds) && forall i :: 0 <= i < |bounds| ==> Int32(bounds[i])
  }

  ghost predicate Valid(def: Definition) { exists bounds :: IsFor(def, bounds) }

  function Bounds(items: seq<Value>): seq<int>
    requires forall i :: 0 <= i < |items| ==> IsInt(items[i])
  {
    seq(|items|, i requires 0 <= i < |items| && IsInt(items[i]) => items[i].n)
  }

  /** What the constructor demands of a definition. */
  predicate Acceptable(v: Value) {
    v.Obj? && Get(v, "kind").Str? && LexicalInt(Get(v, "kind").s) &&
    IsInt(Get(v, "min")) && IsInt(Get(v, "max")) && IsInt(Get(v, "bucket_count")) && Get(v, "buckets").Arr? &&
    (forall i :: 0 <= i < |Get(v, "buckets").items| ==> IsInt(Get(v, "buckets").items[i])) &&
    |Get(v, "buckets").items| == Get(v, "bucket_count").n
  }

  /** A definition without one of its five members, or with another number of bounds than it says, is not taken. */
  lemma NotAcceptable(v: Value, name: string)
    requires v.Obj? && name in {"kind", "min", "max", "bucket_count", "buckets"}
    ensures Get(v, name).Null? ==> !Acceptable(v)
    ensures Get(v, "buckets").Arr? && Get(v, "bucket_count") != Int(|Get(v, "buckets").items|) ==> !Acceptable(v)
  {
    hide Lookup, LexicalInt;
  }

  ghost predicate IsMadeFrom(def: Definition, v: Value) {
    Acceptable(v) && def.kind == StrToL(Get(v, "kind").s) &&
    def.min == Get(v, "min").n && def.max == Get(v, "max").n && def.bucketCount == Get(v, "bucket_count").n &&
    IsFor(def, Bounds(Get(v, "buckets").items))
  }

  /** Accepts exactly the well-formed definitions; an accepted one maps each bound to its first place. */
  method NewDefinition(v: Value) returns (r: Result<Definition>)
    requires v.Obj?
    ensures r.Ok? <==> Acceptable(v)
    ensures r.Ok? ==> IsMadeFrom(r.value, v)
  {
    var k := Get(v, "kind");
    if !k.Str? || !LexicalInt(k.s) { return Threw; }
    var mn := Get(v, "min");
    if !IsInt(mn) { return Threw; }
    var mx := Get(v, "max");
    if !IsInt(mx) { return Threw; }
    var b := Get(v, "bucket_count");
    if !IsInt(b) { return Threw; }
    var a := Get(v, "buckets");
    if !a.Arr? { return Threw; }
    var buckets: map<int, int> := map[];
    var index := 0;
    while index < |a.items|
      invariant 0 <= index <= |a.items|
      invariant forall i :: 0 <= i < index ==> IsInt(a.items[i])
      invariant Maps(buckets, Bounds(a.items[..index]))
    {
      if !IsInt(a.items[index]) { return Threw; }
      var bound := a.items[index].n;
      InsertBound(buckets, Bounds(a.items[..index]), bound);
      assert Bounds(a.items[..index + 1]) == Bounds(a.items[..index]) + [bound];
      if bound !in buckets { buckets := buckets[bound := index]; }
      index := index + 1;
    }
    assert a.items[..index] == a.items;
    if index != b.n { return Threw; }
    r := Ok(Definition(StrToL(k.s), mn.n, mx.n, b.n, buckets));
  }

  lemma {:induction false} FirstIndexOfConcat(bounds: seq<int>, x: int, b: int)
    ensures FirstIndex(bounds + [x], b) ==
      if b in bounds then FirstIndex(bounds, b) else if b == x then |bounds| else |bounds| + 1
  {
    if bounds != [] && bounds[0] != b {
      FirstIndexOfConcat(bounds[1..], x, b);
      assert (bounds + [x])[1..] == bounds[1..] + [x];
    }
  }

  lemma InsertBound(buckets: map<int, int>, bounds: seq<int>, x: int)
    requires Maps(buckets, bounds)
    ensures Maps(if x in buckets then buckets else buckets[x := |bounds|], bounds + [x])
  {
    forall b ensures FirstIndex(bounds + [x], b) ==
      if b in bounds then FirstIndex(bounds, b) else if b == x then |bounds| else |bounds| + 1
    {
      FirstIndexOfConcat(bounds, x, b);
    }
    hide FirstIndex;
  }

  /** -1 for a bound the definition does not know; the bound is a long, and is looked up as an int. */
  function GetBucketIndex(def: Definition, bound: int): int {
    if Narrow(bound) in def.buckets then def.buckets[Narrow(bound)] else -1
  }

  /** Distinct bounds: the index of a bound is the place it stands at, and nothing else has an index. */
  lemma BucketIndexInverse(def: Definition, bounds: seq<int>, b: int)
    requires IsFor(def, bounds) && forall i, j :: 0 <= i < j < |bounds| ==> bounds[i] != bounds[j]
    ensures var i := GetBucketIndex(def, b);
      if Narrow(b) in bounds then 0 <= i < def.bucketCount && bounds[i] == Narrow(b) else i == -1
    ensures forall i :: 0 <= i < |bounds| ==> GetBucketIndex(def, bounds[i]) == i
  {
    forall i | 0 <= i < |bounds| ensures GetBucketIndex(def, bounds[i]) == i {
      assert bounds[i] in bounds;
    }
  }

  /** A definition written down comes back: its kind is a text, the bounds stand in order. */
  lemma MadeAsWritten(v: Value, kind: int, min: int, max: int, bounds: seq<int>, def: Definition)
    requires v.Obj? && Int32(kind) && Int32(min) && Int32(max) && Int32(|bounds|)
    requires Get(v, "kind") == Str(NameOf(kind)) && Get(v, "min") == Int(min) && Get(v, "max") == Int(max)
    requires Get(v, "bucket_count") == Int(|bounds|) && Get(v, "buckets").Arr?
    requires |Get(v, "buckets").items| == |bounds|
    requires forall i :: 0 <= i < |bounds| ==> Int32(bounds[i]) && Get(v, "buckets").items[i] == Int(bounds[i])
    ensures Acceptable(v)
    ensures IsMadeFrom(def, v) ==> def.kind == kind && def.min == min && def.max == max && IsFor(def, bounds)
  {
    NameIsLexical(kind);
    NameStandsForNumber(kind);
    hide NameOf, LexicalInt, StrToL, Lookup, Maps;
    var items := Get(v, "buckets").items;
    assert Bounds(items) == bounds;
  }

  // ---- a whole specification ----

  type Definitions = map<string, Definition>

  ghost predicate AllValid(defs: Definitions) {
    forall name :: name in defs ==> Valid(defs[name])
  }

  predicate AllAcceptable(ms: seq<Member>) {
    forall i :: 0 <= i < |ms| ==> Acceptable(ms[i].1)
  }

  /** Each name stands for the first member that has it. */
  ghost predicate Represents(defs: Definitions, ms: seq<Member>) {
    forall name :: (name in defs <==> HasMember(ms, name)) &&
                   (name in defs ==> IsMadeFrom(defs[name], Lookup(ms, name)))
  }

  /** Of definitions with the same name the first is kept; one that is not acceptable fails the whole. */
  method LoadDefinitions(doc: Value) returns (r: Result<Definitions>)
    requires doc.Obj?
    ensures r.Ok? <==> (Get(doc, "histograms").Obj? && AllAcceptable(Get(doc, "histograms").members))
    ensures r.Ok? ==> AllValid(r.value) && Represents(r.value, Get(doc, "histograms").members)
  {
    var histograms := Get(doc, "histograms");
    if !histograms.Obj? { return Threw; }
    var defs: Definitions := map[];
    var ms := histograms.members;
    hide Acceptable, AllAcceptable, Represents, IsMadeFrom, AllValid, HasMember, Lookup;
    AcceptableSoFar(ms, 0);
    NothingRepresented();
    for i := 0 to |ms|
      invariant AllAcceptable(ms[..i]) && Represents(defs, ms[..i])
    {
      AcceptableSoFar(ms, i);
      NotAnObject(ms[i].1);
      if !ms[i].1.Obj? { return Threw; }
      var def := NewDefinition(ms[i].1);
      if def.Threw? { return Threw; }
      InsertDefinition(defs, ms[..i], ms[i], def.value);
      if ms[i].0 !in defs { defs := defs[ms[i].0 := def.value]; }
    }
    RepresentsValid(defs, ms);
    r := Ok(defs);
  }

  lemma AcceptableSoFar(ms: seq<Member>, i: nat)
    requires i <= |ms|
    ensures ms[..0] == [] && AllAcceptable(ms[..0]) && ms[..|ms|] == ms
    ensures i < |ms| ==>
      && ms[..i + 1] == ms[..i] + [ms[i]]
      && (AllAcceptable(ms[..i + 1]) <==> AllAcceptable(ms[..i]) && Acceptable(ms[i].1))
      && (AllAcceptable(ms) ==> Acceptable(ms[i].1))
  {
    hide Acceptable;
  }

  lemma NotAnObject(v: Value)
    ensures !v.Obj? ==> !Acceptable(v)
  {
  }

  lemma NothingRepresented()
    ensures Represents(map[], [])
  {
  }

  lemma RepresentsValid(defs: Definitions, ms: seq<Member>)
    requires Represents(defs, ms)
    ensures AllValid(defs)
  {
    hide Acceptable, IsFor;
  }

  lemma InsertDefinition(defs: Definitions, ms: seq<Member>, m: Member, def: Definition)
    requires Represents(defs, ms) && IsMadeFrom(def, m.1)
    ensures Represents(if m.0 in defs then defs else defs[m.0 := def], ms + [m])
  {
    hide IsMadeFrom, Lookup, HasMember;
    var defs' := if m.0 in defs then defs else defs[m.0 := def];
    forall name ensures (name in defs' <==> HasMember(ms + [m], name)) &&
                        (name in defs' ==> IsMadeFrom(defs'[name], Lookup(ms + [m], name)))
    {
      LookupConcat(ms, m, name);
      assert name in defs <==> HasMember(ms, name);
    }
  }

  lemma SameBuckets(m: map<int, int>, n: map<int, int>, bounds: seq<int>)
    requires Maps(m, bounds) && Maps(n, bounds)
    ensures m == n
  {
    forall b | b in m ensures b in n && m[b] == n[b] {
      assert b in bounds;
    }
    forall b | b in n ensures b in m {
      assert b in bounds;
    }
  }

  lemma SameDefinition(a: Definition, b: Definition, v: Value)
    requires IsMadeFrom(a, v) && IsMadeFrom(b, v)
    ensures a == b
  {
    SameBuckets(a.buckets, b.buckets, Bounds(Get(v, "buckets").items));
  }

  /** A document leads to one set of definitions. */
  lemma RepresentsOne(a: Definitions, b: Definitions, ms: seq<Member>)
    requires Represents(a, ms) && Represents(b, ms)
    ensures a == b
  {
    hide IsMadeFrom, Lookup, HasMember;
    forall name | name in a ensures name in b && a[name] == b[name] {
      assert HasMember(ms, name);
      SameDefinition(a[name], b[name], Lookup(ms, name));
    }
    forall name | name in b ensures name in a {
      assert HasMember(ms, name);
    }
  }

  /** The definition made from the first member of a name is the one kept under it. */
  lemma MadeIsKept(defs: Definitions, ms: seq<Member>, name: string, def: Definition)
    requires Represents(defs, ms) && HasMember(ms, name) && IsMadeFrom(def, Lookup(ms, name))
    ensures name in defs && defs[name] == def
  {
    hide IsMadeFrom, Lookup, HasMember;
    SameDefinition(defs[name], def, Lookup(ms, name));
  }

  ghost function DefinitionsOf(ms: seq<Member>): Definitions {
    if exists defs :: Represents(defs, ms) then
      var defs :| Represents(defs, ms);
      defs
    else map[]
  }

  lemma RepresentsThat(defs: Definitions, ms: seq<Member>)
    requires Represents(defs, ms)
    ensures defs == DefinitionsOf(ms)
  {
    RepresentsOne(defs, DefinitionsOf(ms), ms);
  }
}
