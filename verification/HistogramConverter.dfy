/** From sparse histograms to dense ones, once per document. */
module HistogramConverter {
  import opened Json
  import opened HistogramSpecification

  const EXTRA_BUCKETS := ["sum", "log_sum", "log_sum_squares", "sum_squares_lo", "sum_squares_hi"]
  const EXTRA_BUCKETS_SIZE := 5

  // ---- one histogram ----

  /** The bound a member is named after. */
  function LowerBound(name: string): int { Narrow(StrToL(name)) }

  function IndexOf(def: Definition, m: Member): int { GetBucketIndex(def, StrToL(m.0)) }

  predicate Sparse(def: Definition, ms: seq<Member>) {
    forall i :: 0 <= i < |ms| ==> IsInt(ms[i].1) && IndexOf(def, ms[i]) != -1
  }

  /** What can be made dense. */
  predicate Convertible(def: Definition, data: Value) {
    data.Obj? && Get(data, "values").Obj? && Sparse(def, Get(data, "values").members)
  }

  /** A slot holds the value of the last member whose bound maps to it, or 0. */
  function SlotValue(def: Definition, ms: seq<Member>, j: int): int
    requires Sparse(def, ms)
  {
    if ms == [] then 0
    else
      var last := ms[|ms| - 1];
      if IndexOf(def, last) == j then last.1.n else SlotValue(def, ms[..|ms| - 1], j)
  }

  function Dense(def: Definition, ms: seq<Member>): (r: seq<int>)
    requires Sparse(def, ms) && 0 <= def.bucketCount
    ensures |r| == def.bucketCount
    ensures forall j :: 0 <= j < |r| ==> r[j] == SlotValue(def, ms, j)
  {
    seq(def.bucketCount, j requires 0 <= j => SlotValue(def, ms, j))
  }

  /** Every index is in range, because the bounds were counted. */
  lemma IndexInRange(def: Definition, b: int)
    requires Valid(def)
    ensures -1 <= GetBucketIndex(def, b) < def.bucketCount && 0 <= def.bucketCount
  {
    var bounds :| IsFor(def, bounds);
  }

  /** Succeeds exactly on a sparse histogram that fits the definition. */
  method RewriteValues(def: Definition, data: Value, rewrite: array<int>) returns (ok: bool)
    requires Valid(def) && data.Obj? && rewrite.Length == def.bucketCount
    requires forall j :: 0 <= j < rewrite.Length ==> rewrite[j] == 0
    modifies rewrite
    ensures ok <==> Convertible(def, data)
    ensures ok ==> rewrite[..] == Dense(def, Get(data, "values").members)
  {
    var values := Get(data, "values");
    if !values.Obj? { return false; }
    var ms := values.members;
    for k := 0 to |ms|
      invariant Sparse(def, ms[..k])
      invariant forall j :: 0 <= j < rewrite.Length ==> rewrite[j] == SlotValue(def, ms[..k], j)
    {
      assert ms[..k + 1][..k] == ms[..k];
      if !IsInt(ms[k].1) { return false; }
      var lb := StrToL(ms[k].0);
      var index := GetBucketIndex(def, lb);
      IndexInRange(def, lb);
      if index == -1 { return false; }
      rewrite[index] := ms[k].1.n;
    }
    assert ms[..|ms|] == ms;
    ok := true;
  }

  // ---- sums and the way back ----

  function Sum(s: seq<int>): int {
    if s == [] then 0 else Sum(s[..|s| - 1]) + s[|s| - 1]
  }

  ghost predicate Counts(ms: seq<Member>) { forall i :: 0 <= i < |ms| ==> ms[i].1.Int? }

  function SumValues(ms: seq<Member>): int
    requires Counts(ms)
  {
    if ms == [] then 0 else SumValues(ms[..|ms| - 1]) + ms[|ms| - 1].1.n
  }

  /** The last value given for a bound; 0 if there is none. */
  function LastValue(ms: seq<Member>, b: int): int
    requires Counts(ms)
  {
    if ms == [] then 0
    else if LowerBound(ms[|ms| - 1].0) == b then ms[|ms| - 1].1.n
    else LastValue(ms[..|ms| - 1], b)
  }

  /** What is given for a bound and then replaced, because the bound is given again. */
  function Lost(ms: seq<Member>): int
    requires Counts(ms)
  {
    if ms == [] then 0
    else Lost(ms[..|ms| - 1]) + LastValue(ms[..|ms| - 1], LowerBound(ms[|ms| - 1].0))
  }

  lemma {:induction false} SumUpdate(s: seq<int>, j: nat, x: int)
    requires j < |s|
    ensures Sum(s[j := x]) == Sum(s) - s[j] + x
  {
    var n := |s| - 1;
    if j == n {
      assert s[j := x][..n] == s[..n];
    } else {
      SumUpdate(s[..n], j, x);
      assert s[j := x][..n] == s[..n][j := x];
    }
  }

  lemma {:induction false} SumZeros(s: seq<int>)
    requires forall j :: 0 <= j < |s| ==> s[j] == 0
    ensures Sum(s) == 0
  {
    if s == [] {
    } else {
      SumZeros(s[..|s| - 1]);
    }
  }

  lemma SameIndexSameBound(def: Definition, bounds: seq<int>, a: int, b: int)
    requires IsFor(def, bounds) && GetBucketIndex(def, b) != -1
    ensures GetBucketIndex(def, a) == GetBucketIndex(def, b) <==> Narrow(a) == Narrow(b)
  {
  }

  /** Slots go by bound. */
  lemma {:induction false} SlotIsLastValue(def: Definition, bounds: seq<int>, ms: seq<Member>, b: int)
    requires IsFor(def, bounds) && Sparse(def, ms) && GetBucketIndex(def, b) != -1
    ensures SlotValue(def, ms, GetBucketIndex(def, b)) == LastValue(ms, Narrow(b))
  {
    if ms == [] {
    } else {
      SameIndexSameBound(def, bounds, StrToL(ms[|ms| - 1].0), b);
      hide StrToL, GetBucketIndex, IsFor, Narrow;
      SlotIsLastValue(def, bounds, ms[..|ms| - 1], b);
    }
  }

  lemma {:induction false} SlotsSum(def: Definition, bounds: seq<int>, ms: seq<Member>)
    requires IsFor(def, bounds) && Sparse(def, ms)
    ensures Sum(Dense(def, ms)) == SumValues(ms) - Lost(ms)
  {
    var dense := Dense(def, ms);
    if ms == [] {
      SumZeros(dense);
    } else {
      var n := |ms| - 1;
      var j, before := IndexOf(def, ms[n]), Dense(def, ms[..n]);
      IndexInRange(def, StrToL(ms[n].0));
      SlotsSum(def, bounds, ms[..n]);
      SlotIsLastValue(def, bounds, ms[..n], StrToL(ms[n].0));
      hide IsFor, StrToL, Narrow, GetBucketIndex, LastValue;
      assert dense == before[j := ms[n].1.n];
      SumUpdate(before, j, ms[n].1.n);
    }
  }

  predicate DistinctBounds(ms: seq<Member>) {
    forall i, j :: 0 <= i < j < |ms| ==> LowerBound(ms[i].0) != LowerBound(ms[j].0)
  }

  lemma {:induction false} NothingLost(ms: seq<Member>)
    requires Counts(ms) && DistinctBounds(ms)
    ensures Lost(ms) == 0
  {
    hide LowerBound;
    if ms == [] {
    } else {
      var n := |ms| - 1;
      NothingLost(ms[..n]);
      NotGiven(ms[..n], LowerBound(ms[n].0));
    }
  }

  lemma {:induction false} NotGiven(ms: seq<Member>, b: int)
    requires Counts(ms) && forall i :: 0 <= i < |ms| ==> LowerBound(ms[i].0) != b
    ensures LastValue(ms, b) == 0
  {
    hide LowerBound;
    if ms == [] {
    } else {
      NotGiven(ms[..|ms| - 1], b);
    }
  }

  /** The total is kept exactly if what is replaced adds up to 0; nothing is replaced if no bound is given twice. */
  lemma TotalPreservedExactly(def: Definition, ms: seq<Member>)
    requires Valid(def) && 0 <= def.bucketCount && Sparse(def, ms)
    ensures Sum(Dense(def, ms)) == SumValues(ms) <==> Lost(ms) == 0
    ensures DistinctBounds(ms) ==> Lost(ms) == 0
  {
    var bounds :| IsFor(def, bounds);
    SlotsSum(def, bounds, ms);
    if DistinctBounds(ms) { NothingLost(ms); }
  }

  /** The nonzero counts by lower bound, read off the dense form. */
  ghost function Rebuild(bounds: seq<int>, dense: seq<int>): map<int, int>
    requires |bounds| == |dense|
  {
    map b | b in bounds && dense[FirstIndex(bounds, b)] != 0 :: dense[FirstIndex(bounds, b)]
  }

  ghost function BoundsOf(ms: seq<Member>): set<int> {
    set i | 0 <= i < |ms| :: LowerBound(ms[i].0)
  }

  /** For each bound among the members the last value given for it, unless that is 0. */
  ghost function CountsOf(ms: seq<Member>): map<int, int>
    requires Counts(ms)
  {
    map b: int | b in BoundsOf(ms) && LastValue(ms, b) != 0 :: LastValue(ms, b)
  }

  lemma MemberBounds(def: Definition, bounds: seq<int>, ms: seq<Member>, b: int)
    requires IsFor(def, bounds) && Sparse(def, ms) && b in BoundsOf(ms)
    ensures b in bounds
  {
    var i :| 0 <= i < |ms| && LowerBound(ms[i].0) == b;
    assert IndexOf(def, ms[i]) != -1;
  }

  /** The way back: the nonzero counts can be rebuilt from the dense form, for any members whatever. */
  lemma Rebuilt(def: Definition, bounds: seq<int>, ms: seq<Member>)
    requires IsFor(def, bounds) && Sparse(def, ms)
    ensures Rebuild(bounds, Dense(def, ms)) == CountsOf(ms)
  {
    var dense := Dense(def, ms);
    var r, c := Rebuild(bounds, dense), CountsOf(ms);
    forall b | b in bounds ensures dense[FirstIndex(bounds, b)] == LastValue(ms, b) {
      assert GetBucketIndex(def, b) == FirstIndex(bounds, b);
      SlotIsLastValue(def, bounds, ms, b);
    }
    hide SlotValue, LowerBound, LastValue, Dense, IsFor, Sparse;
    forall b | b in c ensures b in r && r[b] == c[b] {
      MemberBounds(def, bounds, ms, b);
    }
    forall b | b in r ensures b in c {
      if b !in BoundsOf(ms) { NotGiven(ms, b); }
    }
  }

  // ---- which slot ----

  /** A member puts its value into its own slot, over what was there, and leaves all others alone. */
  lemma NextMember(def: Definition, ms: seq<Member>, m: Member, j: int)
    requires Sparse(def, ms + [m])
    ensures Sparse(def, ms) && m.1.Int?
    ensures SlotValue(def, ms + [m], j) == if IndexOf(def, m) == j then m.1.n else SlotValue(def, ms, j)
  {
    assert forall i :: 0 <= i < |ms| ==> (ms + [m])[i] == ms[i];
    assert (ms + [m])[..|ms|] == ms && (ms + [m])[|ms|] == m;
  }

  /** Each member bears the name of a bound, and no name comes twice. */
  ghost predicate NamedAfter(bounds: seq<int>, ms: seq<Member>) {
    (forall i :: 0 <= i < |ms| ==> IsInt(ms[i].1) && IsNameOfOne(bounds, ms[i].0)) &&
    forall i, j :: 0 <= i < j < |ms| ==> ms[i].0 != ms[j].0
  }

  ghost predicate IsNameOfOne(bounds: seq<int>, name: string) {
    exists j :: 0 <= j < |bounds| && name == NameOf(bounds[j])
  }

  lemma BoundOfName(b: int)
    requires Int32(b)
    ensures LowerBound(NameOf(b)) == b && StrToL(NameOf(b)) == b
  {
    NameStandsForNumber(b);
  }

  lemma NamedIsSparse(def: Definition, bounds: seq<int>, ms: seq<Member>)
    requires IsFor(def, bounds) && NamedAfter(bounds, ms)
    ensures Sparse(def, ms)
  {
    forall i | 0 <= i < |ms| ensures IndexOf(def, ms[i]) != -1 {
      assert IsNameOfOne(bounds, ms[i].0);
      var j :| 0 <= j < |bounds| && ms[i].0 == NameOf(bounds[j]);
      BoundOfName(bounds[j]);
      assert bounds[j] in bounds;
    }
  }

  /** Nothing is made dense if one count is no int, or is named after a number that is no bound. */
  lemma StrayIsRefused(def: Definition, bounds: seq<int>, data: Value, ms: seq<Member>, i: nat, b: int)
    requires IsFor(def, bounds) && data.Obj? && Get(data, "values") == Obj(ms) && i < |ms| && Int32(b)
    requires !IsInt(ms[i].1) || (ms[i].0 == NameOf(b) && b !in bounds)
    ensures !Convertible(def, data)
  {
    BoundOfName(b);
    hide NameOf, StrToL, Lookup, FirstIndex;
  }

  lemma OneFewer(bounds: seq<int>, ms: seq<Member>)
    requires NamedAfter(bounds, ms) && ms != []
    ensures Counts(ms) && NamedAfter(bounds, ms[..|ms| - 1]) && IsNameOfOne(bounds, ms[|ms| - 1].0)
    ensures forall i :: 0 <= i < |ms| - 1 ==> ms[i].0 != ms[|ms| - 1].0
  {
    hide IsNameOfOne;
    var front := ms[..|ms| - 1];
    forall i | 0 <= i < |front| ensures IsInt(front[i].1) && IsNameOfOne(bounds, front[i].0) {
      assert IsInt(ms[i].1) && IsNameOfOne(bounds, ms[i].0);
    }
  }

  lemma OtherBound(bounds: seq<int>, name: string, b: int)
    requires (forall k :: 0 <= k < |bounds| ==> Int32(bounds[k])) && IsNameOfOne(bounds, name)
    requires Int32(b) && name != NameOf(b)
    ensures LowerBound(name) != b
  {
    var j :| 0 <= j < |bounds| && name == NameOf(bounds[j]);
    BoundOfName(bounds[j]);
    hide LowerBound, NameOf, StrToL;
  }

  lemma {:induction false} LastOfName(bounds: seq<int>, ms: seq<Member>, i: nat, b: int)
    requires (forall k :: 0 <= k < |bounds| ==> Int32(bounds[k])) && NamedAfter(bounds, ms)
    requires i < |ms| && Int32(b) && ms[i].0 == NameOf(b)
    ensures Counts(ms) && LastValue(ms, b) == ms[i].1.n
    decreases |ms|
  {
    hide LowerBound, NameOf, StrToL, NamedAfter, IsNameOfOne, Int32;
    OneFewer(bounds, ms);
    BoundOfName(b);
    if i < |ms| - 1 {
      OtherBound(bounds, ms[|ms| - 1].0, b);
      LastOfName(bounds, ms[..|ms| - 1], i, b);
    }
  }

  /** In plain words: of a histogram whose counts are named after the lower bounds of the buckets, in decimal, the
      count named after the j-th bound ends up in slot j. */
  lemma CountGoesToItsSlot(def: Definition, bounds: seq<int>, ms: seq<Member>, i: nat, j: nat)
    requires IsFor(def, bounds) && forall k, l :: 0 <= k < l < |bounds| ==> bounds[k] != bounds[l]
    requires NamedAfter(bounds, ms) && i < |ms| && j < |bounds| && ms[i].0 == NameOf(bounds[j])
    ensures Sparse(def, ms) && |Dense(def, ms)| == |bounds| && Dense(def, ms)[j] == ms[i].1.n
  {
    NamedIsSparse(def, bounds, ms);
    BucketIndexInverse(def, bounds, bounds[j]);
    SlotIsLastValue(def, bounds, ms, bounds[j]);
    LastOfName(bounds, ms, i, bounds[j]);
    hide SlotValue, LastValue, NameOf, StrToL, IndexOf, Sparse, NamedAfter;
  }
}
