/** Any number of converters sharing one input directory: scan, claim by rename, process, remove, wait. */
module Converters {

  type Name = string
  type Id = nat  // one delivery of a file

  /** Where a converter is in its loop. since: the names delivered while it scans, which the scan may miss. */
  datatype Phase =
    | Starting
    | Scanning(since: set<Name>)
    | Picked(name: Name)      // found by the scan, about to be renamed
    | Processing(name: Name)  // renamed into the temp directory
    | Waiting                 // in read, for an event
    | Stopped

  datatype Worker = Worker(phase: Phase, watching: bool, events: nat)

  /** claims: who renamed what, in order. */
  datatype State = State(dir: map<Name, Id>, temp: map<Name, Id>, removed: set<Id>, delivered: nat,
                         workers: seq<Worker>, claims: seq<(nat, Id)>)

  datatype Step =
    | Deliver(file: Name)
    | Watch(w: nat)
    | Find(w: nat, found: Name)
    | NothingFound(w: nat)
    | Claim(w: nat)
    | Miss(w: nat)
    | Finish(w: nat, ok: bool)
    | Wake(w: nat, consumed: nat)
    | Stop(w: nat)

  function Start(workers: nat): State {
    State(map[], map[], {}, 0, seq(workers, _ => Worker(Starting, false, 0)), [])
  }

  predicate Enabled(s: State, step: Step) {
    if step.Deliver? then step.file !in s.dir && step.file !in s.temp
    else
      step.w < |s.workers| &&
      var me := s.workers[step.w];
      match step
      case Watch(_) => me.phase.Starting?
      case Find(_, name) => me.phase.Scanning? && name in s.dir
      case NothingFound(_) => me.phase.Scanning? && s.dir.Keys <= me.phase.since
      case Claim(_) => me.phase.Picked? && me.phase.name in s.dir
      case Miss(_) => me.phase.Picked? && me.phase.name !in s.dir
      case Finish(_, _) => me.phase.Processing? && me.phase.name in s.temp
      case Wake(_, n) => me.phase.Waiting? && 1 <= n <= me.events
      case Stop(_) => me.phase.Scanning? || me.phase.Waiting?
      case Deliver(_) => false
  }

  function Go(s: State, w: nat, phase: Phase): State
    requires w < |s.workers|
  {
    s.(workers := s.workers[w := s.workers[w].(phase := phase)])
  }

  function Notified(me: Worker, file: Name): Worker {
    var phase := if me.phase.Scanning? then Scanning(me.phase.since + {file}) else me.phase;
    Worker(phase, me.watching, if me.watching then me.events + 1 else me.events)
  }

  /** The rename: whatever had the name in the temp directory is replaced. */
  function Rename(s: State, w: nat, name: Name): State
    requires w < |s.workers| && name in s.dir
  {
    Go(s, w, Processing(name)).(dir := s.dir - {name}, temp := s.temp[name := s.dir[name]],
                                claims := s.claims + [(w, s.dir[name])])
  }

  function Next(s: State, step: Step): State
    requires Enabled(s, step)
  {
    match step
    case Deliver(file) =>
      s.(dir := s.dir[file := s.delivered], delivered := s.delivered + 1,
         workers := seq(|s.workers|, i requires 0 <= i < |s.workers| => Notified(s.workers[i], file)))
    case Watch(w) =>
      s.(workers := s.workers[w := Worker(Scanning({}), true, s.workers[w].events)])
    case Find(w, name) => Go(s, w, Picked(name))
    case NothingFound(w) => Go(s, w, Waiting)
    case Claim(w) => Rename(s, w, s.workers[w].phase.name)
    case Miss(w) => Go(s, w, Scanning({}))
    case Finish(w, ok) =>
      var name := s.workers[w].phase.name;
      var t := Go(s, w, Scanning({}));
      if ok then t.(temp := s.temp - {name}, removed := s.removed + {s.temp[name]}) else t
    case Wake(w, n) =>
      s.(workers := s.workers[w := Worker(Scanning({}), s.workers[w].watching, s.workers[w].events - n)])
    case Stop(w) => Go(s, w, Stopped)
  }

  // ---- the invariant ----

  predicate Injective(m: map<Name, Id>) {
    forall a, b :: a in m && b in m && m[a] == m[b] ==> a == b
  }

  /** Every delivery is in exactly one place. */
  predicate Accounted(s: State) {
    Injective(s.dir) && Injective(s.temp) && s.dir.Keys !! s.temp.Keys &&
    (forall a, b :: a in s.dir && b in s.temp ==> s.dir[a] != s.temp[b]) &&
    (forall a :: a in s.dir ==> s.dir[a] < s.delivered && s.dir[a] !in s.removed) &&
    (forall a :: a in s.temp ==> s.temp[a] < s.delivered && s.temp[a] !in s.removed) &&
    (forall id :: id in s.removed ==> id < s.delivered) &&
    (forall id: Id :: id < s.delivered ==> id in s.dir.Values || id in s.temp.Values || id in s.removed)
  }

  /** Each delivery is claimed at most once, by one converter, and exactly those no longer in the directory are. */
  predicate ClaimedOnce(s: State) {
    (forall i, j :: 0 <= i < j < |s.claims| ==> s.claims[i].1 != s.claims[j].1) &&
    (forall i :: 0 <= i < |s.claims| ==> s.claims[i].1 in s.temp.Values || s.claims[i].1 in s.removed)
  }

  predicate Owns(s: State, w: nat) {
    w < |s.workers| && s.workers[w].phase.Processing? ==>
      s.workers[w].phase.name in s.temp && (w, s.temp[s.workers[w].phase.name]) in s.claims
  }

  predicate Owners(s: State) {
    (forall w :: 0 <= w < |s.workers| ==> Owns(s, w)) &&
    forall v, w :: 0 <= v < w < |s.workers| && s.workers[v].phase.Processing? && s.workers[w].phase.Processing? ==>
      s.workers[v].phase.name != s.workers[w].phase.name
  }

  /** A file a converter may not see is announced by an event it has not taken yet. */
  predicate Alert(me: Worker, dir: map<Name, Id>) {
    match me.phase
    case Starting => true
    case Scanning(since) => me.watching && (since != {} ==> me.events > 0)
    case Waiting => me.watching && (dir.Keys != {} ==> me.events > 0)
    case _ => me.watching
  }

  predicate AllAlert(s: State) {
    forall w :: 0 <= w < |s.workers| ==> Alert(s.workers[w], s.dir)
  }

  predicate Inv(s: State) {
    Accounted(s) && ClaimedOnce(s) && Owners(s) && AllAlert(s)
  }

  lemma StartInv(workers: nat)
    ensures Inv(Start(workers))
  {
  }

  lemma KeepsAlert(s: State, step: Step)
    requires AllAlert(s) && Enabled(s, step)
    ensures AllAlert(Next(s, step))
  {
    var t := Next(s, step);
    forall v | 0 <= v < |t.workers| ensures Alert(t.workers[v], t.dir) {
      assert Alert(s.workers[v], s.dir);
    }
  }

  lemma KeepsAccounted(s: State, step: Step)
    requires Accounted(s) && Owners(s) && Enabled(s, step)
    ensures Accounted(Next(s, step))
  {
    match step
    case Deliver(file) => DeliverKeepsAccounted(s, file);
    case Claim(w) => RenameKeepsAccounted(s, w, s.workers[w].phase.name);
    case Finish(w, ok) => FinishKeepsAccounted(s, w, ok);
    case _ =>
  }

  lemma DeliverKeepsAccounted(s: State, file: Name)
    requires Accounted(s) && Enabled(s, Deliver(file))
    ensures Accounted(Next(s, Deliver(file)))
  {
    var t := Next(s, Deliver(file));
    assert t.dir[file] == s.delivered;
    forall id: Id | id < t.delivered ensures id in t.dir.Values || id in t.temp.Values || id in t.removed {
      if id in s.dir.Values { StillThere(s.dir, t.dir, id); }
    }
  }

  lemma FinishKeepsAccounted(s: State, w: nat, ok: bool)
    requires Accounted(s) && Enabled(s, Finish(w, ok))
    ensures Accounted(Next(s, Finish(w, ok)))
  {
    var t := Next(s, Finish(w, ok));
    var name := s.workers[w].phase.name;
    forall id: Id | id < t.delivered ensures id in t.dir.Values || id in t.temp.Values || id in t.removed {
      if id in s.temp.Values && id != s.temp[name] { StillThere(s.temp, t.temp, id); }
    }
  }

  lemma StillThere(m: map<Name, Id>, m': map<Name, Id>, id: Id)
    requires id in m.Values
    requires forall a :: a in m && m[a] == id ==> a in m' && m'[a] == id
    ensures id in m'.Values
  {
    var a :| a in m && m[a] == id;
    assert m'[a] == id;
  }

  lemma RenameKeepsAccounted(s: State, w: nat, name: Name)
    requires Accounted(s) && w < |s.workers| && name in s.dir
    ensures Accounted(Rename(s, w, name))
  {
    var t := Rename(s, w, name);
    forall id: Id | id < t.delivered ensures id in t.dir.Values || id in t.temp.Values || id in t.removed {
      if id == s.dir[name] {
        assert t.temp[name] == id;
      } else if id in s.dir.Values {
        StillThere(s.dir, t.dir, id);
      } else if id in s.temp.Values {
        StillThere(s.temp, t.temp, id);
      }
    }
  }

  lemma KeepsClaimedOnce(s: State, step: Step)
    requires Accounted(s) && ClaimedOnce(s) && Enabled(s, step)
    ensures ClaimedOnce(Next(s, step))
  {
    var t := Next(s, step);
    match step
    case Claim(w) =>
      var name := s.workers[w].phase.name;
      assert t.temp[name] == s.dir[name];
      forall i | 0 <= i < |t.claims| ensures t.claims[i].1 in t.temp.Values || t.claims[i].1 in t.removed {
        if i < |s.claims| && s.claims[i].1 in s.temp.Values { StillThere(s.temp, t.temp, s.claims[i].1); }
      }
    case Finish(w, ok) =>
      forall i | 0 <= i < |t.claims| ensures t.claims[i].1 in t.temp.Values || t.claims[i].1 in t.removed {
        var id := s.claims[i].1;
        if id in s.temp.Values && id !in t.removed { StillThere(s.temp, t.temp, id); }
      }
    case _ =>
  }

  lemma KeepsOwns(s: State, step: Step, v: nat)
    requires Accounted(s) && Owners(s) && Enabled(s, step) && v < |s.workers|
    ensures v < |Next(s, step).workers| && Owns(Next(s, step), v)
  {
    assert Owns(s, v);
    if step.Claim? { assert Next(s, step).claims[|s.claims|] == (step.w, s.dir[s.workers[step.w].phase.name]); }
  }

  lemma KeepsOwners(s: State, step: Step)
    requires Accounted(s) && Owners(s) && Enabled(s, step)
    ensures Owners(Next(s, step))
  {
    var t := Next(s, step);
    forall v | 0 <= v < |t.workers| ensures Owns(t, v) {
      KeepsOwns(s, step, v);
    }
    forall v, w | 0 <= v < w < |t.workers| && t.workers[v].phase.Processing? && t.workers[w].phase.Processing?
      ensures t.workers[v].phase.name != t.workers[w].phase.name
    {
      assert Owns(s, v) && Owns(s, w);
    }
  }

  lemma KeepsInv(s: State, step: Step)
    requires Inv(s) && Enabled(s, step)
    ensures Inv(Next(s, step))
  {
    KeepsAccounted(s, step);
    KeepsClaimedOnce(s, step);
    KeepsOwners(s, step);
    KeepsAlert(s, step);
  }

  // ---- every interleaving ----

  /** s and the steps taken from it lead to t. */
  ghost predicate Leads(s: State, steps: seq<Step>, t: State)
    decreases |steps|
  {
    if steps == [] then s == t
    else Enabled(s, steps[0]) && Leads(Next(s, steps[0]), steps[1..], t)
  }

  ghost predicate Reachable(s: State) {
    exists workers: nat, steps :: Leads(Start(workers), steps, s)
  }

  lemma {:induction false} LeadsKeepsInv(s: State, steps: seq<Step>, t: State)
    requires Inv(s) && Leads(s, steps, t)
    ensures Inv(t)
    decreases |steps|
  {
    hide Inv, Enabled, Next;
    if steps == [] {
    } else {
      KeepsInv(s, steps[0]);
      LeadsKeepsInv(Next(s, steps[0]), steps[1..], t);
    }
  }

  lemma ReachableInv(s: State)
    requires Reachable(s)
    ensures Inv(s)
  {
    var workers: nat, steps :| Leads(Start(workers), steps, s);
    hide Inv, Leads;
    StartInv(workers);
    LeadsKeepsInv(Start(workers), steps, s);
  }

  /** No lost wake-up: a converter blocked with nothing to wake it means that no file is waiting. */
  lemma NoLostWakeUp(s: State, w: nat)
    requires Reachable(s) && w < |s.workers| && s.workers[w].phase.Waiting? && s.workers[w].events == 0
    ensures s.dir == map[]
  {
    ReachableInv(s);
    hide Reachable;
    assert Alert(s.workers[w], s.dir);
  }

  datatype Place = InDirectory(name: Name) | Claimed(worker: nat) | Kept(name: Name) | Gone

  predicate IsAt(s: State, id: Id, place: Place) {
    match place
    case InDirectory(name) => name in s.dir && s.dir[name] == id
    case Claimed(w) => w < |s.workers| && s.workers[w].phase.Processing? && s.workers[w].phase.name in s.temp &&
                       s.temp[s.workers[w].phase.name] == id
    case Kept(name) => name in s.temp && s.temp[name] == id &&
                       forall w :: 0 <= w < |s.workers| ==> s.workers[w].phase != Processing(name)
    case Gone => id in s.removed
  }

  /** In every interleaving each delivered file is in exactly one place: waiting, with one converter, kept after
      a failure, or removed. */
  lemma ExactlyOnePlace(s: State, id: Id) returns (place: Place)
    requires Reachable(s) && id < s.delivered
    ensures IsAt(s, id, place)
    ensures forall other :: IsAt(s, id, other) ==> other == place
  {
    ReachableInv(s);
    hide Reachable;
    if id in s.removed {
      place := Gone;
    } else if id in s.dir.Values {
      var name :| name in s.dir && s.dir[name] == id;
      place := InDirectory(name);
    } else {
      assert id in s.temp.Values;
      var name :| name in s.temp && s.temp[name] == id;
      if w :| 0 <= w < |s.workers| && s.workers[w].phase == Processing(name) {
        place := Claimed(w);
      } else {
        place := Kept(name);
      }
    }
  }

  /** At most one converter ever claims a delivery, and a converter works on the one it has claimed. */
  lemma ExclusiveClaim(s: State)
    requires Reachable(s)
    ensures forall i, j :: 0 <= i < |s.claims| && 0 <= j < |s.claims| && s.claims[i].1 == s.claims[j].1 ==> i == j
    ensures forall w :: 0 <= w < |s.workers| && s.workers[w].phase.Processing? ==>
      s.workers[w].phase.name in s.temp && (w, s.temp[s.workers[w].phase.name]) in s.claims
    ensures forall id :: id in s.dir.Values ==> forall w: nat :: (w, id) !in s.claims
  {
    ReachableInv(s);
    hide Reachable;
    forall w | 0 <= w < |s.workers| && s.workers[w].phase.Processing?
      ensures s.workers[w].phase.name in s.temp && (w, s.temp[s.workers[w].phase.name]) in s.claims
    {
      assert Owns(s, w);
    }
  }

  /** Why no name may come back while a namesake is in the temp directory: the rename then loses the namesake,
      and in no other case loses anything. */
  lemma RenameLosesExactly(s: State, w: nat, name: Name, id: Id)
    requires w < |s.workers| && name in s.dir && Injective(s.temp)
    requires id in s.dir.Values || id in s.temp.Values
    requires name in s.temp ==> s.temp[name] !in s.dir.Values
    ensures var t := Rename(s, w, name);
      (id !in t.dir.Values && id !in t.temp.Values) <==> (name in s.temp && id == s.temp[name])
  {
    var t := Rename(s, w, name);
    assert t.temp[name] == s.dir[name];
    if id in s.dir.Values && id != s.dir[name] {
      StillThere(s.dir, t.dir, id);
    } else if id in s.temp.Values && !(name in s.temp && id == s.temp[name]) {
      StillThere(s.temp, t.temp, id);
    }
  }

  // ---- what became of a file, and why ----

  /** The file a converter has claimed last. */
  function LastClaim(claims: seq<(nat, Id)>, w: nat): set<Id> {
    if claims == [] then {}
    else if claims[|claims| - 1].0 == w then {claims[|claims| - 1].1}
    else LastClaim(claims[..|claims| - 1], w)
  }

  /** What a step ends: the processing of the file its converter has claimed last, and how. */
  function Ends(s: State, step: Step): set<(Id, bool)> {
    if step.Finish? then set id | id in LastClaim(s.claims, step.w) :: (id, step.ok) else {}
  }

  /** The files that have been processed on the way, and whether that went well: at the end of each processing the
      file its converter had claimed last. */
  ghost function Outcomes(s: State, steps: seq<Step>): set<(Id, bool)>
    decreases |steps|
  {
    if steps == [] || !Enabled(s, steps[0]) then {}
    else Ends(s, steps[0]) + Outcomes(Next(s, steps[0]), steps[1..])
  }

  /** In the temp directory, and no converter is at work on it. */
  ghost predicate IsKept(s: State, id: Id) {
    exists name :: name in s.temp && s.temp[name] == id &&
      forall w :: 0 <= w < |s.workers| ==> s.workers[w].phase != Processing(name)
  }

  /** Removed is what was processed well, kept what was not. */
  ghost predicate Judged(s: State, outs: set<(Id, bool)>) {
    (forall id: Id :: id in s.removed <==> (id, true) in outs) &&
    (forall id: Id :: IsKept(s, id) <==> (id, false) in outs)
  }

  /** A converter at work has the file it claimed last. */
  predicate Mine(s: State, w: nat) {
    w < |s.workers| && s.workers[w].phase.Processing? ==>
      s.workers[w].phase.name in s.temp && LastClaim(s.claims, w) == {s.temp[s.workers[w].phase.name]}
  }

  predicate AllMine(s: State) {
    forall w :: 0 <= w < |s.workers| ==> Mine(s, w)
  }

  lemma NextClaim(claims: seq<(nat, Id)>, claim: (nat, Id), w: nat)
    ensures LastClaim(claims + [claim], w) == if claim.0 == w then {claim.1} else LastClaim(claims, w)
  {
    assert (claims + [claim])[..|claims|] == claims;
  }

  lemma KeepsMine(s: State, step: Step)
    requires Inv(s) && AllMine(s) && Enabled(s, step)
    ensures AllMine(Next(s, step))
  {
    var t := Next(s, step);
    forall v | 0 <= v < |t.workers| ensures Mine(t, v) {
      assert Mine(s, v);
      if step.Claim? { NextClaim(s.claims, (step.w, s.dir[s.workers[step.w].phase.name]), v); }
      if step.Finish? && v != step.w && s.workers[v].phase.Processing? {
        assert s.workers[v].phase.name != s.workers[step.w].phase.name;
      }
    }
  }

  lemma KeptStays(s: State, t: State)
    requires t.temp == s.temp && |t.workers| == |s.workers|
    requires forall w, name :: 0 <= w < |s.workers| ==>
      (s.workers[w].phase == Processing(name) <==> t.workers[w].phase == Processing(name))
    ensures forall id :: IsKept(t, id) <==> IsKept(s, id)
  {
    forall id ensures IsKept(t, id) <==> IsKept(s, id) {
      if IsKept(s, id) {
        var name :| name in s.temp && s.temp[name] == id &&
          forall w :: 0 <= w < |s.workers| ==> s.workers[w].phase != Processing(name);
        assert name in t.temp && t.temp[name] == id;
      }
      if IsKept(t, id) {
        var name :| name in t.temp && t.temp[name] == id &&
          forall w :: 0 <= w < |t.workers| ==> t.workers[w].phase != Processing(name);
        assert name in s.temp && s.temp[name] == id;
      }
    }
  }

  /** A claim takes a file from the input directory; none that was kept is touched. */
  lemma ClaimKeepsKept(s: State, w: nat, id: Id)
    requires Inv(s) && Enabled(s, Claim(w))
    ensures IsKept(Next(s, Claim(w)), id) <==> IsKept(s, id)
  {
    var t, mine := Next(s, Claim(w)), s.workers[w].phase.name;
    if IsKept(s, id) {
      var name :| name in s.temp && s.temp[name] == id &&
        forall v :: 0 <= v < |s.workers| ==> s.workers[v].phase != Processing(name);
      assert name != mine && name in t.temp && t.temp[name] == id;
    }
    if IsKept(t, id) {
      var name :| name in t.temp && t.temp[name] == id &&
        forall v :: 0 <= v < |t.workers| ==> t.workers[v].phase != Processing(name);
      assert t.workers[w].phase == Processing(mine);
      assert name != mine && name in s.temp && s.temp[name] == id;
      forall v | 0 <= v < |s.workers| ensures s.workers[v].phase != Processing(name) {
        assert t.workers[v].phase != Processing(name);
      }
    }
  }

  /** The end of a processing keeps that file if it failed, and no other. */
  lemma FinishKeepsKept(s: State, w: nat, ok: bool, id: Id)
    requires Inv(s) && Enabled(s, Finish(w, ok))
    ensures IsKept(Next(s, Finish(w, ok)), id) <==>
            IsKept(s, id) || (!ok && id == s.temp[s.workers[w].phase.name])
  {
    var t, mine := Next(s, Finish(w, ok)), s.workers[w].phase.name;
    if IsKept(s, id) {
      var name :| name in s.temp && s.temp[name] == id &&
        forall v :: 0 <= v < |s.workers| ==> s.workers[v].phase != Processing(name);
      assert name != mine && name in t.temp && t.temp[name] == id;
    }
    if !ok && id == s.temp[mine] {
      assert mine in t.temp && t.temp[mine] == id;
      forall v | 0 <= v < |t.workers| ensures t.workers[v].phase != Processing(mine) {
        if v != w && s.workers[v].phase.Processing? { assert s.workers[v].phase.name != mine; }
      }
    }
    if IsKept(t, id) {
      var name :| name in t.temp && t.temp[name] == id &&
        forall v :: 0 <= v < |t.workers| ==> t.workers[v].phase != Processing(name);
      assert name in s.temp && s.temp[name] == id;
      if name != mine {
        forall v | 0 <= v < |s.workers| ensures s.workers[v].phase != Processing(name) {
          assert t.workers[v].phase != Processing(name);
        }
      }
    }
  }

  lemma KeepsJudged(s: State, step: Step, outs: set<(Id, bool)>)
    requires Inv(s) && AllMine(s) && Judged(s, outs) && Enabled(s, step)
    ensures Judged(Next(s, step), outs + Ends(s, step))
  {
    if step.Finish? {
      FinishKeepsJudged(s, step.w, step.ok, outs);
    } else {
      assert outs + {} == outs;
      if step.Claim? {
        forall other: Id ensures IsKept(Next(s, step), other) <==> IsKept(s, other) {
          ClaimKeepsKept(s, step.w, other);
        }
      }
      hide Inv, AllMine, IsKept;
      if !step.Claim? { KeptStays(s, Next(s, step)); }
    }
  }

  lemma FinishKeepsJudged(s: State, w: nat, ok: bool, outs: set<(Id, bool)>)
    requires Inv(s) && AllMine(s) && Judged(s, outs) && Enabled(s, Finish(w, ok))
    ensures Judged(Next(s, Finish(w, ok)), outs + Ends(s, Finish(w, ok)))
  {
    var t, id := Next(s, Finish(w, ok)), s.temp[s.workers[w].phase.name];
    assert Mine(s, w);
    assert Ends(s, Finish(w, ok)) == {(id, ok)};
    forall other: Id ensures IsKept(t, other) <==> IsKept(s, other) || (!ok && other == id) {
      FinishKeepsKept(s, w, ok, other);
    }
    hide Inv, AllMine, IsKept, Ends, Enabled;
  }

  lemma {:induction false} LeadsKeepsJudged(s: State, steps: seq<Step>, t: State, outs: set<(Id, bool)>)
    requires Inv(s) && AllMine(s) && Judged(s, outs) && Leads(s, steps, t)
    ensures Judged(t, outs + Outcomes(s, steps))
    decreases |steps|
  {
    hide Inv, AllMine, Judged, Enabled, Next, Ends;
    if steps == [] {
      assert outs + {} == outs;
    } else {
      KeepsInv(s, steps[0]);
      KeepsMine(s, steps[0]);
      KeepsJudged(s, steps[0], outs);
      var own := Ends(s, steps[0]);
      LeadsKeepsJudged(Next(s, steps[0]), steps[1..], t, outs + own);
      assert outs + own + Outcomes(Next(s, steps[0]), steps[1..]) == outs + Outcomes(s, steps);
    }
  }

  /** Over every interleaving: removed are exactly the files whose converter ended their processing well, and in the
      temp directory with no one at work on them exactly those whose converter ended it otherwise. */
  lemma RemovedExactly(workers: nat, steps: seq<Step>, s: State, id: Id)
    requires Leads(Start(workers), steps, s)
    ensures id in s.removed <==> (id, true) in Outcomes(Start(workers), steps)
    ensures IsKept(s, id) <==> (id, false) in Outcomes(Start(workers), steps)
  {
    var start := Start(workers);
    StartInv(workers);
    assert AllMine(start) && Judged(start, {});
    hide Inv, AllMine, Leads, Outcomes, IsKept;
    LeadsKeepsJudged(start, steps, s, {});
    assert {} + Outcomes(start, steps) == Outcomes(start, steps);
  }

  /** And no file meets both ends. */
  lemma OneOutcome(workers: nat, steps: seq<Step>, s: State, id: Id)
    requires Leads(Start(workers), steps, s)
    ensures !((id, true) in Outcomes(Start(workers), steps) && (id, false) in Outcomes(Start(workers), steps))
  {
    RemovedExactly(workers, steps, s, id);
    assert Reachable(s);
    ReachableInv(s);
    hide Leads, Outcomes, Reachable;
  }

  // ---- running dry ----

  predicate OnItsOwn(step: Step) { !step.Deliver? && !step.Stop? }

  /** No converter can do anything more until a file is delivered. */
  ghost predicate Quiet(s: State) {
    forall step :: OnItsOwn(step) ==> !Enabled(s, step)
  }

  /** A converter that is not stopped can move, unless it waits without an event. */
  lemma CanMove(s: State, w: nat) returns (step: Step)
    requires Inv(s) && w < |s.workers| && !s.workers[w].phase.Stopped?
    requires !(s.workers[w].phase.Waiting? && s.workers[w].events == 0)
    ensures OnItsOwn(step) && Enabled(s, step)
  {
    assert Owns(s, w);
    match s.workers[w].phase
    case Starting => step := Watch(w);
    case Scanning(since) =>
      if s.dir.Keys <= since {
        step := NothingFound(w);
      } else {
        var name :| name in s.dir.Keys && name !in since;
        step := Find(w, name);
      }
    case Picked(name) => step := if name in s.dir then Claim(w) else Miss(w);
    case Processing(name) => step := Finish(w, true);
    case Waiting => step := Wake(w, 1);
  }

  lemma QuietWorker(s: State, w: nat)
    requires Inv(s) && Quiet(s) && w < |s.workers| && !s.workers[w].phase.Stopped?
    ensures s.workers[w].phase.Waiting? && s.workers[w].events == 0
  {
    hide Inv, Enabled;
    if !(s.workers[w].phase.Waiting? && s.workers[w].events == 0) {
      var step := CanMove(s, w);
    }
  }

  /** Once nothing moves, unless all have been stopped, the input directory is empty. */
  lemma QuietMeansDone(s: State, w: nat)
    requires Reachable(s) && Quiet(s) && w < |s.workers| && !s.workers[w].phase.Stopped?
    ensures s.dir == map[]
    ensures forall v :: 0 <= v < |s.workers| ==> !s.workers[v].phase.Processing?
  {
    ReachableInv(s);
    hide Reachable, Inv, Quiet;
    forall v | 0 <= v < |s.workers| ensures !s.workers[v].phase.Processing? {
      if !s.workers[v].phase.Stopped? { QuietWorker(s, v); }
    }
    QuietWorker(s, w);
    NoLostWakeUp(s, w);
  }

  function Weight(me: Worker, dir: map<Name, Id>): nat {
    3 * me.events +
    match me.phase
    case Starting => 3
    case Scanning(_) => 2
    case Picked(name) => if name in dir then 1 else 3
    case Processing(_) => 4
    case Waiting => 1
    case Stopped => 0
  }

  function Weights(ws: seq<Worker>, dir: map<Name, Id>): nat {
    if ws == [] then 0 else Weight(ws[0], dir) + Weights(ws[1..], dir)
  }

  /** What the converters can still do on their own. */
  function Effort(s: State): nat {
    |s.dir| * (2 * |s.workers| + 4) + Weights(s.workers, s.dir)
  }

  lemma {:induction false} WeightsUpdate(ws: seq<Worker>, dir: map<Name, Id>, w: nat, me: Worker)
    requires w < |ws|
    ensures Weights(ws[w := me], dir) == Weights(ws, dir) - Weight(ws[w], dir) + Weight(me, dir)
  {
    hide Weight;
    if w == 0 {
      assert ws[0 := me][1..] == ws[1..];
    } else {
      WeightsUpdate(ws[1..], dir, w - 1, me);
      assert ws[w := me][1..] == ws[1..][w - 1 := me];
    }
  }

  lemma {:induction false} WeightsAfterClaim(ws: seq<Worker>, dir: map<Name, Id>, dir': map<Name, Id>)
    requires forall name :: name in dir' ==> name in dir
    ensures Weights(ws, dir') <= Weights(ws, dir) + 2 * |ws|
  {
    if ws == [] {
    } else {
      WeightsAfterClaim(ws[1..], dir, dir');
    }
  }

  /** Every step a converter takes on its own uses up effort. */
  lemma EffortFalls(s: State, step: Step)
    requires Inv(s) && Enabled(s, step) && OnItsOwn(step)
    ensures Effort(Next(s, step)) < Effort(s)
  {
    hide Inv, Weights;
    if step.Claim? {
      ClaimUsesEffort(s, step.w, s.workers[step.w].phase.name);
    } else {
      var t := Next(s, step);
      WeightsUpdate(s.workers, s.dir, step.w, t.workers[step.w]);
      SameDirectory(s, t);
    }
  }

  lemma SameDirectory(s: State, t: State)
    requires t.dir == s.dir && |t.workers| == |s.workers| && Weights(t.workers, t.dir) < Weights(s.workers, s.dir)
    ensures Effort(t) < Effort(s)
  {
    hide Weights;
  }

  lemma ClaimUsesEffort(s: State, w: nat, name: Name)
    requires w < |s.workers| && s.workers[w].phase == Picked(name) && name in s.dir
    ensures Effort(Rename(s, w, name)) < Effort(s)
  {
    var t := Rename(s, w, name);
    WeightsUpdate(s.workers, t.dir, w, t.workers[w]);
    WeightsAfterClaim(s.workers, s.dir, t.dir);
    hide Weights;
    assert t.dir.Keys == s.dir.Keys - {name};
    assert |t.dir| == |t.dir.Keys| == |s.dir.Keys| - 1;
    OneFileLess(|s.dir|, 2 * |s.workers| + 4);
  }

  lemma OneFileLess(files: nat, k: nat)
    requires files > 0
    ensures (files - 1) * k == files * k - k
  {
  }

  /** Without deliveries every run is short; with NoLostWakeUp: it ends with the directory empty. */
  lemma {:induction false} RunsAreShort(s: State, steps: seq<Step>, t: State)
    requires Inv(s) && Leads(s, steps, t) && forall i :: 0 <= i < |steps| ==> OnItsOwn(steps[i])
    ensures |steps| + Effort(t) <= Effort(s)
    decreases |steps|
  {
    hide Inv, Enabled, Next, Effort;
    if steps == [] {
    } else {
      KeepsInv(s, steps[0]);
      EffortFalls(s, steps[0]);
      RunsAreShort(Next(s, steps[0]), steps[1..], t);
    }
  }

  lemma {:induction false} LeadsOn(s: State, steps: seq<Step>, t: State, step: Step)
    requires Leads(s, steps, t) && Enabled(t, step)
    ensures Leads(s, steps + [step], Next(t, step))
    decreases |steps|
  {
    hide Enabled, Next;
    if steps == [] {
      assert [step][1..] == [] && steps + [step] == [step];
    } else {
      LeadsOn(Next(s, steps[0]), steps[1..], t, step);
      assert (steps + [step])[1..] == steps[1..] + [step];
    }
  }

  lemma ReachOn(s: State, step: Step)
    requires Reachable(s) && Enabled(s, step)
    ensures Reachable(Next(s, step))
  {
    var workers: nat, steps :| Leads(Start(workers), steps, s);
    hide Leads, Enabled, Next;
    LeadsOn(Start(workers), steps, s, step);
  }

  lemma StaysUp(s: State, step: Step, w: nat)
    requires Enabled(s, step) && OnItsOwn(step) && w < |s.workers| && !s.workers[w].phase.Stopped?
    ensures w < |Next(s, step).workers| && !Next(s, step).workers[w].phase.Stopped?
  {
  }

  /** From every reachable state the converters can come to rest on their own, within Effort steps and with every
      delivered file removed or kept after a failure. (RunsAreShort and QuietMeansDone: there is no other way.) */
  lemma {:induction false} ComesToRest(s: State, w: nat) returns (steps: seq<Step>, t: State)
    requires Reachable(s) && w < |s.workers| && !s.workers[w].phase.Stopped?
    ensures Leads(s, steps, t) && |steps| <= Effort(s) && forall i :: 0 <= i < |steps| ==> OnItsOwn(steps[i])
    ensures t.dir == map[] && forall v :: 0 <= v < |t.workers| ==> !t.workers[v].phase.Processing?
    decreases Effort(s)
  {
    ReachableInv(s);
    hide Reachable, Inv, Enabled, Next, Effort;
    if Quiet(s) {
      QuietMeansDone(s, w);
      steps, t := [], s;
    } else {
      var step :| OnItsOwn(step) && Enabled(s, step);
      ReachOn(s, step);
      EffortFalls(s, step);
      StaysUp(s, step, w);
      var more;
      more, t := ComesToRest(Next(s, step), w);
      steps := [step] + more;
      assert steps[1..] == more;
    }
  }
}
