/** What each step of a job writes, and what its health checks have found, over whole runs (controller.py `next_step`,
    `_do_asset`, `derive`, `approve`). */
module ControllerChecks {
  import opened Wrappers
  import opened Controller

  // ------------------------------------------------------------ one step, exactly

  /** What a step needs besides its place on the checklist: the strings it works on, and a locale. */
  predicate Ready(s: State, a: Artifact) {
    match a
    case Style => Uniques in s.have && s.locales != []
    case Delta => Uniques in s.have
    case Health(_) => Uniques in s.have
    case Intake => false
    case _ => true
  }

  /** The state after a step of `s`, by the first item of the checklist that is not met. */
  function Stepped(s: State, o: Outcome): State {
    var todo, n := Checklist(s.locales), Position(s);
    if o.raises || n == |todo| || todo[n].Sign? then s
    else if todo[n].NoBlockers? then
      if Uniques in s.have then s.(health := s.health["None" := o.blockers]) else s
    else
      var a := todo[n].a;
      if !Ready(s, a) then s
      else if a.Health? then s.(health := s.health[a.locale := o.blockers])
      else s.(have := s.have + if a == Strings then {Strings, Uniques} else {a})
  }

  /** A step writes the artifact its checklist is waiting for, and nothing else: a health check files what it found
      under its locale, or under the name "None" while blockers hold the job, and ingestion writes both string tables.
      At a gate, at the end, and when the executor raises, nothing is written. */
  lemma StepExact(s: State, o: Outcome)
    ensures Act(s, DoNext(o)) == Stepped(s, o)
  {
    DeriveIsFirstUnmet(s);
    hide Derive, Checklist, FirstUnmet;
    assert s.have + {Strings} + {Uniques} == s.have + {Strings, Uniques};
    if Position(s) < |Checklist(s.locales)| {
      WaitsFor(s);
    }
  }

  /** What the store holds: a report under its name, or any other artifact. */
  predicate Holds(s: State, a: Artifact) {
    if a.Health? then a.locale in s.health else a in s.have
  }

  /** Deleting an artifact takes that one away, and no other; approvals and what other reports say stay. */
  lemma DeleteExact(s: State, a: Artifact)
    ensures var t := Act(s, DoDelete(a));
      && t.approved == s.approved && t.locales == s.locales
      && (forall b :: Holds(t, b) <==> Holds(s, b) && b != a)
      && forall m :: m in t.health ==> t.health[m] == s.health[m]
  {
  }

  /** What the checklist can be waiting for: an artifact that is missing, and health only once there is a delta. */
  lemma WaitsFor(s: State)
    requires Position(s) < |Checklist(s.locales)|
    ensures var i := Checklist(s.locales)[Position(s)];
      && (i.Make? ==> i.a != Uniques)
      && (i == Make(Market) ==> Intake in s.have)
      && (i == NoBlockers || (i.Make? && i.a.Health?) ==> Delta in s.have)
      && (i == Make(Delta) ==> Delta !in s.have)
  {
    TodoIsFirstUnmet(s, Checklist(s.locales));
    TodoStart(s);
    TodoHealth(s);
    TodoPilot(s);
    TodoProduction(s);
    TodoTesting(s);
    TodoRelease(s);
    hide Todo, FirstMissing, Blocked, Checklist, FirstUnmet;
    hide FromHealth, FromPilot, FromProduction, FromTesting, FromRelease;
  }

  /** A health check of a locale files exactly what it found, and leaves every other report alone. */
  lemma CheckExact(s: State, o: Outcome, l: string)
    requires Derive(s) == Stage(ASSET, None, Some(l)) && Uniques in s.have && Delta in s.have && !o.raises
    ensures var t := Act(s, DoNext(o));
      && (HasBlockers(t, l) <==> o.blockers) && l in t.health
      && t.have == s.have && t.approved == s.approved
      && forall m :: m != l ==> (m in t.health <==> m in s.health) && HasBlockers(t, m) == HasBlockers(s, m)
  {
    hide Derive;
  }

  // ------------------------------------------------------ health checks over runs

  /** Action k of the run is a health check that runs to its end and files its report under l. */
  ghost predicate Files(s: State, acts: seq<Action>, k: nat, l: string)
    requires k < |acts|
  {
    var now := Run(s, acts[..k]);
    var stage := Derive(now);
    && acts[k].DoNext? && !acts[k].o.raises && Uniques in now.have && Delta in now.have
    && stage.phase == ASSET && stage.gate == None
    && l == if stage.target.Some? then stage.target.value else "None"
  }

  /** The last check filed under l found this, and its report has not been deleted since. */
  ghost predicate LastCheck(s: State, acts: seq<Action>, l: string, blockers: bool) {
    exists k :: 0 <= k < |acts| && Files(s, acts, k, l) && acts[k].o.blockers == blockers
                && Untouched(s, acts, k + 1, l)
  }

  ghost predicate Untouched(s: State, acts: seq<Action>, k: nat, l: string) {
    forall j :: k <= j < |acts| ==> !Files(s, acts, j, l) && acts[j] != DoDelete(Health(l))
  }

  lemma {:induction false} RunSnoc(s: State, acts: seq<Action>, a: Action)
    ensures Run(s, acts + [a]) == Act(Run(s, acts), a)
    decreases |acts|
  {
    hide Act;
    if acts == [] {
      assert [] + [a] == [a] && [a][1..] == [];
    } else {
      assert (acts + [a])[1..] == acts[1..] + [a];
      RunSnoc(Act(s, acts[0]), acts[1..], a);
    }
  }

  /** The report under l after one more action: deleted, filed, or as it was. */
  lemma ActFiles(s: State, acts: seq<Action>, a: Action, l: string)
    ensures var now, more := Run(s, acts), acts + [a];
      var next := Act(now, a);
      && (a == DoDelete(Health(l)) ==> l !in next.health)
      && (Files(s, more, |acts|, l) ==> l in next.health && next.health[l] == a.o.blockers)
      && (a != DoDelete(Health(l)) && !Files(s, more, |acts|, l) ==>
            (l in next.health <==> l in now.health) && (l in next.health ==> next.health[l] == now.health[l]))
  {
    hide Run, Derive;
    assert (acts + [a])[..|acts|] == acts && (acts + [a])[|acts|] == a;
  }

  lemma LastCheckSnoc(s: State, acts: seq<Action>, a: Action, l: string, b: bool)
    ensures LastCheck(s, acts + [a], l, b)
       <==> if Files(s, acts + [a], |acts|, l) then a.o.blockers == b
            else a != DoDelete(Health(l)) && LastCheck(s, acts, l, b)
  {
    var more, n := acts + [a], |acts|;
    hide Run, Derive;
    assert more[n] == a;
    forall k | 0 <= k < n ensures Files(s, more, k, l) == Files(s, acts, k, l) && more[k] == acts[k] {
      assert more[..k] == acts[..k];
    }
    hide Files;
    forall k: nat | k <= n
      ensures Untouched(s, more, k, l)
         <==> Untouched(s, acts, k, l) && !Files(s, more, n, l) && a != DoDelete(Health(l)) {
      assert forall j :: 0 <= j < n ==> more[j] == acts[j];
    }
    assert Untouched(s, more, n + 1, l);
  }

  /** Over every run from a job without health reports: the report under l exists and says whether there are blockers
      exactly as the last check filed under l found, if it has not been deleted since. */
  lemma {:induction false} ReportExact(s: State, acts: seq<Action>, l: string, b: bool)
    requires s.health == map[]
    ensures l in Run(s, acts).health && Run(s, acts).health[l] == b <==> LastCheck(s, acts, l, b)
  {
    hide Act, Run, LastCheck, Files;
    if acts == [] {
      NothingFiled(s, l, b);
    } else {
      var rest, a := acts[..|acts| - 1], acts[|acts| - 1];
      assert acts == rest + [a];
      ReportExact(s, rest, l, b);
      RunSnoc(s, rest, a);
      ActFiles(s, rest, a, l);
      LastCheckSnoc(s, rest, a, l, b);
      FilesOnce(s, acts, |rest|, l);
    }
  }

  lemma FilesOnce(s: State, acts: seq<Action>, k: nat, l: string)
    requires k < |acts|
    ensures Files(s, acts, k, l) ==> acts[k].DoNext?
  {
  }

  lemma NothingFiled(s: State, l: string, b: bool)
    requires s.health == map[]
    ensures l !in Run(s, []).health && !LastCheck(s, [], l, b)
  {
  }

  /** So a gate from G1 on is approved in a run only when the last check of every locale is there and found no blocker.
      */
  lemma ApprovedChecked(locales: seq<string>, acts: seq<Action>, g: Gate) returns (k: nat)
    requires g != G0 && g in Run(Init(locales), acts).approved
    ensures k < |acts| && acts[k] == DoApprove(g)
    ensures forall l :: l in locales ==> LastCheck(Init(locales), acts[..k], l, false)
    ensures forall l :: l in locales ==> !LastCheck(Init(locales), acts[..k], l, true)
  {
    hide Run, LastCheck, Derive;
    var s := Init(locales);
    k := ApprovedUnblocked(s, acts, g);
    var now := Run(s, acts[..k]);
    RunLocales(s, acts[..k]);
    CheckedToApprove(now, g);
    forall l | l in locales ensures LastCheck(s, acts[..k], l, false) && !LastCheck(s, acts[..k], l, true) {
      ReportExact(s, acts[..k], l, false);
      ReportExact(s, acts[..k], l, true);
    }
  }

  lemma {:induction false} RunLocales(s: State, acts: seq<Action>)
    ensures Run(s, acts).locales == s.locales
    decreases |acts|
  {
    if acts != [] {
      hide Derive;
      RunLocales(Act(s, acts[0]), acts[1..]);
    }
  }

  lemma CheckedToApprove(s: State, g: Gate)
    requires CanApprove(s, g) && g != G0
    ensures forall l :: l in s.locales ==> l in s.health && !s.health[l]
  {
    FirstMissingHealth(s, s.locales);
    NotBlocked(s, g);
  }
}
