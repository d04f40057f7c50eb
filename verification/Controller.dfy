/** The job controller: the stage is derived from artifacts and gate approvals, one executor runs per step
    (controller.py `Job.derive`, `approve`, `next_step` and the `_do_*` handlers). */
module Controller {
  import opened Wrappers

  /** The artifacts the handlers write and `derive` looks for; health reports are kept apart, with their
      blockers, because `derive` also reads them. */
  datatype Artifact =
    | Intake | Market | Strings | Uniques | Style | Delta
    | Health(locale: string) | Pilot(locale: string) | Production(locale: string) | Lqa(locale: string)
    | Mtpe(locale: string) | Plan(locale: string) | Kit(locale: string)
    | Manifest

  datatype Gate = G0 | G1 | G2 | G3 | G4 | G5

  datatype Phase =
    | INTAKE | INGEST | CONTEXT | ASSET | PILOT | PRODUCTION | LQA | FLAGGED | TESTING | RELEASE | INCREMENTAL

  /** `gate` set means a hard stop for a human; `target` is the locale of a per-locale step. */
  datatype Stage = Stage(phase: Phase, gate: Option<Gate>, target: Option<string>)

  /** The persistent state of a job: artifact tree, health reports (true when they hold blockers), approvals. */
  datatype State = State(locales: seq<string>, have: set<Artifact>, health: map<string, bool>, approved: set<Gate>)

  predicate Have(s: State, a: Artifact) {
    if a.Health? then a.locale in s.health else a in s.have
  }

  function Init(locales: seq<string>): State {
    State(locales, {Intake}, map[], {})
  }

  // ------------------------------------------------------------------ derive

  datatype Kind = KHealth | KPilot | KProduction | KLqa | KMtpe | KPlan | KKit

  function Of(k: Kind, locale: string): Artifact {
    match k
    case KHealth => Health(locale)
    case KPilot => Pilot(locale)
    case KProduction => Production(locale)
    case KLqa => Lqa(locale)
    case KMtpe => Mtpe(locale)
    case KPlan => Plan(locale)
    case KKit => Kit(locale)
  }

  /** The first locale, in intake order, without an artifact of the kind. */
  function FirstMissing(s: State, k: Kind, locales: seq<string>): Option<string> {
    if locales == [] then None
    else if !Have(s, Of(k, locales[0])) then Some(locales[0])
    else FirstMissing(s, k, locales[1..])
  }

  predicate HasBlockers(s: State, locale: string) {
    locale in s.health && s.health[locale]
  }

  predicate Blocked(s: State) {
    exists l :: l in s.locales && HasBlockers(s, l)
  }

  function Derive(s: State): Stage {
    if Intake !in s.have then Stage(INTAKE, None, None)
    else if Market !in s.have then Stage(INTAKE, None, None)
    else if G0 !in s.approved then Stage(INTAKE, Some(G0), None)
    else if Strings !in s.have then Stage(INGEST, None, None)
    else if Style !in s.have then Stage(CONTEXT, None, None)
    else if Delta !in s.have then Stage(ASSET, None, None)
    else if FirstMissing(s, KHealth, s.locales).Some? then Stage(ASSET, None, FirstMissing(s, KHealth, s.locales))
    else if Blocked(s) then Stage(ASSET, None, None)
    else if G1 !in s.approved then Stage(ASSET, Some(G1), None)
    else if FirstMissing(s, KPilot, s.locales).Some? then Stage(PILOT, None, FirstMissing(s, KPilot, s.locales))
    else if G2 !in s.approved then Stage(PILOT, Some(G2), None)
    else if FirstMissing(s, KProduction, s.locales).Some? then
      Stage(PRODUCTION, None, FirstMissing(s, KProduction, s.locales))
    else if FirstMissing(s, KLqa, s.locales).Some? then Stage(LQA, None, FirstMissing(s, KLqa, s.locales))
    else if FirstMissing(s, KMtpe, s.locales).Some? then Stage(FLAGGED, None, FirstMissing(s, KMtpe, s.locales))
    else if G3 !in s.approved then Stage(FLAGGED, Some(G3), None)
    else if FirstMissing(s, KPlan, s.locales).Some? then Stage(TESTING, None, FirstMissing(s, KPlan, s.locales))
    else if G4 !in s.approved then Stage(TESTING, Some(G4), None)
    else if FirstMissing(s, KKit, s.locales).Some? then Stage(RELEASE, None, FirstMissing(s, KKit, s.locales))
    else if Manifest !in s.have then Stage(RELEASE, None, None)
    else if G5 !in s.approved then Stage(RELEASE, Some(G5), None)
    else Stage(INCREMENTAL, None, None)
  }

  // ------------------------------------------------------------------- steps

  /** What the executor behind a step does: it may raise before anything is written; a health check reports
      whether the glossary has blockers. */
  datatype Outcome = Outcome(raises: bool, blockers: bool)

  /** The name a health report is written under when the step has no target locale. */
  const NO_LOCALE := "None"

  function Put(s: State, a: Artifact): State {
    s.(have := s.have + {a})
  }

  /** The handler of a stage without a gate. A handler that raises writes nothing. */
  function Handle(s: State, st: Stage, o: Outcome): State {
    if o.raises then s
    else match st.phase
      case INTAKE => if Intake in s.have then Put(s, Market) else s
      case INGEST => Put(Put(s, Strings), Uniques)
      case CONTEXT => if Uniques in s.have && s.locales != [] then Put(s, Style) else s
      case ASSET =>
        if Uniques !in s.have then s
        else if Delta !in s.have then Put(s, Delta)
        else s.(health := s.health[if st.target.Some? then st.target.value else NO_LOCALE := o.blockers])
      case PILOT => PutFor(s, KPilot, st.target)
      case PRODUCTION => PutFor(s, KProduction, st.target)
      case LQA => PutFor(s, KLqa, st.target)
      case FLAGGED => PutFor(s, KMtpe, st.target)
      case TESTING => PutFor(s, KPlan, st.target)
      case RELEASE => if st.target.Some? then PutFor(s, KKit, st.target) else Put(s, Manifest)
      case INCREMENTAL => s
  }

  function PutFor(s: State, k: Kind, target: Option<string>): State {
    Put(s, Of(k, if target.Some? then target.value else NO_LOCALE))
  }

  function Next(s: State, o: Outcome): State {
    if Derive(s).gate.Some? then s else Handle(s, Derive(s), o)
  }

  predicate CanApprove(s: State, g: Gate) {
    Derive(s).gate == Some(g)
  }

  function Approve(s: State, g: Gate): State {
    if CanApprove(s, g) then s.(approved := s.approved + {g}) else s
  }

  function Delete(s: State, a: Artifact): State {
    if a.Health? then s.(health := s.health - {a.locale}) else s.(have := s.have - {a})
  }

  class Job {
    const locales: seq<string>
    var have: set<Artifact>
    var health: map<string, bool>
    var approved: set<Gate>

    function View(): State
      reads this
    {
      State(locales, have, health, approved)
    }

    /** `Job.init`: the intake form is the first artifact. */
    constructor (locales: seq<string>)
      ensures View() == Init(locales)
    {
      this.locales := locales;
      have, health, approved := {Intake}, map[], {};
    }

    function DeriveStage(): Stage
      reads this
    {
      Derive(View())
    }

    /** A human action; refused unless the gate is the pending one. */
    method ApproveGate(g: Gate) returns (ok: bool)
      modifies this`approved
      ensures ok == CanApprove(old(View()), g)
      ensures View() == Approve(old(View()), g)
    {
      ok := DeriveStage().gate == Some(g);
      if ok {
        approved := approved + {g};
      }
    }

    /** Runs exactly one stage step, or reports the pending gate. */
    method NextStep(o: Outcome) returns (stage: Stage)
      modifies this`have, this`health
      ensures stage == Derive(old(View())) && View() == Next(old(View()), o)
    {
      hide FirstMissing, Derive;
      stage := DeriveStage();
      if stage.gate.Some? || o.raises {
        return;
      }
      var target := if stage.target.Some? then stage.target.value else NO_LOCALE;
      match stage.phase
      case INTAKE =>
        if Intake in have {
          have := have + {Market};
        }
      case INGEST => have := have + {Strings} + {Uniques};
      case CONTEXT =>
        if Uniques in have && locales != [] {
          have := have + {Style};
        }
      case ASSET =>
        if Uniques in have {
          if Delta !in have {
            have := have + {Delta};
          } else {
            health := health[target := o.blockers];
          }
        }
      case PILOT => have := have + {Pilot(target)};
      case PRODUCTION => have := have + {Production(target)};
      case LQA => have := have + {Lqa(target)};
      case FLAGGED => have := have + {Mtpe(target)};
      case TESTING => have := have + {Plan(target)};
      case RELEASE => have := have + {if stage.target.Some? then Kit(target) else Manifest};
      case INCREMENTAL =>
    }

    /** An artifact removed from the tree by hand. */
    method DeleteArtifact(a: Artifact)
      modifies this`have, this`health
      ensures View() == Delete(old(View()), a)
    {
      if a.Health? {
        health := health - {a.locale};
      } else {
        have := have - {a};
      }
    }
  }

  // ----------------------------------------------------- the checklist of a job

  /** One thing a job must have before it moves on. */
  datatype Item = Make(a: Artifact) | NoBlockers | Sign(g: Gate)

  predicate Met(s: State, i: Item) {
    match i
    case Make(a) => Have(s, a)
    case NoBlockers => !Blocked(s)
    case Sign(g) => g in s.approved
  }

  function Each(k: Kind, locales: seq<string>): seq<Item> {
    if locales == [] then [] else [Make(Of(k, locales[0]))] + Each(k, locales[1..])
  }

  /** The lifecycle as one list, in the order of the phase machine. */
  function Checklist(locales: seq<string>): seq<Item> {
    [Make(Intake), Make(Market), Sign(G0), Make(Strings), Make(Style), Make(Delta)] + FromHealth(locales)
  }

  function FromHealth(locales: seq<string>): seq<Item> {
    Each(KHealth, locales) + ([NoBlockers, Sign(G1)] + FromPilot(locales))
  }

  function FromPilot(locales: seq<string>): seq<Item> {
    Each(KPilot, locales) + ([Sign(G2)] + FromProduction(locales))
  }

  function FromProduction(locales: seq<string>): seq<Item> {
    Each(KProduction, locales) + (Each(KLqa, locales) + (Each(KMtpe, locales) + ([Sign(G3)] + FromTesting(locales))))
  }

  function FromTesting(locales: seq<string>): seq<Item> {
    Each(KPlan, locales) + ([Sign(G4)] + FromRelease(locales))
  }

  function FromRelease(locales: seq<string>): seq<Item> {
    Each(KKit, locales) + [Make(Manifest), Sign(G5)]
  }

  /** Index of the first item not met. */
  function FirstUnmet(s: State, items: seq<Item>): (n: nat)
    ensures n <= |items|
    ensures forall j :: 0 <= j < n ==> Met(s, items[j])
    ensures n < |items| ==> !Met(s, items[n])
  {
    if items == [] || !Met(s, items[0]) then 0 else 1 + FirstUnmet(s, items[1..])
  }

  function Position(s: State): nat {
    FirstUnmet(s, Checklist(s.locales))
  }

  /** The stage that asks for an item. */
  function StageFor(i: Item): Stage {
    match i
    case Make(a) => (
      match a
      case Intake => Stage(INTAKE, None, None)
      case Market => Stage(INTAKE, None, None)
      case Strings => Stage(INGEST, None, None)
      case Uniques => Stage(INGEST, None, None)
      case Style => Stage(CONTEXT, None, None)
      case Delta => Stage(ASSET, None, None)
      case Health(l) => Stage(ASSET, None, Some(l))
      case Pilot(l) => Stage(PILOT, None, Some(l))
      case Production(l) => Stage(PRODUCTION, None, Some(l))
      case Lqa(l) => Stage(LQA, None, Some(l))
      case Mtpe(l) => Stage(FLAGGED, None, Some(l))
      case Plan(l) => Stage(TESTING, None, Some(l))
      case Kit(l) => Stage(RELEASE, None, Some(l))
      case Manifest => Stage(RELEASE, None, None))
    case NoBlockers => Stage(ASSET, None, None)
    case Sign(g) => Stage(GatePhase(g), Some(g), None)
  }

  function GatePhase(g: Gate): Phase {
    match g
    case G0 => INTAKE
    case G1 => ASSET
    case G2 => PILOT
    case G3 => FLAGGED
    case G4 => TESTING
    case G5 => RELEASE
  }

  /** The first unmet item of a list, if any. */
  function Todo(s: State, items: seq<Item>): Option<Item> {
    if items == [] then None else if Met(s, items[0]) then Todo(s, items[1..]) else Some(items[0])
  }

  lemma {:induction false} TodoConcat(s: State, a: seq<Item>, b: seq<Item>)
    ensures Todo(s, a + b) == if Todo(s, a).Some? then Todo(s, a) else Todo(s, b)
  {
    if a == [] {
      assert a + b == b;
    } else {
      assert (a + b)[1..] == a[1..] + b;
      TodoConcat(s, a[1..], b);
    }
  }

  lemma {:induction false} TodoEach(s: State, k: Kind, locales: seq<string>)
    ensures Todo(s, Each(k, locales))
         == match FirstMissing(s, k, locales) case None => None case Some(l) => Some(Make(Of(k, l)))
  {
    if locales != [] {
      assert ([Make(Of(k, locales[0]))] + Each(k, locales[1..]))[1..] == Each(k, locales[1..]);
      TodoEach(s, k, locales[1..]);
    }
  }

  lemma {:induction false} TodoIsFirstUnmet(s: State, items: seq<Item>)
    ensures var n := FirstUnmet(s, items);
      Todo(s, items) == if n < |items| then Some(items[n]) else None
  {
    if items != [] && Met(s, items[0]) {
      TodoIsFirstUnmet(s, items[1..]);
    }
  }

  function StageOf(todo: Option<Item>): Stage {
    if todo.Some? then StageFor(todo.value) else Stage(INCREMENTAL, None, None)
  }

  lemma TodoSign(s: State, g: Gate, rest: seq<Item>)
    ensures Todo(s, [Sign(g)] + rest) == if g in s.approved then Todo(s, rest) else Some(Sign(g))
  {
  }

  lemma TodoEachThen(s: State, k: Kind, rest: seq<Item>)
    ensures Todo(s, Each(k, s.locales) + rest)
         == var l := FirstMissing(s, k, s.locales);
            if l.Some? then Some(Make(Of(k, l.value))) else Todo(s, rest)
  {
    TodoConcat(s, Each(k, s.locales), rest);
    TodoEach(s, k, s.locales);
  }

  lemma TodoRelease(s: State)
    ensures Todo(s, FromRelease(s.locales))
         == var l := FirstMissing(s, KKit, s.locales);
            if l.Some? then Some(Make(Kit(l.value)))
            else if Manifest !in s.have then Some(Make(Manifest))
            else if G5 !in s.approved then Some(Sign(G5)) else None
  {
    TodoEachThen(s, KKit, [Make(Manifest), Sign(G5)]);
    assert [Make(Manifest), Sign(G5)][1..] == [Sign(G5)] + [];
    TodoSign(s, G5, []);
  }

  lemma TodoTesting(s: State)
    ensures Todo(s, FromTesting(s.locales))
         == var l := FirstMissing(s, KPlan, s.locales);
            if l.Some? then Some(Make(Plan(l.value)))
            else if G4 !in s.approved then Some(Sign(G4)) else Todo(s, FromRelease(s.locales))
  {
    TodoEachThen(s, KPlan, [Sign(G4)] + FromRelease(s.locales));
    TodoSign(s, G4, FromRelease(s.locales));
  }

  lemma TodoProduction(s: State)
    ensures Todo(s, FromProduction(s.locales))
         == var p, l, m := FirstMissing(s, KProduction, s.locales), FirstMissing(s, KLqa, s.locales),
                           FirstMissing(s, KMtpe, s.locales);
            if p.Some? then Some(Make(Production(p.value)))
            else if l.Some? then Some(Make(Lqa(l.value)))
            else if m.Some? then Some(Make(Mtpe(m.value)))
            else if G3 !in s.approved then Some(Sign(G3)) else Todo(s, FromTesting(s.locales))
  {
    hide Each, Todo, FirstMissing;
    var r3 := [Sign(G3)] + FromTesting(s.locales);
    var r2 := Each(KMtpe, s.locales) + r3;
    TodoEachThen(s, KProduction, Each(KLqa, s.locales) + r2);
    TodoEachThen(s, KLqa, r2);
    TodoEachThen(s, KMtpe, r3);
    TodoSign(s, G3, FromTesting(s.locales));
  }

  lemma TodoPilot(s: State)
    ensures Todo(s, FromPilot(s.locales))
         == var l := FirstMissing(s, KPilot, s.locales);
            if l.Some? then Some(Make(Pilot(l.value)))
            else if G2 !in s.approved then Some(Sign(G2)) else Todo(s, FromProduction(s.locales))
  {
    TodoEachThen(s, KPilot, [Sign(G2)] + FromProduction(s.locales));
    TodoSign(s, G2, FromProduction(s.locales));
  }

  lemma TodoHealth(s: State)
    ensures Todo(s, FromHealth(s.locales))
         == var l := FirstMissing(s, KHealth, s.locales);
            if l.Some? then Some(Make(Health(l.value)))
            else if Blocked(s) then Some(NoBlockers)
            else if G1 !in s.approved then Some(Sign(G1)) else Todo(s, FromPilot(s.locales))
  {
    hide Each, FirstMissing, Blocked;
    var rest := [NoBlockers, Sign(G1)] + FromPilot(s.locales);
    TodoEachThen(s, KHealth, rest);
    assert rest[1..] == [Sign(G1)] + FromPilot(s.locales);
    TodoSign(s, G1, FromPilot(s.locales));
  }

  lemma TodoStart(s: State)
    ensures Todo(s, Checklist(s.locales))
         == if Intake !in s.have then Some(Make(Intake)) else if Market !in s.have then Some(Make(Market))
            else if G0 !in s.approved then Some(Sign(G0)) else if Strings !in s.have then Some(Make(Strings))
            else if Style !in s.have then Some(Make(Style)) else if Delta !in s.have then Some(Make(Delta))
            else Todo(s, FromHealth(s.locales))
  {
    TodoConcat(s, [Make(Intake), Make(Market), Sign(G0), Make(Strings), Make(Style), Make(Delta)],
               FromHealth(s.locales));
    TodoSix(s, Make(Intake), Make(Market), Sign(G0), Make(Strings), Make(Style), Make(Delta));
  }

  lemma TodoCons(s: State, i: Item, rest: seq<Item>)
    ensures Todo(s, [i] + rest) == if Met(s, i) then Todo(s, rest) else Some(i)
  {
  }

  lemma TodoThree(s: State, a: Item, b: Item, c: Item, rest: seq<Item>)
    ensures Todo(s, [a, b, c] + rest)
         == if !Met(s, a) then Some(a) else if !Met(s, b) then Some(b) else if !Met(s, c) then Some(c)
            else Todo(s, rest)
  {
    hide Met, Todo;
    assert [a, b, c] + rest == [a] + ([b] + ([c] + rest));
    TodoCons(s, a, [b] + ([c] + rest));
    TodoCons(s, b, [c] + rest);
    TodoCons(s, c, rest);
  }

  lemma TodoSix(s: State, a: Item, b: Item, c: Item, d: Item, e: Item, f: Item)
    ensures Todo(s, [a, b, c, d, e, f])
         == if !Met(s, a) then Some(a) else if !Met(s, b) then Some(b) else if !Met(s, c) then Some(c)
            else if !Met(s, d) then Some(d) else if !Met(s, e) then Some(e) else if !Met(s, f) then Some(f) else None
  {
    TodoThree(s, d, e, f, []);
    TodoThree(s, a, b, c, [d, e, f] + []);
    hide Met;
    assert [a, b, c, d, e, f] == [a, b, c] + ([d, e, f] + []);
  }

  /** The cascade of checks derives the stage of the first unmet item of the checklist. */
  lemma DeriveIsFirstUnmet(s: State)
    ensures Derive(s) == var n := Position(s);
      if n < |Checklist(s.locales)| then StageFor(Checklist(s.locales)[n]) else Stage(INCREMENTAL, None, None)
  {
    DeriveIsTodo(s);
    TodoIsFirstUnmet(s, Checklist(s.locales));
  }

  lemma DeriveIsTodo(s: State)
    ensures Derive(s) == StageOf(Todo(s, Checklist(s.locales)))
  {
    TodoStart(s);
    TodoHealth(s);
    TodoPilot(s);
    TodoProduction(s);
    TodoTesting(s);
    TodoRelease(s);
    hide Todo, FirstMissing, Blocked, Checklist, FromHealth, FromPilot, FromProduction, FromTesting, FromRelease;
  }

  // --------------------------------------------------------- gate safety

  function Index(g: Gate): nat {
    match g
    case G0 => 0
    case G1 => 1
    case G2 => 2
    case G3 => 3
    case G4 => 4
    case G5 => 5
  }

  /** The approved gates are a prefix of G0..G5. */
  predicate PrefixApproved(s: State) {
    forall g, h :: Index(g) < Index(h) && h in s.approved ==> g in s.approved
  }

  datatype Action = DoNext(o: Outcome) | DoApprove(g: Gate) | DoDelete(a: Artifact)

  function Act(s: State, a: Action): State {
    match a
    case DoNext(o) => Next(s, o)
    case DoApprove(g) => Approve(s, g)
    case DoDelete(a) => Delete(s, a)
  }

  function Run(s: State, acts: seq<Action>): State
    decreases |acts|
  {
    if acts == [] then s else Run(Act(s, acts[0]), acts[1..])
  }

  lemma ActKeepsPrefix(s: State, a: Action)
    requires PrefixApproved(s)
    ensures PrefixApproved(Act(s, a)) && s.approved <= Act(s, a).approved && Act(s, a).locales == s.locales
  {
  }

  /** In every run of steps, approvals, failures and deletions from a fresh job, the approved gates are a
      prefix of G0..G5. */
  lemma {:induction false} GatesInOrder(s: State, acts: seq<Action>)
    requires PrefixApproved(s)
    ensures PrefixApproved(Run(s, acts)) && s.approved <= Run(s, acts).approved
    decreases |acts|
  {
    if acts != [] {
      ActKeepsPrefix(s, acts[0]);
      GatesInOrder(Act(s, acts[0]), acts[1..]);
    }
  }

  lemma FreshJobGatesInOrder(locales: seq<string>, acts: seq<Action>)
    ensures PrefixApproved(Run(Init(locales), acts))
  {
    GatesInOrder(Init(locales), acts);
  }

  /** Exactly when a gate can be approved: everything in front of it on the checklist is met, it is not. */
  lemma ApprovalExact(s: State, g: Gate)
    ensures CanApprove(s, g) <==>
      exists n :: 0 <= n < |Checklist(s.locales)| && Checklist(s.locales)[n] == Sign(g) && g !in s.approved
                  && forall j :: 0 <= j < n ==> Met(s, Checklist(s.locales)[j])
  {
    var items, p := Checklist(s.locales), Position(s);
    DeriveIsFirstUnmet(s);
    hide Derive, Checklist;
    if CanApprove(s, g) {
      assert items[p] == Sign(g) && !Met(s, items[p]);
    }
    if n :| 0 <= n < |items| && items[n] == Sign(g) && g !in s.approved && forall j :: 0 <= j < n ==> Met(s, items[j]) {
      assert !Met(s, items[n]);
      assert n == p;
    }
  }

  /** While a health report of a target locale has blockers, no phase past ASSET is derived and none of the
      gates from G1 on can be approved. */
  lemma BlockersHold(s: State)
    requires Blocked(s)
    ensures Derive(s).phase in {INTAKE, INGEST, CONTEXT, ASSET}
    ensures forall g :: CanApprove(s, g) ==> g == G0
  {
  }

  /** Over every run: a gate from G1 on that a run approves was approved in a state without blockers, pending there. */
  lemma {:induction false} ApprovedUnblocked(s: State, acts: seq<Action>, g: Gate) returns (k: nat)
    requires g != G0 && g !in s.approved && g in Run(s, acts).approved
    ensures k < |acts| && acts[k] == DoApprove(g)
    ensures CanApprove(Run(s, acts[..k]), g) && !Blocked(Run(s, acts[..k]))
    decreases |acts|
  {
    var t := Act(s, acts[0]);
    if g in t.approved {
      k := 0;
      OnlyApprovals(s, acts[0], g);
      assert acts[..0] == [];
      NotBlocked(s, g);
    } else {
      hide Act, Blocked, CanApprove;
      var j := ApprovedUnblocked(t, acts[1..], g);
      k := j + 1;
      assert acts[..k][0] == acts[0] && acts[..k][1..] == acts[1..][..j];
    }
  }

  lemma OnlyApprovals(s: State, a: Action, g: Gate)
    requires g !in s.approved && g in Act(s, a).approved
    ensures a == DoApprove(g) && CanApprove(s, g)
  {
  }

  lemma NotBlocked(s: State, g: Gate)
    requires CanApprove(s, g) && g != G0
    ensures !Blocked(s)
  {
    if Blocked(s) {
      BlockersHold(s);
    }
  }

  /** A job without locales never leaves CONTEXT, whatever is done to it. */
  lemma {:induction false} NoLocalesStuck(s: State, acts: seq<Action>)
    requires s.locales == [] && Style !in s.have
    ensures Style !in Run(s, acts).have && Derive(Run(s, acts)).phase in {INTAKE, INGEST, CONTEXT}
    decreases |acts|
  {
    if acts != [] {
      StyleNeedsLocales(s, acts[0]);
      hide Act, Derive;
      NoLocalesStuck(Act(s, acts[0]), acts[1..]);
    }
  }

  lemma StyleNeedsLocales(s: State, a: Action)
    requires s.locales == [] && Style !in s.have
    ensures Style !in Act(s, a).have && Act(s, a).locales == []
  {
  }

  lemma {:induction false} FirstMissingHealth(s: State, locales: seq<string>)
    ensures FirstMissing(s, KHealth, locales) == None <==> forall l :: l in locales ==> l in s.health
  {
    if locales != [] {
      FirstMissingHealth(s, locales[1..]);
      assert forall l :: l in locales <==> l == locales[0] || l in locales[1..];
    }
  }

  /** The ungated step run while blockers stand has no target locale, so its report lands under the name
      "None". It leaves the derived stage alone unless a locale has that very name, holds the only blockers
      and is reported clean. */
  lemma BlockerStep(s: State, o: Outcome)
    requires Delta in s.have && Derive(s) == Stage(ASSET, None, None)
    ensures Blocked(s) && Next(s, o).have == s.have && Next(s, o).approved == s.approved
    ensures Derive(Next(s, o)) == Derive(s)
       <==> !(&& Uniques in s.have && !o.raises && !o.blockers && NO_LOCALE in s.locales
              && forall l :: l in s.locales && HasBlockers(s, l) ==> l == NO_LOCALE)
  {
    FirstMissingHealth(s, s.locales);
    var t := Next(s, o);
    FirstMissingHealth(t, t.locales);
    hide FirstMissing;
    if t != s {
      assert t.health == s.health[NO_LOCALE := o.blockers];
      assert forall l :: l != NO_LOCALE ==> HasBlockers(t, l) == HasBlockers(s, l);
    }
  }

  // ------------------------------------------------------------ exact progress

  const KINDS := {KHealth, KPilot, KProduction, KLqa, KMtpe, KPlan, KKit}

  function LocaleSet(locales: seq<string>): set<string> {
    set l | l in locales
  }

  function PerLocale(ls: set<string>): set<Artifact> {
    set k, l | k in KINDS && l in ls :: Of(k, l)
  }

  /** The artifacts a job must produce after its intake form. */
  function Required(ls: set<string>): set<Artifact> {
    {Market, Strings, Style, Delta, Manifest} + PerLocale(ls)
  }

  function Missing(s: State): set<Artifact> {
    set a | a in Required(LocaleSet(s.locales)) && !Have(s, a)
  }

  function Pending(s: State): set<Gate> {
    {G0, G1, G2, G3, G4, G5} - s.approved
  }

  /** A job with at least one locale in which no report has blockers and nothing was deleted. */
  predicate Healthy(s: State) {
    && s.locales != [] && Intake in s.have && (Strings in s.have ==> Uniques in s.have)
    && forall l :: l in s.health ==> !s.health[l]
  }

  predicate Clean(a: Action) {
    match a
    case DoNext(o) => !o.blockers
    case DoApprove(_) => true
    case DoDelete(_) => false
  }

  /** The action runs an executor to its end. */
  predicate Executes(s: State, a: Action) {
    a.DoNext? && !a.o.raises && Derive(s).gate.None? && Derive(s).phase != INCREMENTAL
  }

  predicate Signs(s: State, a: Action) {
    a.DoApprove? && CanApprove(s, a.g)
  }

  lemma {:induction false} FirstMissingIn(s: State, k: Kind, locales: seq<string>)
    ensures var l := FirstMissing(s, k, locales); l.Some? ==> l.value in locales && !Have(s, Of(k, l.value))
  {
    if locales != [] {
      FirstMissingIn(s, k, locales[1..]);
    }
  }

  lemma {:induction false} NoneMissing(s: State, k: Kind, locales: seq<string>)
    ensures FirstMissing(s, k, locales) == None ==> forall l :: l in locales ==> Have(s, Of(k, l))
  {
    if locales != [] {
      NoneMissing(s, k, locales[1..]);
      assert forall l :: l in locales <==> l == locales[0] || l in locales[1..];
    }
  }

  /** Every artifact of t is one of s, or the artifact made (the ingest of strings also writes the unique
      strings that ride along). */
  ghost predicate Adds(s: State, t: State, a: Artifact) {
    && t.locales == s.locales && t.approved == s.approved
    && forall x :: Have(t, x) <==> Have(s, x) || x == a || (a == Strings && x == Uniques)
  }

  /** Every executor writes exactly one artifact that was required and missing. */
  lemma NextMakes(s: State, o: Outcome) returns (a: Artifact)
    requires Healthy(s) && !o.blockers && Executes(s, DoNext(o))
    ensures Todo(s, Checklist(s.locales)) == Some(Make(a)) && a in Missing(s)
    ensures Adds(s, Next(s, o), a) && Healthy(Next(s, o))
  {
    DeriveIsTodo(s);
    a := DueIn(s);
    HandleMakes(s, o, a);
    hide Todo, Checklist, FirstMissing, Derive, Missing, Handle;
  }

  /** The handler reached through the stage of an artifact makes that artifact. */
  lemma HandleMakes(s: State, o: Outcome, a: Artifact)
    requires Healthy(s) && !o.blockers && !o.raises && a != Intake && a != Uniques
    requires a in {Style, Delta} || a.Health? ==> Strings in s.have
    requires (a.Health? ==> Delta in s.have) && (a == Delta ==> Delta !in s.have)
    ensures var t := Handle(s, StageFor(Make(a)), o); Adds(s, t, a) && Healthy(t)
  {
  }

  /** The item due is an artifact required for one of the job's locales, as long as the job is healthy. */
  lemma DueIn(s: State) returns (a: Artifact)
    requires Healthy(s) && Derive(s).gate.None? && Derive(s).phase != INCREMENTAL
    ensures Todo(s, Checklist(s.locales)) == Some(Make(a)) && a in Missing(s) && a != Intake && a != Uniques
    ensures a in {Style, Delta} || a.Health? ==> Strings in s.have
    ensures (a.Health? ==> Delta in s.have) && (a == Delta ==> Delta !in s.have)
  {
    hide Todo, FirstMissing, Checklist, FromHealth, FromPilot, FromProduction, FromTesting, FromRelease, Blocked, KINDS;
    TodoStart(s);
    TodoHealth(s);
    TodoPilot(s);
    TodoProduction(s);
    TodoTesting(s);
    TodoRelease(s);
    HealthyUnblocked(s);
    DueFor(s, KHealth);
    DueFor(s, KPilot);
    DueFor(s, KProduction);
    DueFor(s, KLqa);
    DueFor(s, KMtpe);
    DueFor(s, KPlan);
    DueFor(s, KKit);
    BaseMissing(s);
    hide Missing, Healthy;
    a := Todo(s, Checklist(s.locales)).value.a;
  }

  lemma EveryKind(k: Kind)
    ensures k in KINDS
  {
  }

  lemma DueFor(s: State, k: Kind)
    ensures var l := FirstMissing(s, k, s.locales); l.Some? ==> Of(k, l.value) in Missing(s)
  {
    FirstMissingIn(s, k, s.locales);
    EveryKind(k);
    hide FirstMissing, Of, KINDS;
    var l := FirstMissing(s, k, s.locales);
    if l.Some? {
      PerLocaleHas(k, l.value, s.locales);
    }
  }

  lemma BaseMissing(s: State)
    ensures forall a :: a in {Market, Strings, Style, Delta, Manifest} && a !in s.have ==> a in Missing(s)
  {
  }

  lemma PerLocaleHas(k: Kind, l: string, locales: seq<string>)
    requires k in KINDS && l in locales
    ensures Of(k, l) in Required(LocaleSet(locales))
  {
  }

  lemma AllMade(s: State)
    requires Derive(s).phase == INCREMENTAL
    ensures Missing(s) == {} && Pending(s) == {}
  {
    NoneMissing(s, KHealth, s.locales);
    NoneMissing(s, KPilot, s.locales);
    NoneMissing(s, KProduction, s.locales);
    NoneMissing(s, KLqa, s.locales);
    NoneMissing(s, KMtpe, s.locales);
    NoneMissing(s, KPlan, s.locales);
    NoneMissing(s, KKit, s.locales);
    hide FirstMissing, Blocked;
  }

  lemma MissingShrinks(s: State, t: State, a: Artifact)
    requires Adds(s, t, a) && a in Missing(s)
    ensures |Missing(s)| == |Missing(t)| + 1
  {
    assert Uniques !in Required(LocaleSet(s.locales)) by {
      NotRequired(LocaleSet(s.locales));
    }
    hide Required, LocaleSet, Have;
    assert Missing(t) == Missing(s) - {a};
  }

  lemma NotRequired(ls: set<string>)
    ensures Uniques !in Required(ls)
  {
  }

  lemma ActCounts(s: State, act: Action)
    requires Healthy(s) && Clean(act)
    ensures var t := Act(s, act);
      && Healthy(t) && t.locales == s.locales
      && |Missing(s)| == |Missing(t)| + (if Executes(s, act) then 1 else 0)
      && |Pending(s)| == |Pending(t)| + (if Signs(s, act) then 1 else 0)
  {
    if Executes(s, act) {
      ExecutingCounts(s, act.o);
    } else if Signs(s, act) {
      SigningCounts(s, act.g);
    }
    hide Derive, Missing, Pending, Healthy, Handle;
  }

  lemma ExecutingCounts(s: State, o: Outcome)
    requires Healthy(s) && !o.blockers && Executes(s, DoNext(o))
    ensures var t := Next(s, o); Healthy(t) && t.locales == s.locales && |Missing(s)| == |Missing(t)| + 1
    ensures Pending(Next(s, o)) == Pending(s)
  {
    var a := NextMakes(s, o);
    hide Derive, Handle, Todo, Checklist, Missing, Healthy, Next;
    MissingShrinks(s, Next(s, o), a);
  }

  lemma SigningCounts(s: State, g: Gate)
    requires Healthy(s) && CanApprove(s, g)
    ensures var t := Approve(s, g); Healthy(t) && t.locales == s.locales && Missing(t) == Missing(s)
    ensures |Pending(s)| == |Pending(Approve(s, g))| + 1
  {
    assert g in Pending(s) by {
      PendingGate(s, g);
    }
    hide Derive, Missing;
    assert Pending(Approve(s, g)) == Pending(s) - {g};
    MissingSame(s, Approve(s, g));
  }

  lemma PendingGate(s: State, g: Gate)
    requires CanApprove(s, g)
    ensures g !in s.approved
  {
  }

  lemma MissingSame(s: State, t: State)
    requires t.locales == s.locales && t.have == s.have && t.health == s.health
    ensures Missing(t) == Missing(s)
  {
  }

  function ExecCount(s: State, acts: seq<Action>): nat
    decreases |acts|
  {
    if acts == [] then 0 else (if Executes(s, acts[0]) then 1 else 0) + ExecCount(Act(s, acts[0]), acts[1..])
  }

  function SignCount(s: State, acts: seq<Action>): nat
    decreases |acts|
  {
    if acts == [] then 0 else (if Signs(s, acts[0]) then 1 else 0) + SignCount(Act(s, acts[0]), acts[1..])
  }

  lemma {:induction false} RunCounts(s: State, acts: seq<Action>)
    requires Healthy(s) && forall a :: a in acts ==> Clean(a)
    ensures var t := Run(s, acts);
      && t.locales == s.locales
      && |Missing(s)| == |Missing(t)| + ExecCount(s, acts) && |Pending(s)| == |Pending(t)| + SignCount(s, acts)
    decreases |acts|
  {
    if acts != [] {
      hide Act, Missing, Pending, Executes, Signs, Healthy, Clean;
      assert acts[0] in acts;
      ActCounts(s, acts[0]);
      RunCounts(Act(s, acts[0]), acts[1..]);
    }
  }

  function ForLocale(l: string): set<Artifact> {
    {Health(l), Pilot(l), Production(l), Lqa(l), Mtpe(l), Plan(l), Kit(l)}
  }

  lemma {:induction false} PerLocaleSize(ls: set<string>)
    ensures |PerLocale(ls)| == 7 * |ls|
  {
    if ls == {} {
      assert PerLocale({}) == {};
    } else {
      hide PerLocale, ForLocale;
      var l :| l in ls;
      PerLocaleSize(ls - {l});
      OneLocale(l, ls);
      UnionSize(PerLocale(ls - {l}), ForLocale(l));
      SevenEach(l);
    }
  }

  lemma SevenEach(l: string)
    ensures |ForLocale(l)| == 7
  {
  }

  lemma OneLocale(l: string, ls: set<string>)
    requires l in ls
    ensures PerLocale(ls) == PerLocale(ls - {l}) + ForLocale(l) && PerLocale(ls - {l}) !! ForLocale(l)
  {
  }

  lemma UnionSize<T>(a: set<T>, b: set<T>)
    requires a !! b
    ensures |a + b| == |a| + |b|
  {
  }

  lemma RequiredSize(ls: set<string>)
    ensures |Required(ls)| == 5 + 7 * |ls|
  {
    PerLocaleSize(ls);
    assert |{Market, Strings, Style, Delta, Manifest}| == 5;
    UnionSize({Market, Strings, Style, Delta, Manifest}, PerLocale(ls));
  }

  /** Progress is exact: every run without deletions and without blockers that takes a fresh job of n
      distinct locales to INCREMENTAL, however steps, approvals and failing executors interleave, holds
      exactly 5 + 7n executing steps and 6 approvals. */
  lemma ExactRun(locales: seq<string>, acts: seq<Action>)
    requires locales != [] && forall a :: a in acts ==> Clean(a)
    requires Derive(Run(Init(locales), acts)).phase == INCREMENTAL
    ensures ExecCount(Init(locales), acts) == 5 + 7 * |LocaleSet(locales)|
    ensures SignCount(Init(locales), acts) == 6
  {
    var s := Init(locales);
    RunCounts(s, acts);
    AllMade(Run(s, acts));
    RequiredSize(LocaleSet(locales));
    NothingMadeYet(locales);
    hide Derive, Run, ExecCount, SignCount, Missing, Required, Pending, Clean;
  }

  lemma NothingMadeYet(locales: seq<string>)
    ensures Missing(Init(locales)) == Required(LocaleSet(locales)) && |Pending(Init(locales))| == 6
  {
  }

  lemma PositionGrows(s: State, t: State)
    requires t.locales == s.locales && forall i: Item :: Met(s, i) ==> Met(t, i)
    ensures Position(s) <= Position(t)
    ensures Position(s) < |Checklist(s.locales)| && Met(t, Checklist(s.locales)[Position(s)]) ==>
      Position(s) < Position(t)
  {
  }

  lemma ExecutionRises(s: State, act: Action)
    requires Healthy(s) && Clean(act) && Executes(s, act)
    ensures Position(s) < Position(Act(s, act))
  {
    var t := Act(s, act);
    TodoIsFirstUnmet(s, Checklist(s.locales));
    var a := NextMakes(s, act.o);
    MetGrows(s, t, a);
    hide Derive, Handle, Todo, Checklist, FirstUnmet, Missing, Healthy;
    PositionGrows(s, t);
  }

  /** Without deletions and blockers no action lowers the derived position; an executor that runs to its end
      and an approval that is accepted each raise it. */
  lemma PositionRises(s: State, act: Action)
    requires Healthy(s) && Clean(act)
    ensures Position(s) <= Position(Act(s, act))
    ensures Executes(s, act) || Signs(s, act) ==> Position(s) < Position(Act(s, act))
  {
    if Executes(s, act) {
      ExecutionRises(s, act);
    } else {
      var t := Act(s, act);
      TodoIsFirstUnmet(s, Checklist(s.locales));
      DeriveIsFirstUnmet(s);
      hide Derive, Handle, Todo, Checklist, FirstUnmet, Missing, Healthy;
      PositionGrows(s, t);
    }
  }

  lemma MetGrows(s: State, t: State, a: Artifact)
    requires Adds(s, t, a) && Healthy(t)
    ensures forall i: Item :: Met(s, i) ==> Met(t, i)
    ensures Met(t, Make(a))
  {
  }

  lemma HealthyUnblocked(s: State)
    requires Healthy(s)
    ensures !Blocked(s)
  {
  }

  /** A healthy job can always be brought to its end: step while no gate is pending, else approve the gate. */
  lemma {:induction false} Finishes(s: State) returns (acts: seq<Action>)
    requires Healthy(s)
    ensures forall a :: a in acts ==> Clean(a)
    ensures Derive(Run(s, acts)).phase == INCREMENTAL
    decreases |Checklist(s.locales)| - Position(s)
  {
    if Derive(s).phase == INCREMENTAL {
      acts := [];
    } else {
      var act := if Derive(s).gate.Some? then DoApprove(Derive(s).gate.value) else DoNext(Outcome(false, false));
      var t := Act(s, act);
      PositionRises(s, act);
      StaysHealthy(s, act);
      hide Derive, Healthy, Checklist, FirstUnmet, Act;
      var rest := Finishes(t);
      acts := [act] + rest;
      assert acts[1..] == rest;
    }
  }

  lemma StaysHealthy(s: State, act: Action)
    requires Healthy(s) && (Executes(s, act) || Signs(s, act)) && Clean(act)
    ensures Healthy(Act(s, act)) && Act(s, act).locales == s.locales
  {
    if Executes(s, act) {
      var a := NextMakes(s, act.o);
    }
    hide Handle, Derive;
    ActKeepsLocales(s, act);
  }

  lemma ActKeepsLocales(s: State, act: Action)
    ensures Act(s, act).locales == s.locales
  {
  }

  /** A job can be brought to its end exactly when it has a locale. */
  lemma FinishableExact(locales: seq<string>)
    ensures (exists acts :: Derive(Run(Init(locales), acts)).phase == INCREMENTAL) <==> locales != []
  {
    hide Derive, Run;
    if locales != [] {
      var acts := Finishes(Init(locales));
    } else {
      forall acts ensures Derive(Run(Init(locales), acts)).phase != INCREMENTAL {
        NoLocalesStuck(Init(locales), acts);
      }
    }
  }
}
