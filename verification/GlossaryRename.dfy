/** Old spellings across the editor and the merger: the `supersedes` that an edit or a unification records is what
    keeps a spelling of the draft out of the rounds that follow, and an entry has room for one (glossary_edit.py
    `apply_edits`, `unify_terms`; glossary_merge.py `merge_round`). */
module GlossaryRename {
  import opened Text
  import opened Grouping
  import opened GlossaryTerms
  import opened GlossaryEdit
  import opened GlossaryMerge

  /** Entry k is on record for the spelling s, which keeps s out of a draft merge. */
  predicate Supersedes(terms: Terms, k: string, s: string) {
    s != "" && k in terms && terms[k].supersedes == s
  }

  ghost predicate InDraft(ds: seq<DraftRow>, zh: string) {
    exists d :: d in ds && d.zh == zh
  }

  /** Some row of the round rules on k, by the terms the round starts from. */
  ghost predicate RuledOn(terms: Terms, rows: seq<ReviewRow>, k: string) {
    exists row :: row in rows && Subject(row) == k && DoesRule(terms, row)
  }

  /** The terms `merge_round` makes. */
  function Round(terms: Terms, rows: seq<ReviewRow>, ds: seq<DraftRow>, round: string, w: Words): Terms {
    var ruled := DecideAll(Reviewed(terms, [], [], []), rows, round, w).terms;
    DraftAll(Drafted(ruled, [], [], [], []), SupersededBy(ruled), ds, w).terms
  }

  // ---------------------------------------------------------- one round, exactly

  /** A ruled term is there, on record for nothing; any other keeps its presence, rendering and record. */
  ghost predicate Forgotten(was: Terms, now: Terms, ruled: bool, k: string) {
    if ruled then k in now && now[k].supersedes == ""
    else
      && (k in now <==> k in was)
      && (k in now ==> now[k].translation == was[k].translation && now[k].supersedes == was[k].supersedes)
  }

  lemma DecideForgets(was: Terms, r: Reviewed, row: ReviewRow, round: string, w: Words, ruled: bool, k: string)
    requires Forgotten(was, r.terms, ruled, k)
    ensures Forgotten(was, Decide(r, row, round, w).terms, ruled || (Subject(row) == k && DoesRule(was, row)), k)
  {
    hide Subject;
  }

  lemma RuledOnSnoc(terms: Terms, rows: seq<ReviewRow>, row: ReviewRow, k: string)
    ensures RuledOn(terms, rows + [row], k) <==> RuledOn(terms, rows, k) || (Subject(row) == k && DoesRule(terms, row))
  {
    hide Subject, DoesRule;
    assert forall x :: x in rows + [row] <==> x in rows || x == row;
  }

  /** The rulings of a round, term by term: whether a row rules can be read off the terms the round starts from, and
      the terms ruled on forget what they superseded. */
  lemma {:induction false} RulingsForget(terms: Terms, rows: seq<ReviewRow>, round: string, w: Words, k: string)
    ensures Forgotten(terms, DecideAll(Reviewed(terms, [], [], []), rows, round, w).terms, RuledOn(terms, rows, k), k)
  {
    hide Decide, Forgotten, RuledOn;
    if rows == [] {
      NothingRuled(terms, k);
    } else {
      var rest, row := rows[..|rows| - 1], rows[|rows| - 1];
      RulingsForget(terms, rest, round, w, k);
      DecideForgets(terms, DecideAll(Reviewed(terms, [], [], []), rest, round, w), row, round, w,
                    RuledOn(terms, rest, k), k);
      RuledOnSnoc(terms, rest, row, k);
      assert rows == rest + [row];
    }
  }

  lemma NothingRuled(terms: Terms, k: string)
    ensures Forgotten(terms, terms, RuledOn(terms, [], k), k)
  {
  }

  lemma DraftRecords(r: Drafted, gone: set<string>, d: DraftRow, w: Words, k: string, s: string)
    ensures Supersedes(Draft(r, gone, d, w).terms, k, s) == Supersedes(r.terms, k, s)
  {
    hide Same, WithEvidence;
  }

  lemma {:induction false} DraftsRecord(r: Drafted, gone: set<string>, ds: seq<DraftRow>, w: Words, k: string,
                                        s: string)
    ensures Supersedes(DraftAll(r, gone, ds, w).terms, k, s) == Supersedes(r.terms, k, s)
  {
    hide Draft, Supersedes;
    if ds != [] {
      var rest := ds[..|ds| - 1];
      DraftsRecord(r, gone, rest, w, k, s);
      DraftRecords(DraftAll(r, gone, rest, w), gone, ds[|ds| - 1], w, k, s);
    }
  }

  lemma DecideRecords(terms: Terms, rows: seq<ReviewRow>, round: string, w: Words, k: string, s: string)
    ensures Supersedes(DecideAll(Reviewed(terms, [], [], []), rows, round, w).terms, k, s)
       <==> Supersedes(terms, k, s) && !RuledOn(terms, rows, k)
  {
    hide DecideAll, RuledOn;
    RulingsForget(terms, rows, round, w, k);
  }

  /** What a whole round leaves on record: everything but the records of the terms it rules on. */
  lemma RoundRecords(terms: Terms, rows: seq<ReviewRow>, ds: seq<DraftRow>, round: string, w: Words, k: string,
                     s: string)
    ensures Supersedes(Round(terms, rows, ds, round, w), k, s) <==> Supersedes(terms, k, s) && !RuledOn(terms, rows, k)
  {
    hide DecideAll, DraftAll, SupersededBy, Supersedes, RuledOn;
    var ruled := DecideAll(Reviewed(terms, [], [], []), rows, round, w).terms;
    DecideRecords(terms, rows, round, w, k, s);
    DraftsRecord(Drafted(ruled, [], [], [], []), SupersededBy(ruled), ds, w, k, s);
  }

  lemma SupersededIs(terms: Terms, s: string)
    ensures Superseded(terms, s) <==> exists k :: Supersedes(terms, k, s)
  {
    if Superseded(terms, s) {
      var k :| k in terms && terms[k].supersedes == s;
      assert Supersedes(terms, k, s);
    }
  }

  lemma DraftReturns(terms: Terms, ds: seq<DraftRow>, w: Words, s: string)
    ensures s in DraftAll(Drafted(terms, [], [], [], []), SupersededBy(terms), ds, w).terms
       <==> s in terms || (InDraft(ds, s) && !Superseded(terms, s))
  {
    hide DraftAll, Superseded;
    DraftsYield(Drafted(terms, [], [], [], []), SupersededBy(terms), ds, w, s);
    if d :| d in ds && d.zh == s && s !in SupersededBy(terms) {
      DraftCovered(Drafted(terms, [], [], [], []), SupersededBy(terms), ds, w, d);
    }
  }

  /** The spellings of the glossary a whole round makes: those that were there, those ruled on, and those of the draft
      that are not superseded by an entry which the round leaves unruled. */
  lemma ReturnsExact(terms: Terms, rows: seq<ReviewRow>, ds: seq<DraftRow>, round: string, w: Words, s: string)
    ensures s in Round(terms, rows, ds, round, w)
       <==> || s in terms || RuledOn(terms, rows, s)
            || (InDraft(ds, s) && forall k :: Supersedes(terms, k, s) ==> RuledOn(terms, rows, k))
  {
    hide DecideAll, DraftAll, RuledOn, SupersededBy, Superseded, Supersedes, InDraft;
    var ruled := DecideAll(Reviewed(terms, [], [], []), rows, round, w).terms;
    RulingsForget(terms, rows, round, w, s);
    forall k ensures Supersedes(ruled, k, s) <==> Supersedes(terms, k, s) && !RuledOn(terms, rows, k) {
      DecideRecords(terms, rows, round, w, k, s);
    }
    SupersededIs(ruled, s);
    DraftReturns(ruled, ds, w, s);
  }

  // ------------------------------------------------------- one edit, one unification

  /** The edit writes k and records in it that it was s. */
  predicate RecordsEdit(terms: Terms, edit: TermEdit, force: bool, k: string, s: string) {
    s != "" && edit.zhOld == s && k != s && k in Forms(edit.zh) && Writes(terms, k, edit.en, force)
  }

  /** The edit retires k, or records another old spelling over the one k was on record for. */
  predicate DropsEdit(terms: Terms, edit: TermEdit, force: bool, k: string, s: string) {
    && edit.zhOld != "" && Forms(edit.zh) != []
    && (k == edit.zhOld || (edit.zhOld != s && k in Forms(edit.zh) && Writes(terms, k, edit.en, force)))
  }

  lemma EditRecords(p: Progress, edit: TermEdit, origin: string, force: bool, k: string, s: string)
    requires !p.raised
    ensures Supersedes(ApplyEdit(p, edit, origin, force).terms, k, s)
       <==> || RecordsEdit(p.terms, edit, force, k, s)
            || (Supersedes(p.terms, k, s) && !DropsEdit(p.terms, edit, force, k, s))
  {
    if Forms(edit.zh) != [] {
      hide ApplyEdit, Forms, Writes;
      EditExact(p, edit, origin, force, k);
    }
  }

  /** Without keeping its variants, unification takes exactly the listed ones that are there, and touches no other. */
  lemma {:induction false} UnifyRetires(u: Unified, vs: seq<string>, canonical: string, rendering: string,
                                        origin: string, z: string)
    requires u.retired == []
    ensures var q := UnifyEach(u, vs, canonical, rendering, origin, false);
      && (z in q.terms <==> z in u.terms && !(z in vs && z != canonical))
      && (z in q.terms ==> q.terms[z] == u.terms[z])
      && (z in q.retired <==> z in u.terms && z in vs && z != canonical)
  {
    if vs != [] {
      var rest := vs[..|vs| - 1];
      UnifyRetires(u, rest, canonical, rendering, origin, z);
      assert vs == rest + [vs[|vs| - 1]];
    }
  }

  lemma {:induction false} RetiredOnce(u: Unified, vs: seq<string>, canonical: string, rendering: string,
                                       origin: string)
    requires u.retired == []
    ensures Distinct(UnifyEach(u, vs, canonical, rendering, origin, false).retired)
  {
    if vs != [] {
      var rest, v := vs[..|vs| - 1], vs[|vs| - 1];
      RetiredOnce(u, rest, canonical, rendering, origin);
      UnifyRetires(u, rest, canonical, rendering, origin, v);
    }
  }

  /** Keeping its variants, unification keeps their records. */
  lemma {:induction false} UnifyKeeps(u: Unified, vs: seq<string>, canonical: string, rendering: string,
                                      origin: string, z: string)
    ensures var q := UnifyEach(u, vs, canonical, rendering, origin, true);
      && (z in q.terms <==> z in u.terms) && OldSpelling(q.terms, z) == OldSpelling(u.terms, z)
      && q.retired == u.retired
  {
    if vs != [] {
      UnifyKeeps(u, vs[..|vs| - 1], canonical, rendering, origin, z);
    }
  }

  /** A unification, entry by entry: it retires the listed variants that are there, each once and only without `keep`;
      their names, joined, are then all the canonical term is on record for; every other record stays. */
  lemma UnifyRecords(terms: Terms, canonical: string, vs: seq<string>, translation: string, origin: string, keep: bool,
                     k: string, s: string)
    requires CanUnify(terms, canonical, translation)
    ensures var u := Unify(terms, canonical, vs, translation, origin, keep);
      && (k in u.retired <==> !keep && k in terms && k in vs && k != canonical)
      && (k in u.terms <==> (k in terms || k == canonical) && k !in u.retired)
      && Distinct(u.retired)
      && (Supersedes(u.terms, k, s) <==>
            if k == canonical && u.retired != [] then s != "" && Joined(u.retired) == s
            else Supersedes(terms, k, s) && k !in u.retired)
  {
    hide UnifyEach, Joined, Rendering, WithEvidence;
    var r := Rendering(terms, canonical, translation);
    var u := Unified(terms[canonical := Head(terms, canonical, r, origin)], [], [], []);
    assert OldSpelling(u.terms, k) == OldSpelling(terms, k);
    if keep {
      UnifyKeeps(u, vs, canonical, r, origin, k);
      
    } else {
      UnifyRetires(u, vs, canonical, r, origin, k);
      UnifyRetires(u, vs, canonical, r, origin, canonical);
      RetiredOnce(u, vs, canonical, r, origin);
    }
  }

  /** Several names joined are longer than any of them. */
  lemma {:induction false} JoinedLonger(names: seq<string>, v: string)
    requires v in names
    ensures |Joined(names)| >= |v| && (|names| >= 2 ==> |Joined(names)| > |v|)
  {
    if |names| >= 2 && v != names[0] {
      JoinedLonger(names[1..], v);
    }
  }

  lemma JoinedIs(names: seq<string>, v: string)
    requires Distinct(names) && v in names
    ensures Joined(names) == v <==> forall z :: z in names ==> z == v
  {
    JoinedLonger(names, v);
    if |names| >= 2 {
      assert names[0] in names && names[1] in names;
    }
  }

  /** k is the canonical term and v the only spelling retired, or k stays in the list and superseded v before. */
  ghost predicate OnlyOrBefore(terms: Terms, canonical: string, vs: seq<string>, k: string, v: string) {
    if k == canonical then forall z :: z in vs && z in terms && z != canonical ==> z == v
    else Supersedes(terms, k, v) && k !in vs
  }

  lemma RetiredRecord(terms: Terms, canonical: string, vs: seq<string>, translation: string, origin: string,
                      k: string, v: string)
    requires CanUnify(terms, canonical, translation) && v in vs && v in terms && v != canonical && v != ""
    ensures Supersedes(Unify(terms, canonical, vs, translation, origin, false).terms, k, v)
       <==> OnlyOrBefore(terms, canonical, vs, k, v)
  {
    hide Unify;
    var u := Unify(terms, canonical, vs, translation, origin, false);
    forall z ensures z in u.retired <==> z in terms && z in vs && z != canonical {
      UnifyRecords(terms, canonical, vs, translation, origin, false, z, v);
    }
    UnifyRecords(terms, canonical, vs, translation, origin, false, k, v);
    JoinedIs(u.retired, v);
  }

  /** A spelling that unification retires stays out of the round that follows exactly when some entry the round leaves
      unruled is on record for it: the canonical term, when the spelling is the only one retired (the names of several
      are recorded as one joined string, which is none of them), or one that had it on record before. */
  lemma UnifyRetiresExact(terms: Terms, canonical: string, vs: seq<string>, translation: string, origin: string,
                          rows: seq<ReviewRow>, ds: seq<DraftRow>, round: string, w: Words, v: string)
    requires CanUnify(terms, canonical, translation) && v in vs && v in terms && v != canonical && v != ""
    requires InDraft(ds, v)
    ensures var t := Unify(terms, canonical, vs, translation, origin, false).terms;
      v in Round(t, rows, ds, round, w)
      <==> || RuledOn(t, rows, v)
           || forall k :: OnlyOrBefore(terms, canonical, vs, k, v) ==> RuledOn(t, rows, k)
  {
    hide Unify, RuledOn, Round, Supersedes;
    var u := Unify(terms, canonical, vs, translation, origin, false);
    forall k ensures Supersedes(u.terms, k, v) <==> OnlyOrBefore(terms, canonical, vs, k, v) {
      RetiredRecord(terms, canonical, vs, translation, origin, k, v);
    }
    UnifyRecords(terms, canonical, vs, translation, origin, false, v, v);
    ReturnsExact(u.terms, rows, ds, round, w, v);
  }

  // --------------------------------------------------------------- whole histories

  /** What happens to a glossary between two drafts: an operator edit, a unification, a merge round. */
  datatype Step =
    | EditStep(edit: TermEdit, origin: string, force: bool)
    | UnifyStep(canonical: string, vs: seq<string>, translation: string, origin: string, keep: bool)
    | RoundStep(rows: seq<ReviewRow>, ds: seq<DraftRow>, round: string)

  /** A step that raises leaves the terms alone. */
  function Take(terms: Terms, step: Step, w: Words): Terms {
    match step
    case EditStep(edit, origin, force) => ApplyEdit(Progress(terms, NO_RESULT, false), edit, origin, force).terms
    case UnifyStep(canonical, vs, translation, origin, keep) =>
      if CanUnify(terms, canonical, translation) then Unify(terms, canonical, vs, translation, origin, keep).terms
      else terms
    case RoundStep(rows, ds, round) => Round(terms, rows, ds, round, w)
  }

  function Run(terms: Terms, steps: seq<Step>, w: Words): Terms {
    if steps == [] then terms else Take(Run(terms, steps[..|steps| - 1], w), steps[|steps| - 1], w)
  }

  /** The step puts k on record for s. */
  predicate Records(terms: Terms, step: Step, k: string, s: string) {
    match step
    case EditStep(edit, _, force) => RecordsEdit(terms, edit, force, k, s)
    case UnifyStep(canonical, vs, translation, origin, keep) =>
      && s != "" && k == canonical && CanUnify(terms, canonical, translation)
      && var retired := Unify(terms, canonical, vs, translation, origin, keep).retired;
         retired != [] && Joined(retired) == s
    case RoundStep(_, _, _) => false
  }

  /** The step takes k off the record for s: k leaves the list, is put on record for something else, or is ruled on. */
  ghost predicate Drops(terms: Terms, step: Step, k: string, s: string) {
    match step
    case EditStep(edit, _, force) => DropsEdit(terms, edit, force, k, s)
    case UnifyStep(canonical, vs, translation, origin, keep) =>
      && CanUnify(terms, canonical, translation)
      && var retired := Unify(terms, canonical, vs, translation, origin, keep).retired;
         k in retired || (k == canonical && retired != [] && Joined(retired) != s)
    case RoundStep(rows, _, _) => RuledOn(terms, rows, k)
  }

  lemma TakeRecords(terms: Terms, step: Step, w: Words, k: string, s: string)
    ensures Supersedes(Take(terms, step, w), k, s)
       <==> Records(terms, step, k, s) || (Supersedes(terms, k, s) && !Drops(terms, step, k, s))
  {
    hide ApplyEdit, Unify, Round, RecordsEdit, DropsEdit, RuledOn, Joined;
    match step
    case EditStep(edit, origin, force) => EditRecords(Progress(terms, NO_RESULT, false), edit, origin, force, k, s);
    case UnifyStep(canonical, vs, translation, origin, keep) =>
      if CanUnify(terms, canonical, translation) {
        UnifyRecords(terms, canonical, vs, translation, origin, keep, k, s);
      }
    case RoundStep(rows, ds, round) => RoundRecords(terms, rows, ds, round, w, k, s);
  }

  /** k was on record for s at the start (i == 0), or the step right before i put it there. */
  ghost predicate Recorded(terms: Terms, steps: seq<Step>, w: Words, k: string, s: string, i: nat)
    requires i <= |steps|
  {
    if i == 0 then Supersedes(terms, k, s) else Records(Run(terms, steps[..i - 1], w), steps[i - 1], k, s)
  }

  /** No step from i on takes it off. */
  ghost predicate Undropped(terms: Terms, steps: seq<Step>, w: Words, k: string, s: string, i: nat) {
    forall j :: i <= j < |steps| ==> !Drops(Run(terms, steps[..j], w), steps[j], k, s)
  }

  ghost predicate OnRecord(terms: Terms, steps: seq<Step>, w: Words, k: string, s: string) {
    exists i :: 0 <= i <= |steps| && Recorded(terms, steps, w, k, s, i) && Undropped(terms, steps, w, k, s, i)
  }

  lemma OnRecordSnoc(terms: Terms, steps: seq<Step>, step: Step, w: Words, k: string, s: string)
    ensures OnRecord(terms, steps + [step], w, k, s)
       <==> || Records(Run(terms, steps, w), step, k, s)
            || (OnRecord(terms, steps, w, k, s) && !Drops(Run(terms, steps, w), step, k, s))
  {
    hide Records, Drops, Run, Supersedes;
    var more, n := steps + [step], |steps|;
    assert forall j :: 0 <= j <= n ==> more[..j] == steps[..j];
    assert steps[..n] == steps;
    forall i | 0 <= i <= n
      ensures Recorded(terms, more, w, k, s, i) == Recorded(terms, steps, w, k, s, i)
      ensures Undropped(terms, more, w, k, s, i)
         <==> Undropped(terms, steps, w, k, s, i) && !Drops(Run(terms, steps, w), step, k, s) {
      assert more[n] == step;
    }
    assert Recorded(terms, more, w, k, s, n + 1) == Records(Run(terms, steps, w), step, k, s);
    assert Undropped(terms, more, w, k, s, n + 1);
  }

  /** Over any run of edits, unifications and rounds: an entry supersedes a spelling at the end exactly when it did at
      the start or some step recorded it, and no step since took it off the record. */
  lemma {:induction false} RunRecords(terms: Terms, steps: seq<Step>, w: Words, k: string, s: string)
    ensures Supersedes(Run(terms, steps, w), k, s) <==> OnRecord(terms, steps, w, k, s)
  {
    hide Take, Records, Drops, Supersedes, OnRecord;
    if steps == [] {
      NothingHappened(terms, w, k, s);
    } else {
      var rest, step := steps[..|steps| - 1], steps[|steps| - 1];
      RunRecords(terms, rest, w, k, s);
      TakeRecords(Run(terms, rest, w), step, w, k, s);
      OnRecordSnoc(terms, rest, step, w, k, s);
      assert steps == rest + [step];
    }
  }

  lemma NothingHappened(terms: Terms, w: Words, k: string, s: string)
    ensures OnRecord(terms, [], w, k, s) <==> Supersedes(terms, k, s)
  {
    if Supersedes(terms, k, s) {
      assert Recorded(terms, [], w, k, s, 0) && Undropped(terms, [], w, k, s, 0);
    }
  }

  /** A round at the end of any run: a spelling of the draft that is neither in the list nor ruled on comes back exactly
      when the round rules on every entry that is on record for it. */
  lemma ComesBackExact(terms: Terms, steps: seq<Step>, rows: seq<ReviewRow>, ds: seq<DraftRow>, round: string, w: Words,
                       s: string)
    ensures var t := Run(terms, steps, w);
      s in Round(t, rows, ds, round, w)
      <==> || s in t || RuledOn(t, rows, s)
           || (InDraft(ds, s) && forall k :: OnRecord(terms, steps, w, k, s) ==> RuledOn(t, rows, k))
  {
    hide Run, Round, RuledOn, OnRecord, Supersedes;
    var t := Run(terms, steps, w);
    forall k ensures Supersedes(t, k, s) <==> OnRecord(terms, steps, w, k, s) {
      RunRecords(terms, steps, w, k, s);
    }
    ReturnsExact(t, rows, ds, round, w, s);
  }

  // ------------------------------------------------------------- one call of the editor

  function EditSteps(edits: seq<TermEdit>, origin: string, force: bool): (steps: seq<Step>)
    ensures |steps| == |edits|
  {
    seq(|edits|, i requires 0 <= i < |edits| => EditStep(edits[i], origin, force))
  }

  lemma EditIgnoresReport(p: Progress, q: Progress, edit: TermEdit, origin: string, force: bool)
    requires !p.raised && !q.raised && p.terms == q.terms
    ensures ApplyEdit(p, edit, origin, force).terms == ApplyEdit(q, edit, origin, force).terms
  {
    hide ApplyForms, Forms;
    var forms := Forms(edit.zh);
    FormsIgnoreReport(p, q, edit, forms, |forms|, origin, force);
  }

  lemma {:induction false} FormsIgnoreReport(p: Progress, q: Progress, edit: TermEdit, forms: seq<string>, n: nat,
                                             origin: string, force: bool)
    requires n <= |forms| && p.terms == q.terms
    ensures ApplyForms(p, edit, forms, n, origin, force).terms == ApplyForms(q, edit, forms, n, origin, force).terms
  {
    hide NewEntry, RecordOf;
    if n > 0 {
      FormsIgnoreReport(p, q, edit, forms, n - 1, origin, force);
    }
  }

  /** A call that does not raise is a run of its edits. */
  lemma {:induction false} EditsAreSteps(p: Progress, edits: seq<TermEdit>, origin: string, force: bool, w: Words)
    requires !ApplyAll(p, edits, origin, force).raised
    ensures ApplyAll(p, edits, origin, force).terms == Run(p.terms, EditSteps(edits, origin, force), w)
  {
    hide ApplyEdit;
    if edits != [] {
      var rest, edit := edits[..|edits| - 1], edits[|edits| - 1];
      RaisedOnly(ApplyAll(p, rest, origin, force), edit, origin, force);
      EditsAreSteps(p, rest, origin, force, w);
      assert EditSteps(edits, origin, force)[..|edits| - 1] == EditSteps(rest, origin, force);
      var q := ApplyAll(p, rest, origin, force);
      EditIgnoresReport(q, Progress(q.terms, NO_RESULT, false), edit, origin, force);
    }
  }

  lemma RaisedOnly(p: Progress, edit: TermEdit, origin: string, force: bool)
    ensures p.raised ==> ApplyEdit(p, edit, origin, force).raised
  {
  }

  /** Any list of edits, then a round: a spelling of the draft that is neither in the list nor ruled on stays out
      exactly when some entry that the round leaves unruled had it on record before, or was written by an edit that
      renames it, and no later edit of the list renamed that entry away or wrote another old name over it. */
  lemma RenameSticksExact(p: Progress, edits: seq<TermEdit>, origin: string, force: bool, rows: seq<ReviewRow>,
                          ds: seq<DraftRow>, round: string, w: Words, s: string)
    requires !ApplyAll(p, edits, origin, force).raised
    requires InDraft(ds, s) && s !in ApplyAll(p, edits, origin, force).terms
    requires !RuledOn(ApplyAll(p, edits, origin, force).terms, rows, s)
    ensures var t := ApplyAll(p, edits, origin, force).terms;
      s !in Round(t, rows, ds, round, w)
      <==> exists k :: OnRecord(p.terms, EditSteps(edits, origin, force), w, k, s) && !RuledOn(t, rows, k)
  {
    hide ApplyAll, Run, Round, RuledOn, OnRecord;
    EditsAreSteps(p, edits, origin, force, w);
    ComesBackExact(p.terms, EditSteps(edits, origin, force), rows, ds, round, w, s);
  }

  // --------------------------------------------------- one slot for every old spelling

  /** With nothing on record for it and no review rows, a spelling of the draft is there after the round. */
  lemma ComesBack(terms: Terms, d: DraftRow, round: string, w: Words)
    requires forall k :: !Supersedes(terms, k, d.zh)
    ensures d.zh in Round(terms, [], [d], round, w)
  {
    hide Round, RuledOn, Supersedes;
    assert InDraft([d], d.zh);
    ReturnsExact(terms, [], [d], round, w, d.zh);
  }

  lemma StaysOut(terms: Terms, d: DraftRow, round: string, w: Words, k: string)
    requires Supersedes(terms, k, d.zh) && d.zh !in terms
    ensures d.zh !in Round(terms, [], [d], round, w)
  {
    hide Round, Supersedes;
    ReturnsExact(terms, [], [d], round, w, d.zh);
  }

  lemma RunOne(terms: Terms, x: Step, w: Words)
    ensures Run(terms, [x], w) == Take(terms, x, w)
  {
    hide Take;
    assert [x][..0] == [];
  }

  lemma RunTwo(terms: Terms, x: Step, y: Step, w: Words)
    ensures Run(terms, [x, y], w) == Take(Take(terms, x, w), y, w)
  {
    hide Take;
    RunOne(terms, x, w);
    assert [x, y][..1] == [x];
  }

  lemma OneForm(c: char)
    requires c != '/' && !IsSpace(c)
    ensures Forms([c]) == [[c]]
  {
    var s := [c];
    var rest := Split(s[1..], '/');
    assert rest == [[]] && [s[0]] + rest[0] == s;
    assert Split(s, '/') == [s];
    assert Stripped([s][1..]) == [];
  }

  /** The two entries, and "a" renamed to "c". */
  lemma FirstRename(t: Term, origin: string, w: Words) returns (first: Step, one: Terms)
    requires t.supersedes == ""
    ensures first == EditStep(TermEdit("c", "X", "", "a"), origin, true)
    ensures one == Take(map["a" := t, "b" := t], first, w)
    ensures "a" !in one && "b" in one && "c" in one && one["c"].translation == "X"
    ensures forall k :: Supersedes(one, k, "a") <==> k == "c"
  {
    hide ApplyEdit, Forms;
    var was, edit := map["a" := t, "b" := t], TermEdit("c", "X", "", "a");
    first := EditStep(edit, origin, true);
    one := Take(was, first, w);
    OneForm('c');
    forall zh ensures if zh == "a" then zh !in one else EditSettled(was, one, ["c"], edit, true, zh) {
      EditExact(Progress(was, NO_RESULT, false), edit, origin, true, zh);
    }
  }

  lemma UnifiedOver(one: Terms, origin: string, w: Words, k: string)
    requires "b" in one && "c" in one && forall k :: Supersedes(one, k, "a") <==> k == "c"
    ensures !Supersedes(Take(one, UnifyStep("c", ["b"], "", origin, false), w), k, "a")
  {
    hide Unify, Joined, Supersedes;
    var u := Unify(one, "c", ["b"], "", origin, false);
    forall z ensures z in u.retired <==> z == "b" {
      UnifyRecords(one, "c", ["b"], "", origin, false, z, "a");
    }
    UnifyRecords(one, "c", ["b"], "", origin, false, k, "a");
    JoinedIs(u.retired, "b");
  }

  lemma RuledBack(one: Terms, d: DraftRow, round: string, w: Words)
    requires d.zh == "a" && forall k :: Supersedes(one, k, "a") <==> k == "c"
    ensures "a" in Round(one, [ReviewRow("c", "", RejectModification, "Z", "", "")], [d], round, w)
  {
    hide Round, Supersedes;
    var row := ReviewRow("c", "", RejectModification, "Z", "", "");
    assert row in [row] && Subject(row) == "c" && DoesRule(one, row);
    assert InDraft([d], "a");
    ReturnsExact(one, [row], [d], round, w, "a");
  }

  /** One rename keeps "a" out of the next round. Renaming the new name in turn, in the same call or later, or renaming
      another term into it by force, or unifying another spelling into it without `keep`, or ruling on it, brings "a"
      back. */
  lemma LaterChangeForgets(t: Term, d: DraftRow, round: string, w: Words, origin: string)
    requires d.zh == "a" && t.supersedes == ""
    ensures var was := map["a" := t, "b" := t];
      var first := EditStep(TermEdit("c", "X", "", "a"), origin, true);
      var chain := EditStep(TermEdit("d", "Y", "", "c"), origin, true);
      var forced := EditStep(TermEdit("c", "Y", "", "b"), origin, true);
      var unified := UnifyStep("c", ["b"], "", origin, false);
      && "a" !in Round(Run(was, [first], w), [], [d], round, w)
      && "a" in Round(Run(was, [first, chain], w), [], [d], round, w)
      && "a" in Round(Run(was, [first, forced], w), [], [d], round, w)
      && "a" in Round(Run(was, [first, unified], w), [], [d], round, w)
      && "a" in Round(Run(was, [first], w), [ReviewRow("c", "", RejectModification, "Z", "", "")], [d], round, w)
  {
    hide Run, Take, Round, Supersedes;
    var was := map["a" := t, "b" := t];
    var first, one := FirstRename(t, origin, w);
    RunOne(was, first, w);
    StaysOut(one, d, round, w, "c");
    OneForm('c');
    OneForm('d');
    var chain := EditStep(TermEdit("d", "Y", "", "c"), origin, true);
    var forced := EditStep(TermEdit("c", "Y", "", "b"), origin, true);
    var unified := UnifyStep("c", ["b"], "", origin, false);
    RunTwo(was, first, chain, w);
    RunTwo(was, first, forced, w);
    RunTwo(was, first, unified, w);
    forall k
      ensures !Supersedes(Take(one, chain, w), k, "a") && !Supersedes(Take(one, forced, w), k, "a")
      ensures !Supersedes(Take(one, unified, w), k, "a") {
      TakeRecords(one, chain, w, k, "a");
      TakeRecords(one, forced, w, k, "a");
      UnifiedOver(one, origin, w, k);
    }
    RuledBack(one, d, round, w);
    ComesBack(Take(one, chain, w), d, round, w);
    ComesBack(Take(one, forced, w), d, round, w);
    ComesBack(Take(one, unified, w), d, round, w);
  }
}
