/** Operator edits of a termbase: adding and renaming terms under existing rulings, and declaring source variants
    (glossary_edit.py `apply_edits`, `unify_terms`). */
module GlossaryEdit {
  import opened Text
  import opened Wrappers
  import opened GlossaryTerms

  /** `zhOld` is "" when the edit renames nothing. */
  datatype TermEdit = TermEdit(zh: string, en: string, note: string, zhOld: string)

  datatype Record = Record(zh: string, en: string, aliasOf: string)

  datatype EditResult = EditResult(
    added: seq<Record>, overwritten: seq<(Record, string)>, aliased: seq<Record>,
    retired: seq<(string, string, string)>, conflicts: seq<(Record, string, string)>, standing: seq<Record>)

  const NO_RESULT := EditResult([], [], [], [], [], [])

  /** The termbase and the report while edits are applied; `raised` once an edit had no form to apply. */
  datatype Progress = Progress(terms: Terms, result: EditResult, raised: bool)

  // -------------------------------------------------------------- alias forms

  function Split(s: string, c: char): (parts: seq<string>)
    ensures parts != []
  {
    if s == [] then [[]]
    else if s[0] == c then [[]] + Split(s[1..], c)
    else var rest := Split(s[1..], c); [[s[0]] + rest[0]] + rest[1..]
  }

  function Stripped(parts: seq<string>): (forms: seq<string>)
    ensures "" !in forms
  {
    if parts == [] then []
    else (if Strip(parts[0]) == "" then [] else [Strip(parts[0])]) + Stripped(parts[1..])
  }

  /** The spellings an edit names: the first is canonical, the rest are its aliases. */
  function Forms(zh: string): (forms: seq<string>)
    ensures "" !in forms
  {
    Stripped(Split(zh, '/'))
  }

  // --------------------------------------------------------------- apply_edits

  function RecordOf(edit: TermEdit, forms: seq<string>, i: nat): Record
    requires i < |forms|
  {
    Record(forms[i], edit.en, if i == 0 then "" else forms[0])
  }

  /** The entry an operator ruling writes over `was`, if there was one. */
  function NewEntry(edit: TermEdit, aliasOf: string, origin: string, was: Option<Term>): Term {
    Bare(edit.en, true, "operator", origin).(
      supersedesRendering := if was.Some? && !was.value.locked then was.value.translation else "",
      category := if was.Some? then was.value.category else "",
      supersedes := if edit.zhOld != "" then edit.zhOld else if was.Some? then was.value.supersedes else "",
      aliasOf := aliasOf,
      note := edit.note)
  }

  /** A ruling that says otherwise stands in the way. */
  predicate Conflicts(terms: Terms, zh: string, en: string) {
    zh in terms && terms[zh].locked && terms[zh].translation != en
  }

  function ApplyForm(p: Progress, edit: TermEdit, forms: seq<string>, i: nat, origin: string, force: bool): Progress
    requires i < |forms|
  {
    var zh, record := forms[i], RecordOf(edit, forms, i);
    if zh in p.terms && p.terms[zh].locked && p.terms[zh].translation == edit.en then
      p.(result := p.result.(standing := p.result.standing + [record]))
    else if Conflicts(p.terms, zh, edit.en) && !force then
      p.(result := p.result.(conflicts :=
        p.result.conflicts + [(record, p.terms[zh].translation, p.terms[zh].evidence)]))
    else if zh in p.terms then
      Progress(p.terms[zh := NewEntry(edit, record.aliasOf, origin, Some(p.terms[zh]))],
               p.result.(overwritten := p.result.overwritten + [(record, p.terms[zh].translation)]), p.raised)
    else
      Progress(p.terms[zh := NewEntry(edit, record.aliasOf, origin, None)],
               if i > 0 then p.result.(aliased := p.result.aliased + [record])
               else p.result.(added := p.result.added + [record]), p.raised)
  }

  function ApplyForms(p: Progress, edit: TermEdit, forms: seq<string>, n: nat, origin: string, force: bool): Progress
    requires n <= |forms|
  {
    if n == 0 then p else ApplyForm(ApplyForms(p, edit, forms, n - 1, origin, force), edit, forms, n - 1, origin, force)
  }

  /** The renamed term leaves the list, ruling or not. */
  function Retire(p: Progress, zhOld: string, newName: string): Progress {
    if zhOld == "" || zhOld !in p.terms then p
    else Progress(p.terms - {zhOld},
                  p.result.(retired := p.result.retired + [(zhOld, p.terms[zhOld].translation, newName)]), p.raised)
  }

  function ApplyEdit(p: Progress, edit: TermEdit, origin: string, force: bool): Progress {
    var forms := Forms(edit.zh);
    if p.raised then p
    else if forms == [] then p.(raised := true)
    else Retire(ApplyForms(p, edit, forms, |forms|, origin, force), edit.zhOld, forms[0])
  }

  function ApplyAll(p: Progress, edits: seq<TermEdit>, origin: string, force: bool): Progress {
    if edits == [] then p
    else ApplyEdit(ApplyAll(p, edits[..|edits| - 1], origin, force), edits[|edits| - 1], origin, force)
  }

  // --------------------------------------------------------------- unify_terms

  /** What `unify_terms` reports. */
  datatype Unified = Unified(terms: Terms, applied: seq<string>, retired: seq<string>, missing: seq<string>)

  function Head(terms: Terms, canonical: string, rendering: string, origin: string): Term {
    var t := if canonical in terms then terms[canonical] else Bare("", false, "", "");
    t.(translation := rendering, locked := true, kind := "decision", variantOf := "",
       evidence := WithEvidence(t.evidence, "canonical " + origin))
  }

  function Variant(t: Term, canonical: string, rendering: string, origin: string): Term {
    t.(translation := rendering, variantOf := canonical, locked := true, kind := "source_variant",
       evidence := WithEvidence(t.evidence, "source variant of " + canonical + " " + origin))
  }

  function UnifyOne(u: Unified, v: string, canonical: string, rendering: string, origin: string, keep: bool): Unified {
    if v == canonical then u
    else if v !in u.terms then u.(missing := u.missing + [v])
    else if keep then
      u.(terms := u.terms[v := Variant(u.terms[v], canonical, rendering, origin)], applied := u.applied + [v])
    else u.(terms := u.terms - {v}, retired := u.retired + [v])
  }

  function UnifyEach(u: Unified, vs: seq<string>, canonical: string, rendering: string, origin: string,
                     keep: bool): Unified
  {
    if vs == [] then u
    else UnifyOne(UnifyEach(u, vs[..|vs| - 1], canonical, rendering, origin, keep), vs[|vs| - 1],
                  canonical, rendering, origin, keep)
  }

  /** `", ".join`. */
  function Joined(names: seq<string>): string {
    if names == [] then "" else if |names| == 1 then names[0] else names[0] + ", " + Joined(names[1..])
  }

  /** A translation was passed, or the canonical term has one to go by. */
  predicate CanUnify(terms: Terms, canonical: string, translation: string) {
    translation != "" || canonical in terms
  }

  function Rendering(terms: Terms, canonical: string, translation: string): string
    requires CanUnify(terms, canonical, translation)
  {
    if translation != "" then translation else terms[canonical].translation
  }

  function Unify(terms: Terms, canonical: string, vs: seq<string>, translation: string, origin: string,
                 keep: bool): Unified
    requires CanUnify(terms, canonical, translation)
  {
    var rendering := Rendering(terms, canonical, translation);
    var u := UnifyEach(Unified(terms[canonical := Head(terms, canonical, rendering, origin)], [], [], []),
                       vs, canonical, rendering, origin, keep);
    if u.retired == [] || canonical !in u.terms then u
    else u.(terms := u.terms[canonical := u.terms[canonical].(supersedes := Joined(u.retired))])
  }

  class Glossary {
    var terms: Terms

    constructor (terms: Terms)
      ensures this.terms == terms
    {
      this.terms := terms;
    }

    /** `apply_edits`, on the terms in place; None when an edit names no form and `forms[0]` raises. */
    method ApplyEdits(edits: seq<TermEdit>, origin: string, force: bool) returns (result: Option<EditResult>)
      modifies this
      ensures var p := ApplyAll(Progress(old(terms), NO_RESULT, false), edits, origin, force);
        terms == p.terms && result == if p.raised then None else Some(p.result)
    {
      hide ApplyForms, Retire, Forms;
      ghost var start := Progress(terms, NO_RESULT, false);
      var report := NO_RESULT;
      for k := 0 to |edits|
        invariant Progress(terms, report, false) == ApplyAll(start, edits[..k], origin, force)
      {
        var edit := edits[k];
        assert edits[..k + 1][..k] == edits[..k] && edits[..k + 1][k] == edit;
        var forms := Forms(edit.zh);
        if forms == [] {
          assert ApplyAll(start, edits[..k + 1], origin, force).raised;
          RaisedStays(start, edits, k + 1, origin, force);
          assert edits[..|edits|] == edits;
          return None;
        }
        report := ApplyEachForm(edit, forms, origin, force, report);
        report := RetireOld(edit.zhOld, forms[0], report);
      }
      assert edits[..|edits|] == edits;
      result := Some(report);
    }

    method ApplyEachForm(edit: TermEdit, forms: seq<string>, origin: string, force: bool, was: EditResult)
      returns (report: EditResult)
      modifies this
      ensures Progress(terms, report, false)
          == ApplyForms(Progress(old(terms), was, false), edit, forms, |forms|, origin, force)
    {
      hide NewEntry;
      report := was;
      for i := 0 to |forms|
        invariant Progress(terms, report, false)
            == ApplyForms(Progress(old(terms), was, false), edit, forms, i, origin, force)
      {
        var zh := forms[i];
        var record := RecordOf(edit, forms, i);
        if zh in terms && terms[zh].locked {
          if terms[zh].translation == edit.en {
            report := report.(standing := report.standing + [record]);
            continue;
          }
          if !force {
            report := report.(conflicts := report.conflicts + [(record, terms[zh].translation, terms[zh].evidence)]);
            continue;
          }
        }
        if zh in terms {
          report := report.(overwritten := report.overwritten + [(record, terms[zh].translation)]);
          terms := terms[zh := NewEntry(edit, record.aliasOf, origin, Some(terms[zh]))];
        } else {
          if i > 0 {
            report := report.(aliased := report.aliased + [record]);
          } else {
            report := report.(added := report.added + [record]);
          }
          terms := terms[zh := NewEntry(edit, record.aliasOf, origin, None)];
        }
      }
    }

    method RetireOld(zhOld: string, newName: string, was: EditResult) returns (report: EditResult)
      modifies this
      ensures Progress(terms, report, false) == Retire(Progress(old(terms), was, false), zhOld, newName)
    {
      report := was;
      if zhOld != "" && zhOld in terms {
        report := report.(retired := report.retired + [(zhOld, terms[zhOld].translation, newName)]);
        terms := terms - {zhOld};
      }
    }

    /** `unify_terms`; None when there is no rendering to go by, and then nothing changes. */
    method UnifyTerms(canonical: string, vs: seq<string>, translation: string, origin: string, keep: bool)
      returns (summary: Option<Unified>)
      modifies this
      ensures !CanUnify(old(terms), canonical, translation) ==> summary == None && terms == old(terms)
      ensures CanUnify(old(terms), canonical, translation) ==>
        summary == Some(Unify(old(terms), canonical, vs, translation, origin, keep)) && terms == summary.value.terms
    {
      if !CanUnify(terms, canonical, translation) {
        return None;
      }
      hide Head, Variant, Joined;
      var rendering := Rendering(terms, canonical, translation);
      terms := terms[canonical := Head(terms, canonical, rendering, origin)];
      ghost var start := Unified(terms, [], [], []);
      var applied, retired, missing: seq<string> := [], [], [];
      for i := 0 to |vs|
        invariant Unified(terms, applied, retired, missing)
            == UnifyEach(start, vs[..i], canonical, rendering, origin, keep)
        invariant canonical in terms
      {
        var v := vs[i];
        assert vs[..i + 1][..i] == vs[..i] && vs[..i + 1][i] == v;
        if v == canonical {
          continue;
        }
        if v !in terms {
          missing := missing + [v];
        } else if keep {
          terms := terms[v := Variant(terms[v], canonical, rendering, origin)];
          applied := applied + [v];
        } else {
          terms := terms - {v};
          retired := retired + [v];
        }
      }
      assert vs[..|vs|] == vs;
      if retired != [] {
        terms := terms[canonical := terms[canonical].(supersedes := Joined(retired))];
      }
      summary := Some(Unified(terms, applied, retired, missing));
    }
  }

  lemma {:induction false} RaisedStays(p: Progress, edits: seq<TermEdit>, k: nat, origin: string, force: bool)
    requires k <= |edits| && ApplyAll(p, edits[..k], origin, force).raised
    ensures ApplyAll(p, edits, origin, force) == ApplyAll(p, edits[..k], origin, force)
  {
    if k == |edits| {
      assert edits[..k] == edits;
    } else {
      var rest := edits[..|edits| - 1];
      assert rest[..k] == edits[..k];
      RaisedStays(p, rest, k, origin, force);
    }
  }

  // ---------------------------------------------------------- rulings survive

  /** The ruling still holds, or the report says it was retired, and what it said. */
  ghost predicate Accounted(p: Progress, zh: string, ruling: string) {
    Rules(p.terms, zh, ruling) || RetiredAs(p.result.retired, zh, ruling)
  }

  ghost predicate RetiredAs(retired: seq<(string, string, string)>, zh: string, ruling: string) {
    exists i :: 0 <= i < |retired| && retired[i].0 == zh && retired[i].1 == ruling
  }

  lemma FormAccounts(p: Progress, edit: TermEdit, forms: seq<string>, i: nat, origin: string, zh: string,
                     ruling: string)
    requires i < |forms| && Accounted(p, zh, ruling)
    ensures Accounted(ApplyForm(p, edit, forms, i, origin, false), zh, ruling)
  {
  }

  lemma {:induction false} FormsAccount(p: Progress, edit: TermEdit, forms: seq<string>, n: nat, origin: string,
                                        zh: string, ruling: string)
    requires n <= |forms| && Accounted(p, zh, ruling)
    ensures Accounted(ApplyForms(p, edit, forms, n, origin, false), zh, ruling)
  {
    hide ApplyForm, Accounted;
    if n > 0 {
      FormsAccount(p, edit, forms, n - 1, origin, zh, ruling);
      FormAccounts(ApplyForms(p, edit, forms, n - 1, origin, false), edit, forms, n - 1, origin, zh, ruling);
    }
  }

  lemma RetireAccounts(p: Progress, zhOld: string, newName: string, zh: string, ruling: string)
    requires Accounted(p, zh, ruling)
    ensures Accounted(Retire(p, zhOld, newName), zh, ruling)
  {
    var q, was := Retire(p, zhOld, newName), p.result.retired;
    if RetiredAs(was, zh, ruling) {
      var i :| 0 <= i < |was| && was[i].0 == zh && was[i].1 == ruling;
      assert q.result.retired[i] == was[i];
    } else if zh == zhOld && zh != "" {
      assert q.result.retired[|was|] == (zh, ruling, newName);
    }
  }

  /** Without `force`, a ruling keeps its translation through any edits, or is listed as retired with the
      translation it had. */
  lemma {:induction false} RulingsSurvive(p: Progress, edits: seq<TermEdit>, origin: string, zh: string, ruling: string)
    requires Accounted(p, zh, ruling)
    ensures Accounted(ApplyAll(p, edits, origin, false), zh, ruling)
  {
    if edits != [] {
      hide Accounted, ApplyForms, Retire, Forms;
      var q, edit := ApplyAll(p, edits[..|edits| - 1], origin, false), edits[|edits| - 1];
      var forms := Forms(edit.zh);
      RulingsSurvive(p, edits[..|edits| - 1], origin, zh, ruling);
      AccountedIgnoresRaise(q, zh, ruling);
      FormsAccount(q, edit, forms, |forms|, origin, zh, ruling);
      if forms != [] {
        RetireAccounts(ApplyForms(q, edit, forms, |forms|, origin, false), edit.zhOld, forms[0], zh, ruling);
      }
    }
  }

  lemma AccountedIgnoresRaise(p: Progress, zh: string, ruling: string)
    ensures Accounted(p.(raised := true), zh, ruling) == Accounted(p, zh, ruling)
  {
  }

  /** Only a rename retires: every retired name is the old name of one of the edits. */
  lemma {:induction false} OnlyRenamesRetire(p: Progress, edits: seq<TermEdit>, origin: string, force: bool,
                                             r: (string, string, string))
    requires r in ApplyAll(p, edits, origin, force).result.retired
    ensures r in p.result.retired || exists e :: e in edits && e.zhOld == r.0
  {
    if edits != [] {
      hide ApplyForms, Forms;
      var q, edit := ApplyAll(p, edits[..|edits| - 1], origin, force), edits[|edits| - 1];
      var forms := Forms(edit.zh);
      FormsRetireNone(q, edit, forms, |forms|, origin, force);
      assert edit in edits;
      if r in q.result.retired {
        OnlyRenamesRetire(p, edits[..|edits| - 1], origin, force, r);
      }
    }
  }

  lemma {:induction false} FormsRetireNone(p: Progress, edit: TermEdit, forms: seq<string>, n: nat, origin: string,
                                           force: bool)
    requires n <= |forms|
    ensures ApplyForms(p, edit, forms, n, origin, force).result.retired == p.result.retired
  {
    hide NewEntry;
    if n > 0 {
      FormsRetireNone(p, edit, forms, n - 1, origin, force);
    }
  }

  // ------------------------------------------------------ every form is reported

  function Heads<A>(s: seq<(Record, A)>): multiset<Record> {
    if s == [] then multiset{} else Heads(s[..|s| - 1]) + multiset{s[|s| - 1].0}
  }

  function Heads3(s: seq<(Record, string, string)>): multiset<Record> {
    if s == [] then multiset{} else Heads3(s[..|s| - 1]) + multiset{s[|s| - 1].0}
  }

  /** All records of the report but the retired names. */
  function RecordsIn(r: EditResult): multiset<Record> {
    multiset(r.added) + multiset(r.aliased) + multiset(r.standing) + Heads(r.overwritten) + Heads3(r.conflicts)
  }

  lemma ReportsRecord(r: EditResult, x: Record)
    ensures RecordsIn(r.(added := r.added + [x])) == RecordsIn(r) + multiset{x}
    ensures RecordsIn(r.(aliased := r.aliased + [x])) == RecordsIn(r) + multiset{x}
    ensures RecordsIn(r.(standing := r.standing + [x])) == RecordsIn(r) + multiset{x}
  {
    hide Heads, Heads3;
  }

  lemma ReportsMore(r: EditResult, x: Record, a: string, b: string)
    ensures RecordsIn(r.(overwritten := r.overwritten + [(x, a)])) == RecordsIn(r) + multiset{x}
    ensures RecordsIn(r.(conflicts := r.conflicts + [(x, a, b)])) == RecordsIn(r) + multiset{x}
  {
  }

  lemma FormReported(p: Progress, edit: TermEdit, forms: seq<string>, i: nat, origin: string, force: bool)
    requires i < |forms|
    ensures RecordsIn(ApplyForm(p, edit, forms, i, origin, force).result)
         == RecordsIn(p.result) + multiset{RecordOf(edit, forms, i)}
  {
    hide NewEntry, RecordOf, RecordsIn;
    var zh, x := forms[i], RecordOf(edit, forms, i);
    ReportsRecord(p.result, x);
    if zh in p.terms {
      ReportsMore(p.result, x, p.terms[zh].translation, p.terms[zh].evidence);
    }
  }

  function RecordsOf(edit: TermEdit, forms: seq<string>, n: nat): multiset<Record>
    requires n <= |forms|
  {
    if n == 0 then multiset{} else RecordsOf(edit, forms, n - 1) + multiset{RecordOf(edit, forms, n - 1)}
  }

  function AllRecords(edits: seq<TermEdit>): multiset<Record> {
    if edits == [] then multiset{}
    else
      var edit := edits[|edits| - 1];
      AllRecords(edits[..|edits| - 1]) + RecordsOf(edit, Forms(edit.zh), |Forms(edit.zh)|)
  }

  lemma {:induction false} FormsReported(p: Progress, edit: TermEdit, forms: seq<string>, n: nat, origin: string,
                                         force: bool)
    requires n <= |forms|
    ensures RecordsIn(ApplyForms(p, edit, forms, n, origin, force).result)
        == RecordsIn(p.result) + RecordsOf(edit, forms, n)
  {
    hide ApplyForm, RecordsIn, RecordOf;
    if n > 0 {
      FormsReported(p, edit, forms, n - 1, origin, force);
      FormReported(ApplyForms(p, edit, forms, n - 1, origin, force), edit, forms, n - 1, origin, force);
    }
  }

  /** Every form of every edit is in exactly one of the five lists, once. */
  lemma {:induction false} EveryFormReported(p: Progress, edits: seq<TermEdit>, origin: string, force: bool)
    requires !ApplyAll(p, edits, origin, force).raised
    ensures RecordsIn(ApplyAll(p, edits, origin, force).result) == RecordsIn(p.result) + AllRecords(edits)
  {
    hide ApplyForms, Forms, RecordsOf, Retire, RecordsIn;
    if edits != [] {
      var q, edit := ApplyAll(p, edits[..|edits| - 1], origin, force), edits[|edits| - 1];
      var forms := Forms(edit.zh);
      EveryFormReported(p, edits[..|edits| - 1], origin, force);
      FormsReported(q, edit, forms, |forms|, origin, force);
      RetireReports(ApplyForms(q, edit, forms, |forms|, origin, force), edit.zhOld, forms[0]);
    }
  }

  lemma RetireReports(p: Progress, zhOld: string, newName: string)
    ensures RecordsIn(Retire(p, zhOld, newName).result) == RecordsIn(p.result)
  {
  }

  // -------------------------------------------------- what one edit does, exactly

  /** A form is written unless a ruling already says so, or says otherwise and is not forced. */
  predicate Writes(terms: Terms, zh: string, en: string, force: bool) {
    !(zh in terms && terms[zh].locked && (terms[zh].translation == en || !force))
  }

  /** The old spelling an entry is on record for; "" when there is none. */
  function OldSpelling(terms: Terms, zh: string): string {
    if zh in terms then terms[zh].supersedes else ""
  }

  /** The terms after some of an edit's forms: what is written is a ruling that records the rename, or keeps what was
      recorded when the edit renames nothing; everything else is as before. */
  ghost predicate EditSettled(was: Terms, now: Terms, done: seq<string>, edit: TermEdit, force: bool, zh: string) {
    if zh in done && Writes(was, zh, edit.en, force) then
      && Rules(now, zh, edit.en)
      && now[zh].supersedes == if edit.zhOld != "" then edit.zhOld else OldSpelling(was, zh)
    else (zh in now <==> zh in was) && (zh in was ==> now[zh] == was[zh])
  }

  /** One form, term by term. */
  lemma FormWrites(p: Progress, edit: TermEdit, forms: seq<string>, i: nat, origin: string, force: bool, zh: string)
    requires i < |forms|
    ensures EditSettled(p.terms, ApplyForm(p, edit, forms, i, origin, force).terms, [forms[i]], edit, force, zh)
  {
    hide RecordOf;
  }

  lemma FormSettles(was: Terms, p: Progress, edit: TermEdit, forms: seq<string>, i: nat, origin: string, force: bool,
                    zh: string)
    requires i < |forms| && EditSettled(was, p.terms, forms[..i], edit, force, zh)
    ensures EditSettled(was, ApplyForm(p, edit, forms, i, origin, force).terms, forms[..i + 1], edit, force, zh)
  {
    hide ApplyForm;
    FormWrites(p, edit, forms, i, origin, force, zh);
    assert forms[..i + 1] == forms[..i] + [forms[i]];
  }

  lemma {:induction false} FormsSettle(p: Progress, edit: TermEdit, forms: seq<string>, n: nat, origin: string,
                                       force: bool, zh: string)
    requires n <= |forms|
    ensures EditSettled(p.terms, ApplyForms(p, edit, forms, n, origin, force).terms, forms[..n], edit, force, zh)
  {
    if n > 0 {
      hide ApplyForm, EditSettled;
      FormsSettle(p, edit, forms, n - 1, origin, force, zh);
      FormSettles(p.terms, ApplyForms(p, edit, forms, n - 1, origin, force), edit, forms, n - 1, origin, force, zh);
    }
  }

  /** One edit, term by term: each form it writes is a ruling that records the rename, in place of whatever that
      entry was on record for, or keeps its record when the edit renames nothing; the renamed term is gone, even when
      it is one of the forms; every other entry stays as it was. */
  lemma EditExact(p: Progress, edit: TermEdit, origin: string, force: bool, zh: string)
    requires !p.raised && Forms(edit.zh) != []
    ensures var t := ApplyEdit(p, edit, origin, force).terms;
      if edit.zhOld != "" && zh == edit.zhOld then zh !in t
      else EditSettled(p.terms, t, Forms(edit.zh), edit, force, zh)
  {
    hide ApplyForms, Writes, Forms;
    var forms := Forms(edit.zh);
    FormsSettle(p, edit, forms, |forms|, origin, force, zh);
    assert forms[..|forms|] == forms;
  }

  // -------------------------------------------------------- a unified group

  /** Keeping the variants, only they change: each takes the rendering and points at the canonical term. */
  lemma {:induction false} VariantsPoint(u: Unified, vs: seq<string>, canonical: string, rendering: string,
                                         origin: string, z: string)
    ensures var t := UnifyEach(u, vs, canonical, rendering, origin, true).terms;
      && (z in t <==> z in u.terms)
      && (z in t && z in vs && z != canonical ==>
            Rules(t, z, rendering) && t[z].variantOf == canonical)
      && (z in t && (z !in vs || z == canonical) ==> t[z] == u.terms[z])
  {
    if vs != [] {
      hide Variant;
      var rest := vs[..|vs| - 1];
      VariantsPoint(u, rest, canonical, rendering, origin, z);
      assert vs == rest + [vs[|vs| - 1]];
      VariantIs(UnifyEach(u, rest, canonical, rendering, origin, true).terms, vs[|vs| - 1], canonical, rendering,
          origin);
    }
  }

  lemma VariantIs(terms: Terms, v: string, canonical: string, rendering: string, origin: string)
    ensures v in terms ==> var t := Variant(terms[v], canonical, rendering, origin);
      t.locked && t.translation == rendering && t.variantOf == canonical
  {
  }

  lemma {:induction false} KeepRetiresNone(u: Unified, vs: seq<string>, canonical: string, rendering: string,
                                           origin: string)
    ensures UnifyEach(u, vs, canonical, rendering, origin, true).retired == u.retired
  {
    hide Variant;
    if vs != [] {
      KeepRetiresNone(u, vs[..|vs| - 1], canonical, rendering, origin);
    }
  }

  /** `unify_terms` that keeps its variants, entry by entry. */
  lemma UnifyExact(terms: Terms, canonical: string, vs: seq<string>, translation: string, origin: string, z: string)
    requires CanUnify(terms, canonical, translation)
    ensures
      var t := Unify(terms, canonical, vs, translation, origin, true).terms;
      var r := Rendering(terms, canonical, translation);
      && (z in t <==> z in terms || z == canonical)
      && (z in t && z == canonical ==> Rules(t, z, r) && t[z].variantOf == "")
      && (z in t && z != canonical && z in vs ==> Rules(t, z, r) && t[z].variantOf == canonical)
      && (z in t && z != canonical && z !in vs ==> t[z] == terms[z])
  {
    hide UnifyEach, Rendering;
    var r := Rendering(terms, canonical, translation);
    var u := Unified(terms[canonical := Head(terms, canonical, r, origin)], [], [], []);
    VariantsPoint(u, vs, canonical, r, origin, z);
    KeepRetiresNone(u, vs, canonical, r, origin);
  }
}
