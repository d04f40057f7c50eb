/** The report of an operator edit: which of its lists every form of every edit is in, by the entry the form meets
    (glossary_edit.py `apply_edits`). */
module GlossaryReport {
  import opened Text
  import opened Wrappers
  import opened GlossaryTerms
  import opened GlossaryEdit

  /** One line of the report. */
  datatype Line =
    | Standing(record: Record)
    | Conflicting(record: Record, ruling: string, evidence: string)
    | Overwritten(record: Record, was: string)
    | Added(record: Record)
    | Aliased(record: Record)

  /** What the report says of form i of an edit, by the terms the edit starts from: a form named twice meets, the second
      time, what the first wrote. */
  function LineOf(terms: Terms, edit: TermEdit, forms: seq<string>, i: nat, force: bool): Line
    requires i < |forms|
  {
    var zh, record := forms[i], Record(forms[i], edit.en, if i == 0 then "" else forms[0]);
    if zh in terms && terms[zh].locked && terms[zh].translation == edit.en then Standing(record)
    else if zh in terms && terms[zh].locked && !force then
      Conflicting(record, terms[zh].translation, terms[zh].evidence)
    else if zh in forms[..i] then Standing(record)
    else if zh in terms then Overwritten(record, terms[zh].translation)
    else if i == 0 then Added(record)
    else Aliased(record)
  }

  function LinesOf(terms: Terms, edit: TermEdit, forms: seq<string>, n: nat, force: bool): (ls: seq<Line>)
    requires n <= |forms|
    ensures |ls| == n && forall i :: 0 <= i < n ==> ls[i] == LineOf(terms, edit, forms, i, force)
  {
    seq(n, i requires 0 <= i < n => LineOf(terms, edit, forms, i, force))
  }

  /** The terms before edit k. */
  function TermsAt(p: Progress, edits: seq<TermEdit>, k: nat, origin: string, force: bool): Terms
    requires k <= |edits|
  {
    ApplyAll(p, edits[..k], origin, force).terms
  }

  /** The lines of all forms of the first k edits, in order. */
  function AllLines(p: Progress, edits: seq<TermEdit>, k: nat, origin: string, force: bool): seq<Line>
    requires k <= |edits|
  {
    if k == 0 then []
    else
      var edit := edits[k - 1];
      var forms := Forms(edit.zh);
      AllLines(p, edits, k - 1, origin, force)
      + LinesOf(TermsAt(p, edits, k - 1, origin, force), edit, forms, |forms|, force)
  }

  function Standings(ls: seq<Line>): seq<Record> {
    if ls == [] then []
    else Standings(ls[..|ls| - 1]) + var l := ls[|ls| - 1]; if l.Standing? then [l.record] else []
  }

  function Conflictings(ls: seq<Line>): seq<(Record, string, string)> {
    if ls == [] then []
    else Conflictings(ls[..|ls| - 1])
         + var l := ls[|ls| - 1]; if l.Conflicting? then [(l.record, l.ruling, l.evidence)] else []
  }

  function Overwrittens(ls: seq<Line>): seq<(Record, string)> {
    if ls == [] then []
    else Overwrittens(ls[..|ls| - 1]) + var l := ls[|ls| - 1]; if l.Overwritten? then [(l.record, l.was)] else []
  }

  function Addeds(ls: seq<Line>): seq<Record> {
    if ls == [] then []
    else Addeds(ls[..|ls| - 1]) + var l := ls[|ls| - 1]; if l.Added? then [l.record] else []
  }

  function Aliaseds(ls: seq<Line>): seq<Record> {
    if ls == [] then []
    else Aliaseds(ls[..|ls| - 1]) + var l := ls[|ls| - 1]; if l.Aliased? then [l.record] else []
  }

  /** The five lists of a report, with some lines added. */
  ghost predicate Reports(was: EditResult, now: EditResult, ls: seq<Line>) {
    && now.standing == was.standing + Standings(ls)
    && now.conflicts == was.conflicts + Conflictings(ls)
    && now.overwritten == was.overwritten + Overwrittens(ls)
    && now.added == was.added + Addeds(ls)
    && now.aliased == was.aliased + Aliaseds(ls)
  }

  /** One line more. */
  function With(r: EditResult, l: Line): EditResult {
    match l
    case Standing(record) => r.(standing := r.standing + [record])
    case Conflicting(record, ruling, evidence) => r.(conflicts := r.conflicts + [(record, ruling, evidence)])
    case Overwritten(record, was) => r.(overwritten := r.overwritten + [(record, was)])
    case Added(record) => r.(added := r.added + [record])
    case Aliased(record) => r.(aliased := r.aliased + [record])
  }

  lemma ReportsOne(was: EditResult, now: EditResult, ls: seq<Line>, l: Line)
    requires Reports(was, now, ls)
    ensures Reports(was, With(now, l), ls + [l])
  {
    assert (ls + [l])[..|ls|] == ls && (ls + [l])[|ls|] == l;
  }

  lemma ReportsNone(r: EditResult)
    ensures Reports(r, r, [])
  {
  }

  /** A form is reported by the entry it meets. */
  lemma FormLine(was: Terms, p: Progress, edit: TermEdit, forms: seq<string>, i: nat, origin: string, force: bool)
    requires i < |forms| && EditSettled(was, p.terms, forms[..i], edit, force, forms[i])
    ensures ApplyForm(p, edit, forms, i, origin, force).result == With(p.result, LineOf(was, edit, forms, i, force))
  {
    hide NewEntry;
  }

  lemma {:induction false} FormsLines(p: Progress, edit: TermEdit, forms: seq<string>, n: nat, origin: string,
                                      force: bool, was: EditResult, before: seq<Line>)
    requires n <= |forms| && Reports(was, p.result, before)
    ensures Reports(was, ApplyForms(p, edit, forms, n, origin, force).result,
                    before + LinesOf(p.terms, edit, forms, n, force))
  {
    hide ApplyForm, Reports, With, LineOf, EditSettled;
    if n == 0 {
      assert before + LinesOf(p.terms, edit, forms, 0, force) == before;
    } else {
      var q := ApplyForms(p, edit, forms, n - 1, origin, force);
      var ls := before + LinesOf(p.terms, edit, forms, n - 1, force);
      var l := LineOf(p.terms, edit, forms, n - 1, force);
      FormsLines(p, edit, forms, n - 1, origin, force, was, before);
      FormsSettle(p, edit, forms, n - 1, origin, force, forms[n - 1]);
      FormLine(p.terms, q, edit, forms, n - 1, origin, force);
      ReportsOne(was, q.result, ls, l);
      assert ls + [l] == before + LinesOf(p.terms, edit, forms, n, force);
    }
  }

  lemma RetireKeepsLines(was: EditResult, p: Progress, zhOld: string, newName: string, ls: seq<Line>)
    ensures Reports(was, Retire(p, zhOld, newName).result, ls) == Reports(was, p.result, ls)
  {
  }

  lemma {:induction false} EditsLines(p: Progress, edits: seq<TermEdit>, k: nat, origin: string, force: bool)
    requires k <= |edits| && !ApplyAll(p, edits[..k], origin, force).raised
    ensures Reports(p.result, ApplyAll(p, edits[..k], origin, force).result, AllLines(p, edits, k, origin, force))
  {
    hide ApplyForms, Forms, Reports, Retire;
    if k == 0 {
      ReportsNone(p.result);
    } else {
      var edit := edits[k - 1];
      var forms := Forms(edit.zh);
      var q := ApplyAll(p, edits[..k - 1], origin, force);
      assert edits[..k][..k - 1] == edits[..k - 1] && edits[..k][k - 1] == edit;
      EditsLines(p, edits, k - 1, origin, force);
      FormsLines(q, edit, forms, |forms|, origin, force, p.result, AllLines(p, edits, k - 1, origin, force));
      RetireKeepsLines(p.result, ApplyForms(q, edit, forms, |forms|, origin, force), edit.zhOld, forms[0],
                       AllLines(p, edits, k, origin, force));
    }
  }

  /** The five lists are the forms of all edits, in order, each in the one list its entry calls for: unchanged when it
      meets a ruling that says the same, a conflict when the ruling says otherwise and is not forced, overwritten when
      it meets any other entry, and added or aliased when it meets none. */
  lemma ReportExact(p: Progress, edits: seq<TermEdit>, origin: string, force: bool)
    requires !ApplyAll(p, edits, origin, force).raised
    ensures Reports(p.result, ApplyAll(p, edits, origin, force).result, AllLines(p, edits, |edits|, origin, force))
  {
    assert edits[..|edits|] == edits;
    EditsLines(p, edits, |edits|, origin, force);
  }

  // ------------------------------------------------------------ retired names

  /** The translation under which the old name of a rename leaves the list: what the edit itself wrote, when the old
      name is one of its forms, else what the list had. */
  function LeavesAs(terms: Terms, edit: TermEdit, forms: seq<string>, force: bool): seq<(string, string, string)>
    requires forms != []
  {
    if edit.zhOld == "" then []
    else if edit.zhOld in forms && Writes(terms, edit.zhOld, edit.en, force) then [(edit.zhOld, edit.en, forms[0])]
    else if edit.zhOld in terms then [(edit.zhOld, terms[edit.zhOld].translation, forms[0])]
    else []
  }

  function AllLeaving(p: Progress, edits: seq<TermEdit>, k: nat, origin: string, force: bool)
    : seq<(string, string, string)>
    requires k <= |edits|
  {
    if k == 0 then []
    else
      var edit := edits[k - 1];
      AllLeaving(p, edits, k - 1, origin, force)
      + if Forms(edit.zh) == [] then []
        else LeavesAs(TermsAt(p, edits, k - 1, origin, force), edit, Forms(edit.zh), force)
  }

  lemma RetiresOne(p: Progress, edit: TermEdit, origin: string, force: bool)
    requires !p.raised && Forms(edit.zh) != []
    ensures ApplyEdit(p, edit, origin, force).result.retired
         == p.result.retired + LeavesAs(p.terms, edit, Forms(edit.zh), force)
  {
    hide ApplyForms, Forms, Writes;
    var forms := Forms(edit.zh);
    FormsRetireNone(p, edit, forms, |forms|, origin, force);
    FormsSettle(p, edit, forms, |forms|, origin, force, edit.zhOld);
    assert forms[..|forms|] == forms;
  }

  lemma {:induction false} EditsRetire(p: Progress, edits: seq<TermEdit>, k: nat, origin: string, force: bool)
    requires k <= |edits| && !ApplyAll(p, edits[..k], origin, force).raised
    ensures ApplyAll(p, edits[..k], origin, force).result.retired
         == p.result.retired + AllLeaving(p, edits, k, origin, force)
  {
    hide Forms, LeavesAs, ApplyForms, Retire;
    if k > 0 {
      var q := ApplyAll(p, edits[..k - 1], origin, force);
      assert edits[..k][..k - 1] == edits[..k - 1] && edits[..k][k - 1] == edits[k - 1];
      EditsRetire(p, edits, k - 1, origin, force);
      RetiresOne(q, edits[k - 1], origin, force);
    }
  }

  /** The retired list is the old names that were there, in edit order, each with the translation it had when it left
      and the canonical form that took its place. */
  lemma RetiredExact(p: Progress, edits: seq<TermEdit>, origin: string, force: bool)
    requires !ApplyAll(p, edits, origin, force).raised
    ensures ApplyAll(p, edits, origin, force).result.retired
         == p.result.retired + AllLeaving(p, edits, |edits|, origin, force)
  {
    assert edits[..|edits|] == edits;
    EditsRetire(p, edits, |edits|, origin, force);
  }

  // ------------------------------------------------------- what a form becomes

  function FirstAt(forms: seq<string>, zh: string): (i: nat)
    requires zh in forms
    ensures i < |forms| && forms[i] == zh && zh !in forms[..i]
  {
    if forms[0] == zh then 0 else 1 + FirstAt(forms[1..], zh)
  }

  /** The canonical form an alias points at; "" for the canonical form itself. */
  function CanonicalOf(forms: seq<string>, zh: string): string
    requires zh in forms
  {
    if FirstAt(forms, zh) == 0 then "" else forms[0]
  }

  /** Every field of the entry a form gets. */
  ghost predicate IsRuling(was: Terms, now: Terms, edit: TermEdit, alias: string, origin: string, zh: string) {
    && zh in now
    && now[zh].translation == edit.en && now[zh].locked && now[zh].kind == "operator" && now[zh].evidence == origin
    && now[zh].note == edit.note && now[zh].variantOf == now[zh].check == ""
    && now[zh].aliasOf == alias
    && now[zh].supersedes == (if edit.zhOld != "" then edit.zhOld else OldSpelling(was, zh))
    && now[zh].category == (if zh in was then was[zh].category else "")
    && now[zh].supersedesRendering == if zh in was && !was[zh].locked then was[zh].translation else ""
  }

  lemma FormEntry(was: Terms, p: Progress, edit: TermEdit, forms: seq<string>, i: nat, origin: string, force: bool)
    requires i < |forms| && forms[i] !in forms[..i] && Writes(was, forms[i], edit.en, force)
    requires (forms[i] in p.terms <==> forms[i] in was) && (forms[i] in was ==> p.terms[forms[i]] == was[forms[i]])
    ensures IsRuling(was, ApplyForm(p, edit, forms, i, origin, force).terms, edit, if i == 0 then "" else forms[0],
                     origin, forms[i])
  {
    var t := ApplyForm(p, edit, forms, i, origin, force).terms;
    var met := if forms[i] in p.terms then Some(p.terms[forms[i]]) else None;
    assert t[forms[i]] == NewEntry(edit, if i == 0 then "" else forms[0], origin, met);
    hide ApplyForm, Writes;
  }

  lemma OtherForm(p: Progress, edit: TermEdit, forms: seq<string>, i: nat, origin: string, force: bool, zh: string)
    requires i < |forms| && zh in p.terms
    requires forms[i] != zh || (p.terms[zh].locked && p.terms[zh].translation == edit.en)
    ensures var t := ApplyForm(p, edit, forms, i, origin, force).terms; zh in t && t[zh] == p.terms[zh]
  {
    hide NewEntry;
  }

  lemma {:induction false} FormsEntry(p: Progress, edit: TermEdit, forms: seq<string>, n: nat, origin: string,
                                      force: bool, zh: string)
    requires n <= |forms| && zh in forms && FirstAt(forms, zh) < n && Writes(p.terms, zh, edit.en, force)
    ensures IsRuling(p.terms, ApplyForms(p, edit, forms, n, origin, force).terms, edit, CanonicalOf(forms, zh),
                     origin, zh)
  {
    hide ApplyForm, Writes, EditSettled;
    var q, i := ApplyForms(p, edit, forms, n - 1, origin, force), FirstAt(forms, zh);
    if i == n - 1 {
      FormsSettle(p, edit, forms, n - 1, origin, force, zh);
      Unsettled(p.terms, q.terms, forms[..n - 1], edit, force, zh);
      FormEntry(p.terms, q, edit, forms, i, origin, force);
    } else {
      FormsEntry(p, edit, forms, n - 1, origin, force, zh);
      OtherForm(q, edit, forms, n - 1, origin, force, zh);
    }
  }

  lemma Unsettled(was: Terms, now: Terms, done: seq<string>, edit: TermEdit, force: bool, zh: string)
    requires zh !in done && EditSettled(was, now, done, edit, force, zh)
    ensures (zh in now <==> zh in was) && (zh in was ==> now[zh] == was[zh])
  {
  }

  /** The entry an edit writes, field by field. */
  lemma RulingExact(p: Progress, edit: TermEdit, origin: string, force: bool, zh: string)
    requires !p.raised && zh in Forms(edit.zh) && zh != edit.zhOld && Writes(p.terms, zh, edit.en, force)
    ensures IsRuling(p.terms, ApplyEdit(p, edit, origin, force).terms, edit, CanonicalOf(Forms(edit.zh), zh),
                     origin, zh)
  {
    hide ApplyForms, Forms, Writes;
    var forms := Forms(edit.zh);
    FormsEntry(p, edit, forms, |forms|, origin, force, zh);
  }

  // ------------------------------------------------------------ the forms of an edit

  /** The parts with slashes between them. */
  function Slashed(parts: seq<string>): string {
    if parts == [] then [] else if |parts| == 1 then parts[0] else parts[0] + "/" + Slashed(parts[1..])
  }

  /** The parts without the blanks around them, but for those that are nothing else. */
  function Trimmed(parts: seq<string>): seq<string> {
    if parts == [] then []
    else Trimmed(parts[..|parts| - 1])
         + var form := Strip(parts[|parts| - 1]); if form == "" then [] else [form]
  }

  lemma {:induction false} SplitPart(part: string, rest: string)
    requires '/' !in part
    ensures Split(part, '/') == [part]
    ensures Split(part + "/" + rest, '/') == [part] + Split(rest, '/')
  {
    if part == [] {
      assert ([] + "/" + rest)[1..] == rest;
    } else {
      assert part[0] in part && forall c :: c in part[1..] ==> c in part;
      SplitPart(part[1..], rest);
      assert (part + "/" + rest)[1..] == part[1..] + "/" + rest;
      assert [part[0]] + part[1..] == part && ([part[1..]] + Split(rest, '/'))[1..] == Split(rest, '/');
    }
  }

  lemma {:induction false} SplitSlashed(parts: seq<string>)
    requires parts != [] && forall p :: p in parts ==> '/' !in p
    ensures Split(Slashed(parts), '/') == parts
  {
    assert '/' !in parts[0];
    SplitPart(parts[0], if |parts| == 1 then [] else Slashed(parts[1..]));
    if |parts| > 1 {
      SplitSlashed(parts[1..]);
    }
  }

  lemma {:induction false} StrippedConcat(a: seq<string>, b: seq<string>)
    ensures Stripped(a + b) == Stripped(a) + Stripped(b)
  {
    hide Strip;
    if a == [] {
      assert a + b == b;
    } else {
      assert (a + b)[1..] == a[1..] + b;
      StrippedConcat(a[1..], b);
    }
  }

  lemma {:induction false} StrippedIsTrimmed(parts: seq<string>)
    ensures Stripped(parts) == Trimmed(parts)
  {
    hide Strip;
    if parts != [] {
      var rest, p := parts[..|parts| - 1], parts[|parts| - 1];
      assert parts == rest + [p];
      StrippedIsTrimmed(rest);
      StrippedConcat(rest, [p]);
      assert [p][1..] == [] && Stripped([]) == [];
    }
  }

  /** An edit names the parts between its slashes, in order, blanks around them aside; empty parts are no forms. */
  lemma FormsExact(parts: seq<string>)
    requires parts != [] && forall p :: p in parts ==> '/' !in p
    ensures Forms(Slashed(parts)) == Trimmed(parts)
  {
    SplitSlashed(parts);
    StrippedIsTrimmed(parts);
  }
}
