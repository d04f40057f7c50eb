/** The entries a merge round and a unification write, field by field, and what a unification reports (glossary_merge.py
    `merge_round`; glossary_edit.py `unify_terms`). */
module GlossaryEntries {
  import opened Wrappers
  import opened Grouping
  import opened GlossaryTerms
  import opened GlossaryEdit
  import opened GlossaryMerge
  import opened GlossaryRename

  // ----------------------------------------------------------------- evidence

  predicate IsMarks(s: string) {
    forall c :: c in s ==> c == ';' || c == ' '
  }

  /** A remark is put behind the evidence and a semicolon; leading semicolons and blanks go. */
  lemma EvidenceExact(evidence: string, remark: string) returns (marks: string)
    ensures IsMarks(marks) && marks + WithEvidence(evidence, remark) == evidence + "; " + remark
    ensures var e := WithEvidence(evidence, remark); e != [] ==> e[0] != ';' && e[0] != ' '
  {
    marks := MarksOf(evidence + "; " + remark);
  }

  lemma {:induction false} MarksOf(s: string) returns (marks: string)
    ensures IsMarks(marks) && marks + StripMarks(s) == s
    ensures StripMarks(s) != [] ==> StripMarks(s)[0] != ';' && StripMarks(s)[0] != ' '
  {
    if s != [] && (s[0] == ';' || s[0] == ' ') {
      var rest := MarksOf(s[1..]);
      marks := [s[0]] + rest;
      assert s == [s[0]] + s[1..];
    } else {
      marks := [];
    }
  }

  // ------------------------------------------------------------ review decisions

  /** The terms after one review row: a modification and an accepted rendering each replace the whole entry, keeping
      as-is leaves a remark, and everything else changes nothing. */
  lemma DecideExact(r: Reviewed, row: ReviewRow, round: string, w: Words)
    ensures var zh := if row.source != "" then row.source else row.termId;
      var current := if zh in r.terms then r.terms[zh].translation else "";
      var accepted := if row.suggested != "" then row.suggested else current;
      Decide(r, row, round, w).terms ==
        if zh == "" then r.terms
        else if row.decision.RejectModification? && row.modification != "" then
          r.terms[zh := Bare(row.modification, true, "decision", "PE review " + round).(note := row.note)]
        else if row.decision.AcceptSuggested? && accepted != "" then
          r.terms[zh := Bare(w.base(accepted), true, "decision", "PE review " + round)]
        else if row.decision.RejectKeep? && zh in r.terms then
          r.terms[zh := r.terms[zh].(evidence := r.terms[zh].evidence + "; kept as-is " + round)]
        else r.terms
  {
  }

  // ------------------------------------------------------------------ draft rows

  /** What a draft row makes of an entry that is there and renders the same. */
  ghost predicate AgreesOn(hit: Term, now: Term, d: DraftRow) {
    && now.evidence == WithEvidence(hit.evidence, "draft agrees")
    && now.category == (if hit.category != "" then hit.category else d.category)
    && now == hit.(evidence := now.evidence, category := now.category)
  }

  /** What a confirmed row makes of an unlocked one that renders otherwise. */
  ghost predicate OverrulesIn(hit: Term, now: Term, d: DraftRow, w: Words) {
    && now.translation == d.en && now.kind == "draft"
    && now.check == "corpus drift: game renders as " + w.repr(hit.translation)
    && now.category == (if d.category == "" then hit.category else d.category)
    && now == hit.(translation := now.translation, kind := now.kind, check := now.check, category := now.category)
  }

  /** The entry of a draft spelling after its row, and the line of the drift list when there is one. */
  lemma DraftExact(r: Drafted, gone: set<string>, d: DraftRow, w: Words)
    ensures var q, was := Draft(r, gone, d, w), r.terms;
      && (d.zh in gone ==> q.terms == was && q.drift == r.drift)
      && (d.zh !in gone && d.zh !in was ==>
            var origin := if d.confirmed then "draft 2026-07 (\U{5DF2}\U{786E}\U{8BA4})" else "draft 2026-07";
            q.terms == was[d.zh := Term(d.en, false, "draft", origin, "", d.aliasOf, "", "", d.category, "", "")]
            && q.drift == r.drift)
      && (d.zh !in gone && d.zh in was ==>
            var hit := was[d.zh];
            var same := w.lower(w.base(d.en)) == w.lower(w.base(hit.translation));
            && d.zh in q.terms && q.terms == was[d.zh := q.terms[d.zh]]
            && var now := q.terms[d.zh];
            && (same ==> AgreesOn(hit, now, d) && q.drift == r.drift)
            && (!same && hit.locked ==> now == hit && q.drift == r.drift)
            && (!same && !hit.locked ==>
                  q.drift == r.drift + [Drift(d.zh, d.en, hit.translation, now.translation)])
            && (!same && !hit.locked && d.confirmed ==> OverrulesIn(hit, now, d, w))
            && (!same && !hit.locked && !d.confirmed ==>
                  now == hit.(check := "draft (unconfirmed) had " + w.repr(d.en))))
  {
    hide WithEvidence;
    assert "draft 2026-07" + "" == "draft 2026-07";
    assert "draft 2026-07" + " (\U{5DF2}\U{786E}\U{8BA4})" == "draft 2026-07 (\U{5DF2}\U{786E}\U{8BA4})";
  }

  // ------------------------------------------------------------------ unification

  /** Locked, with the rendering, and everything else as it was. */
  ghost predicate IsUnified(was: Term, now: Term, rendering: string, kind: string, variantOf: string, remark: string) {
    now == was.(translation := rendering, locked := true, kind := kind, variantOf := variantOf,
                evidence := WithEvidence(was.evidence, remark))
  }

  /** The canonical term renders as asked, or as it did when no rendering is given; it keeps its entry otherwise. */
  lemma CanonicalExact(terms: Terms, canonical: string, vs: seq<string>, translation: string, origin: string)
    requires CanUnify(terms, canonical, translation)
    ensures var t := Unify(terms, canonical, vs, translation, origin, true).terms;
      && canonical in t
      && (translation != "" ==> t[canonical].translation == translation)
      && (translation == "" ==> canonical in terms && t[canonical].translation == terms[canonical].translation)
  {
    UnifyExact(terms, canonical, vs, translation, origin, canonical);
  }

  lemma HeadExact(terms: Terms, canonical: string, rendering: string, origin: string)
    ensures var now := Head(terms, canonical, rendering, origin);
      if canonical in terms then IsUnified(terms[canonical], now, rendering, "decision", "", "canonical " + origin)
      else now == Term(rendering, true, "decision", WithEvidence("", "canonical " + origin), "", "", "", "", "", "", "")
  {
    hide WithEvidence;
  }

  function Known(terms: Terms, canonical: string): string -> bool {
    (v: string) => v != canonical && v in terms
  }

  function Strange(terms: Terms, canonical: string): string -> bool {
    (v: string) => v != canonical && v !in terms
  }

  /** Keeping its variants, a unification reports every listed variant that is there as unified, and every other one as
      missing, in order. */
  lemma {:induction false} KeepReports(terms: Terms, vs: seq<string>, canonical: string, rendering: string,
                                       origin: string)
    ensures var u := UnifyEach(Unified(terms, [], [], []), vs, canonical, rendering, origin, true);
      && u.terms.Keys == terms.Keys
      && u.applied == Where(vs, Known(terms, canonical)) && u.missing == Where(vs, Strange(terms, canonical))
  {
    hide Variant;
    if vs != [] {
      KeepReports(terms, vs[..|vs| - 1], canonical, rendering, origin);
    }
  }

  /** The listed variants that are there, each where it is first listed. */
  function FirstListed(terms: Terms, canonical: string, vs: seq<string>): seq<string> {
    if vs == [] then []
    else
      var rest, v := vs[..|vs| - 1], vs[|vs| - 1];
      FirstListed(terms, canonical, rest) + if v != canonical && v in terms && v !in rest then [v] else []
  }

  /** The listed variants that are not there, or not any more. */
  function NotThere(terms: Terms, canonical: string, vs: seq<string>): seq<string> {
    if vs == [] then []
    else
      var rest, v := vs[..|vs| - 1], vs[|vs| - 1];
      NotThere(terms, canonical, rest) + if v != canonical && (v !in terms || v in rest) then [v] else []
  }

  lemma {:induction false} UnkeptReports(terms: Terms, vs: seq<string>, canonical: string, rendering: string,
                                         origin: string)
    ensures var u := UnifyEach(Unified(terms, [], [], []), vs, canonical, rendering, origin, false);
      && u.applied == [] && u.retired == FirstListed(terms, canonical, vs)
      && u.missing == NotThere(terms, canonical, vs)
  {
    if vs != [] {
      var rest, v := vs[..|vs| - 1], vs[|vs| - 1];
      UnkeptReports(terms, rest, canonical, rendering, origin);
      UnifyRetires(Unified(terms, [], [], []), rest, canonical, rendering, origin, v);
    }
  }

  /** The report of a unification: which listed variants it unified, retired or did not find, in order. */
  lemma UnifyReportExact(terms: Terms, canonical: string, vs: seq<string>, translation: string, origin: string,
                         keep: bool)
    requires CanUnify(terms, canonical, translation)
    ensures var u := Unify(terms, canonical, vs, translation, origin, keep);
      if keep then
        u.applied == Where(vs, Known(terms, canonical)) && u.missing == Where(vs, Strange(terms, canonical))
        && u.retired == []
      else
        u.applied == [] && u.retired == FirstListed(terms, canonical, vs) && u.missing == NotThere(terms, canonical, vs)
  {
    hide UnifyEach, Where, FirstListed, NotThere, Rendering;
    var r := Rendering(terms, canonical, translation);
    var start := terms[canonical := Head(terms, canonical, r, origin)];
    if keep {
      KeepReports(start, vs, canonical, r, origin);
      KeepRetiresNone(Unified(start, [], [], []), vs, canonical, r, origin);
      SameWhere(vs, Known(start, canonical), Known(terms, canonical));
      SameWhere(vs, Strange(start, canonical), Strange(terms, canonical));
    } else {
      UnkeptReports(start, vs, canonical, r, origin);
      SameListed(terms, start, canonical, vs);
    }
  }

  lemma {:induction false} SameListed(terms: Terms, start: Terms, canonical: string, vs: seq<string>)
    requires forall v :: v != canonical ==> (v in start <==> v in terms)
    ensures FirstListed(start, canonical, vs) == FirstListed(terms, canonical, vs)
    ensures NotThere(start, canonical, vs) == NotThere(terms, canonical, vs)
  {
    if vs != [] {
      SameListed(terms, start, canonical, vs[..|vs| - 1]);
    }
  }

  /** The entries a keeping unification leaves: the canonical one and the listed variants are locked with the rendering
      and say why, once for every time they are listed; nothing else of them changes. */
  ghost predicate BecomesVariant(was: Term, now: Term, canonical: string, rendering: string) {
    now == was.(translation := rendering, locked := true, kind := "source_variant", variantOf := canonical,
                evidence := now.evidence)
  }

  lemma {:induction false} VariantEntries(u: Unified, vs: seq<string>, canonical: string, rendering: string,
                                          origin: string, z: string)
    requires z in u.terms && z in vs && z != canonical
    ensures var t := UnifyEach(u, vs, canonical, rendering, origin, true).terms;
      && z in t && BecomesVariant(u.terms[z], t[z], canonical, rendering)
      && (z !in vs[..|vs| - 1] && z == vs[|vs| - 1] ==>
            t[z].evidence == WithEvidence(u.terms[z].evidence, "source variant of " + canonical + " " + origin))
  {
    hide WithEvidence;
    var rest, v := vs[..|vs| - 1], vs[|vs| - 1];
    assert vs == rest + [v];
    if z in rest {
      VariantEntries(u, rest, canonical, rendering, origin, z);
    } else {
      VariantsPoint(u, rest, canonical, rendering, origin, z);
    }
  }
}
