/** One glossary round: review decisions become rulings, then the previous draft is merged in under them
    (glossary_merge.py `merge_round`). */
module GlossaryMerge {
  import opened Text
  import opened Grouping
  import opened GlossaryTerms

  datatype Decision = Undecided | RejectModification | AcceptSuggested | RejectKeep | RejectCannotAnswer

  datatype ReviewRow = ReviewRow(
    source: string, termId: string, decision: Decision, modification: string, suggested: string, note: string)

  datatype DraftRow = DraftRow(zh: string, en: string, category: string, confirmed: bool, aliasOf: string)

  /** `_en_base`, `str.lower` and `repr` of the program. */
  datatype Words = Words(base: string -> string, lower: string -> string, repr: string -> string)

  datatype Drift = Drift(zh: string, draft: string, corpus: string, applied: string)

  datatype Reviewed = Reviewed(
    terms: Terms, ruled: seq<(string, string)>, reconfirmed: seq<(string, string)>, incomplete: seq<string>)

  datatype Drafted = Drafted(
    terms: Terms, agrees: seq<(string, string)>, carried: seq<(string, string)>, drift: seq<Drift>,
    superseded: seq<(string, string)>)

  // ------------------------------------------------------- 1. review decisions

  function Subject(row: ReviewRow): string {
    if row.source != "" then row.source else row.termId
  }

  /** The rendering an accepted row goes by; "" when there is none. */
  function Accepted(terms: Terms, row: ReviewRow): string {
    if row.suggested != "" then row.suggested
    else if Subject(row) in terms then terms[Subject(row)].translation else ""
  }

  function Decide(r: Reviewed, row: ReviewRow, round: string, w: Words): Reviewed {
    var zh := Subject(row);
    if zh == "" then r
    else if row.decision.RejectModification? then
      if row.modification == "" then r.(incomplete := r.incomplete + [zh])
      else r.(terms := r.terms[zh := Bare(row.modification, true, "decision", "PE review " + round).(note := row.note)],
              ruled := r.ruled + [(zh, row.modification)])
    else if row.decision.AcceptSuggested? then
      var en := Accepted(r.terms, row);
      if en == "" then r
      else r.(terms := r.terms[zh := Bare(w.base(en), true, "decision", "PE review " + round)],
              reconfirmed := r.reconfirmed + [(zh, en)])
    else if row.decision.RejectKeep? && zh in r.terms then
      r.(terms := r.terms[zh := r.terms[zh].(evidence := r.terms[zh].evidence + "; kept as-is " + round)],
         reconfirmed := r.reconfirmed + [(zh, r.terms[zh].translation)])
    else r
  }

  function DecideAll(r: Reviewed, rows: seq<ReviewRow>, round: string, w: Words): Reviewed {
    if rows == [] then r
    else Decide(DecideAll(r, rows[..|rows| - 1], round, w), rows[|rows| - 1], round, w)
  }

  method ReviewRound(current: Terms, rows: seq<ReviewRow>, round: string, w: Words) returns (r: Reviewed)
    ensures r == DecideAll(Reviewed(current, [], [], []), rows, round, w)
  {
    var terms := current;
    var ruled: seq<(string, string)>, reconfirmed: seq<(string, string)>, incomplete: seq<string> := [], [], [];
    for i := 0 to |rows|
      invariant Reviewed(terms, ruled, reconfirmed, incomplete)
             == DecideAll(Reviewed(current, [], [], []), rows[..i], round, w)
    {
      hide Bare;
      var row := rows[i];
      assert rows[..i + 1][..i] == rows[..i] && rows[..i + 1][i] == row;
      var zh := Subject(row);
      if zh == "" || row.decision.Undecided? {
        continue;
      }
      if row.decision.RejectModification? {
        if row.modification == "" {
          incomplete := incomplete + [zh];
          continue;
        }
        terms := terms[zh := Bare(row.modification, true, "decision", "PE review " + round).(note := row.note)];
        ruled := ruled + [(zh, row.modification)];
      } else if row.decision.AcceptSuggested? {
        var en := Accepted(terms, row);
        if en != "" {
          terms := terms[zh := Bare(w.base(en), true, "decision", "PE review " + round)];
          reconfirmed := reconfirmed + [(zh, en)];
        }
      } else if row.decision.RejectKeep? {
        if zh in terms {
          reconfirmed := reconfirmed + [(zh, terms[zh].translation)];
          terms := terms[zh := terms[zh].(evidence := terms[zh].evidence + "; kept as-is " + round)];
        }
      }
    }
    assert rows[..|rows|] == rows;
    r := Reviewed(terms, ruled, reconfirmed, incomplete);
  }

  // --------------------------------------------------------------- 2. the draft

  /** The spellings some entry supersedes. */
  ghost predicate Superseded(terms: Terms, zh: string) {
    zh != "" && exists k :: k in terms && terms[k].supersedes == zh
  }

  predicate Same(w: Words, a: string, b: string) {
    w.lower(w.base(a)) == w.lower(w.base(b))
  }

  datatype Bucket = Gone | Carried | Agrees | Overruled | Drifts

  /** Where a draft row lands, by the terms so far. */
  function BucketOf(terms: Terms, gone: set<string>, d: DraftRow, w: Words): Bucket {
    if d.zh in gone then Gone
    else if d.zh !in terms then Carried
    else if Same(w, d.en, terms[d.zh].translation) then Agrees
    else if terms[d.zh].locked then Overruled
    else Drifts
  }

  function CarriedEntry(d: DraftRow): Term {
    Bare(d.en, false, "draft", "draft 2026-07" + if d.confirmed then " (\U{5DF2}\U{786E}\U{8BA4})" else "")
      .(category := d.category, aliasOf := d.aliasOf)
  }

  function AgreeingEntry(hit: Term, d: DraftRow): Term {
    hit.(evidence := WithEvidence(hit.evidence, "draft agrees"),
         category := if hit.category == "" then d.category else hit.category)
  }

  /** A confirmed draft outranks what was mined; an unconfirmed one only leaves a remark. */
  function DriftingEntry(hit: Term, d: DraftRow, w: Words): Term {
    if d.confirmed then
      hit.(translation := d.en, kind := "draft", check := "corpus drift: game renders as " + w.repr(hit.translation),
           category := if d.category != "" then d.category else hit.category)
    else hit.(check := "draft (unconfirmed) had " + w.repr(d.en))
  }

  function Draft(r: Drafted, gone: set<string>, d: DraftRow, w: Words): Drafted {
    match BucketOf(r.terms, gone, d, w)
    case Gone => r.(superseded := r.superseded + [(d.zh, d.en)])
    case Carried => r.(terms := r.terms[d.zh := CarriedEntry(d)], carried := r.carried + [(d.zh, d.en)])
    case Agrees => r.(terms := r.terms[d.zh := AgreeingEntry(r.terms[d.zh], d)], agrees := r.agrees + [(d.zh, d.en)])
    case Overruled => r.(superseded := r.superseded + [(d.zh, d.en)])
    case Drifts =>
      var hit := r.terms[d.zh];
      r.(terms := r.terms[d.zh := DriftingEntry(hit, d, w)],
         drift := r.drift + [Drift(d.zh, d.en, hit.translation, if d.confirmed then d.en else hit.translation)])
  }

  function DraftAll(r: Drafted, gone: set<string>, ds: seq<DraftRow>, w: Words): Drafted {
    if ds == [] then r else Draft(DraftAll(r, gone, ds[..|ds| - 1], w), gone, ds[|ds| - 1], w)
  }

  method MergeDraft(merged: Terms, gone: set<string>, ds: seq<DraftRow>, w: Words) returns (r: Drafted)
    ensures r == DraftAll(Drafted(merged, [], [], [], []), gone, ds, w)
  {
    hide CarriedEntry, AgreeingEntry, DriftingEntry, Same;
    var terms := merged;
    var agrees: seq<(string, string)>, carried: seq<(string, string)>, superseded: seq<(string, string)> := [], [], [];
    var drift: seq<Drift> := [];
    for i := 0 to |ds|
      invariant Drafted(terms, agrees, carried, drift, superseded)
             == DraftAll(Drafted(merged, [], [], [], []), gone, ds[..i], w)
    {
      var d := ds[i];
      assert ds[..i + 1][..i] == ds[..i] && ds[..i + 1][i] == d;
      if d.zh in gone {
        superseded := superseded + [(d.zh, d.en)];
        continue;
      }
      if d.zh !in terms {
        terms := terms[d.zh := CarriedEntry(d)];
        carried := carried + [(d.zh, d.en)];
        continue;
      }
      var hit := terms[d.zh];
      if Same(w, d.en, hit.translation) {
        terms := terms[d.zh := AgreeingEntry(hit, d)];
        agrees := agrees + [(d.zh, d.en)];
      } else if hit.locked {
        superseded := superseded + [(d.zh, d.en)];
      } else {
        terms := terms[d.zh := DriftingEntry(hit, d, w)];
        drift := drift + [Drift(d.zh, d.en, hit.translation, if d.confirmed then d.en else hit.translation)];
      }
    }
    assert ds[..|ds|] == ds;
    r := Drafted(terms, agrees, carried, drift, superseded);
  }

  function SupersededBy(terms: Terms): (gone: set<string>)
    ensures forall zh :: zh in gone <==> Superseded(terms, zh)
  {
    set k | k in terms && terms[k].supersedes != "" :: terms[k].supersedes
  }

  /** `delta["unchanged"]`: a difference of lengths. */
  function UnchangedFigure(r: Reviewed, d: Drafted): int {
    |d.terms| - |r.ruled| - |r.reconfirmed| - |d.carried| - |d.drift|
  }

  /** `merge_round`: the reviewed terms with the draft merged in, and both halves of the delta report. */
  method MergeRound(current: Terms, rows: seq<ReviewRow>, ds: seq<DraftRow>, round: string, w: Words)
    returns (terms: Terms, reviewed: Reviewed, drafted: Drafted, unchangedTerms: int)
    ensures reviewed == DecideAll(Reviewed(current, [], [], []), rows, round, w)
    ensures drafted == DraftAll(Drafted(reviewed.terms, [], [], [], []), SupersededBy(reviewed.terms), ds, w)
    ensures terms == drafted.terms
    ensures unchangedTerms == UnchangedFigure(reviewed, drafted)
  {
    reviewed := ReviewRound(current, rows, round, w);
    drafted := MergeDraft(reviewed.terms, SupersededBy(reviewed.terms), ds, w);
    terms := drafted.terms;
    unchangedTerms := |terms| - |reviewed.ruled| - |reviewed.reconfirmed| - |drafted.carried| - |drafted.drift|;
  }

  // -------------------------------------------------------------- rulings are law

  lemma DraftKeeps(r: Drafted, gone: set<string>, d: DraftRow, w: Words, zh: string)
    ensures var t := Draft(r, gone, d, w).terms;
      && (zh in r.terms ==> zh in t && t[zh].locked == r.terms[zh].locked)
      && (zh in r.terms && r.terms[zh].locked ==> t[zh].translation == r.terms[zh].translation)
      && (zh in gone || zh != d.zh ==> (zh in t <==> zh in r.terms) && (zh in t ==> t[zh] == r.terms[zh]))
      && (zh !in r.terms && zh in t ==> zh == d.zh && !t[zh].locked)
  {
  }

  /** No draft row changes a locked translation, locks a term, unlocks one, or drops one; a superseded spelling
      stays exactly as it was, in the list or out of it. */
  lemma {:induction false} DraftsYield(r: Drafted, gone: set<string>, ds: seq<DraftRow>, w: Words, zh: string)
    ensures var t := DraftAll(r, gone, ds, w).terms;
      && (zh in r.terms ==> zh in t && t[zh].locked == r.terms[zh].locked)
      && (zh in r.terms && r.terms[zh].locked ==> t[zh].translation == r.terms[zh].translation)
      && (zh in gone ==> (zh in t <==> zh in r.terms) && (zh in t ==> t[zh] == r.terms[zh]))
      && (zh !in r.terms && zh in t ==> !t[zh].locked && exists d :: d in ds && d.zh == zh)
  {
    if ds != [] {
      hide Draft;
      var rest, d := ds[..|ds| - 1], ds[|ds| - 1];
      DraftsYield(r, gone, rest, w, zh);
      DraftKeeps(DraftAll(r, gone, rest, w), gone, d, w, zh);
      assert ds == rest + [d];
    }
  }

  /** The row can change what its term renders as. */
  predicate MayRule(row: ReviewRow) {
    row.decision.AcceptSuggested? || (row.decision.RejectModification? && row.modification != "")
  }

  /** It does, by the terms so far: a modification, or an accepted rendering that is there. */
  predicate DoesRule(terms: Terms, row: ReviewRow) {
    Subject(row) != "" && MayRule(row) && (row.decision.AcceptSuggested? ==> Accepted(terms, row) != "")
  }

  function RuledAs(terms: Terms, row: ReviewRow, w: Words): string {
    if row.decision.AcceptSuggested? then w.base(Accepted(terms, row)) else row.modification
  }

  /** A term on which no row may rule keeps translation and standing: keeping as-is locks nothing. */
  lemma {:induction false} UnruledStays(r: Reviewed, rows: seq<ReviewRow>, round: string, w: Words, zh: string)
    requires forall j :: 0 <= j < |rows| && Subject(rows[j]) == zh ==> !MayRule(rows[j])
    ensures var t := DecideAll(r, rows, round, w).terms;
      (zh in t <==> zh in r.terms)
      && (zh in t ==> t[zh].translation == r.terms[zh].translation && t[zh].locked == r.terms[zh].locked)
  {
    hide Subject, Bare;
    if rows != [] {
      UnruledStays(r, rows[..|rows| - 1], round, w, zh);
    }
  }

  lemma {:induction false} DecideConcat(r: Reviewed, a: seq<ReviewRow>, b: seq<ReviewRow>, round: string, w: Words)
    ensures DecideAll(r, a + b, round, w) == DecideAll(DecideAll(r, a, round, w), b, round, w)
  {
    hide Decide;
    if b == [] {
      assert a + b == a;
    } else {
      assert (a + b)[..|a + b| - 1] == a + b[..|b| - 1];
      DecideConcat(r, a, b[..|b| - 1], round, w);
    }
  }

  /** The last row that may rule on its term, if it does, has the last word: the term is locked as it says. */
  lemma LastRulingWins(r: Reviewed, rows: seq<ReviewRow>, i: nat, round: string, w: Words)
    requires i < |rows| && DoesRule(DecideAll(r, rows[..i], round, w).terms, rows[i])
    requires forall j :: i < j < |rows| && Subject(rows[j]) == Subject(rows[i]) ==> !MayRule(rows[j])
    ensures Rules(DecideAll(r, rows, round, w).terms, Subject(rows[i]),
                  RuledAs(DecideAll(r, rows[..i], round, w).terms, rows[i], w))
  {
    hide Subject, DecideAll, Accepted;
    var before := DecideAll(r, rows[..i], round, w);
    var row, later := rows[i], rows[i + 1..];
    DecideConcat(r, rows[..i], [row], round, w);
    DecideConcat(r, rows[..i + 1], later, round, w);
    assert rows[..i + 1] == rows[..i] + [row] && rows == rows[..i + 1] + later;
    OneRow(before, row, round, w);
    forall j | 0 <= j < |later| && Subject(later[j]) == Subject(row) ensures !MayRule(later[j]) {
      assert later[j] == rows[i + 1 + j];
    }
    UnruledStays(Decide(before, row, round, w), later, round, w, Subject(row));
  }

  lemma OneRow(r: Reviewed, row: ReviewRow, round: string, w: Words)
    ensures DecideAll(r, [row], round, w) == Decide(r, row, round, w)
  {
    hide Decide;
    assert [row][..0] == [];
  }

  /** A ruling of this round holds in the merged glossary, whatever the draft says. */
  lemma RoundRulingHolds(current: Terms, rows: seq<ReviewRow>, i: nat, ds: seq<DraftRow>, round: string, w: Words)
    requires i < |rows| && DoesRule(DecideAll(Reviewed(current, [], [], []), rows[..i], round, w).terms, rows[i])
    requires forall j :: i < j < |rows| && Subject(rows[j]) == Subject(rows[i]) ==> !MayRule(rows[j])
    ensures var start := Reviewed(current, [], [], []);
      var reviewed := DecideAll(start, rows, round, w).terms;
      Rules(DraftAll(Drafted(reviewed, [], [], [], []), SupersededBy(reviewed), ds, w).terms,
            Subject(rows[i]), RuledAs(DecideAll(start, rows[..i], round, w).terms, rows[i], w))
  {
    hide DecideAll, DraftAll, SupersededBy, MayRule, DoesRule, Subject;
    LastRulingWins(Reviewed(current, [], [], []), rows, i, round, w);
    var reviewed := DecideAll(Reviewed(current, [], [], []), rows, round, w).terms;
    DraftsYield(Drafted(reviewed, [], [], [], []), SupersededBy(reviewed), ds, w, Subject(rows[i]));
  }

  predicate Modifies(row: ReviewRow, zh: string, en: string) {
    row.decision.RejectModification? && Subject(row) == zh && zh != "" && row.modification == en
  }

  lemma DecideReports(r: Reviewed, row: ReviewRow, round: string, w: Words, zh: string, en: string)
    ensures var q := Decide(r, row, round, w);
      && ((zh, en) in q.ruled <==> (zh, en) in r.ruled || (Modifies(row, zh, en) && en != ""))
      && (zh in q.incomplete <==> zh in r.incomplete || Modifies(row, zh, ""))
  {
    hide Subject, Bare, Accepted;
  }

  /** The report lists exactly the modifications made, and exactly the terms whose modification was left empty. */
  lemma {:induction false} ReviewReported(r: Reviewed, rows: seq<ReviewRow>, round: string, w: Words, zh: string,
                                          en: string)
    ensures var q := DecideAll(r, rows, round, w);
      && ((zh, en) in q.ruled
          <==> (zh, en) in r.ruled || (en != "" && exists row :: row in rows && Modifies(row, zh, en)))
      && (zh in q.incomplete <==> zh in r.incomplete || exists row :: row in rows && Modifies(row, zh, ""))
  {
    hide Decide, Modifies;
    if rows != [] {
      var rest, last := rows[..|rows| - 1], rows[|rows| - 1];
      ReviewReported(r, rest, round, w, zh, en);
      DecideReports(DecideAll(r, rest, round, w), last, round, w, zh, en);
      assert forall row :: row in rows <==> row in rest || row == last;
    }
  }

  // ------------------------------------------------------ one bucket for each row

  /** The bucket of every draft row, each by the terms the rows before it left. */
  function Buckets(r: Drafted, gone: set<string>, ds: seq<DraftRow>, w: Words): (bs: seq<Bucket>)
    ensures |bs| == |ds|
  {
    if ds == [] then []
    else
      var rest := ds[..|ds| - 1];
      Buckets(r, gone, rest, w) + [BucketOf(DraftAll(r, gone, rest, w).terms, gone, ds[|ds| - 1], w)]
  }

  /** The rows of one kind of bucket, in draft order. */
  function Pick(ds: seq<DraftRow>, bs: seq<Bucket>, keep: Bucket -> bool): seq<(string, string)>
    requires |bs| == |ds|
  {
    if ds == [] then []
    else
      var n := |ds| - 1;
      Pick(ds[..n], bs[..n], keep) + if keep(bs[n]) then [(ds[n].zh, ds[n].en)] else []
  }

  function DriftRows(drift: seq<Drift>): seq<(string, string)> {
    if drift == [] then [] else DriftRows(drift[..|drift| - 1]) + [(drift[|drift| - 1].zh, drift[|drift| - 1].draft)]
  }

  predicate IsOut(b: Bucket) { b.Gone? || b.Overruled? }

  predicate IsCarried(b: Bucket) { b.Carried? }

  predicate IsAgreeing(b: Bucket) { b.Agrees? }

  predicate IsDrifting(b: Bucket) { b.Drifts? }

  /** The four delta lists are the rows, in order, each in the one list of its bucket. */
  ghost predicate Parted(r: Drafted, ds: seq<DraftRow>, bs: seq<Bucket>)
    requires |bs| == |ds|
  {
    && r.superseded == Pick(ds, bs, IsOut) && r.carried == Pick(ds, bs, IsCarried)
    && r.agrees == Pick(ds, bs, IsAgreeing) && DriftRows(r.drift) == Pick(ds, bs, IsDrifting)
  }

  lemma PickSnoc(ds: seq<DraftRow>, bs: seq<Bucket>, keep: Bucket -> bool, d: DraftRow, b: Bucket)
    requires |bs| == |ds|
    ensures Pick(ds + [d], bs + [b], keep) == Pick(ds, bs, keep) + if keep(b) then [(d.zh, d.en)] else []
  {
  }

  lemma DriftSnoc(drift: seq<Drift>, x: Drift)
    ensures DriftRows(drift + [x]) == DriftRows(drift) + [(x.zh, x.draft)]
  {
  }

  lemma DraftParts(r: Drafted, gone: set<string>, d: DraftRow, w: Words, ds: seq<DraftRow>, bs: seq<Bucket>)
    requires |bs| == |ds| && Parted(r, ds, bs)
    ensures Parted(Draft(r, gone, d, w), ds + [d], bs + [BucketOf(r.terms, gone, d, w)])
  {
    hide Pick, DriftRows, CarriedEntry, AgreeingEntry, DriftingEntry, Same;
    var b := BucketOf(r.terms, gone, d, w);
    PickSnoc(ds, bs, IsOut, d, b);
    PickSnoc(ds, bs, IsCarried, d, b);
    PickSnoc(ds, bs, IsAgreeing, d, b);
    PickSnoc(ds, bs, IsDrifting, d, b);
    if b.Drifts? {
      var hit := r.terms[d.zh];
      DriftSnoc(r.drift, Drift(d.zh, d.en, hit.translation, if d.confirmed then d.en else hit.translation));
    }
  }

  lemma NothingParted(r: Drafted)
    requires r.agrees == [] && r.carried == [] && r.drift == [] && r.superseded == []
    ensures Parted(r, [], [])
  {
  }

  lemma {:induction false} DraftsPartitioned(merged: Terms, gone: set<string>, ds: seq<DraftRow>, w: Words)
    ensures var start := Drafted(merged, [], [], [], []);
      Parted(DraftAll(start, gone, ds, w), ds, Buckets(start, gone, ds, w))
  {
    hide Draft, BucketOf, Parted, Pick, DriftRows;
    if ds == [] {
      NothingParted(Drafted(merged, [], [], [], []));
    } else {
      var start, rest, d := Drafted(merged, [], [], [], []), ds[..|ds| - 1], ds[|ds| - 1];
      DraftsPartitioned(merged, gone, rest, w);
      DraftParts(DraftAll(start, gone, rest, w), gone, d, w, rest, Buckets(start, gone, rest, w));
      assert ds == rest + [d];
    }
  }

  // ----------------------------------------------------------- the last word

  /** The last confirmed row on a spelling. */
  ghost predicate LastConfirmed(ds: seq<DraftRow>, i: nat) {
    && i < |ds| && ds[i].confirmed
    && forall j :: i < j < |ds| && ds[j].zh == ds[i].zh ==> !ds[j].confirmed
  }

  ghost predicate Renders(terms: Terms, zh: string, en: string, w: Words) {
    zh in terms && Same(w, en, terms[zh].translation)
  }

  lemma ConfirmedRowWins(r: Drafted, gone: set<string>, d: DraftRow, w: Words)
    requires d.confirmed && d.zh !in gone && (d.zh in r.terms ==> !r.terms[d.zh].locked)
    ensures Renders(Draft(r, gone, d, w).terms, d.zh, d.en, w)
  {
  }

  lemma OtherRowKeeps(r: Drafted, gone: set<string>, d: DraftRow, w: Words, zh: string)
    requires zh in r.terms && (zh == d.zh ==> !d.confirmed)
    ensures var t := Draft(r, gone, d, w).terms; zh in t && t[zh].translation == r.terms[zh].translation
  {
  }

  /** On a term without a ruling, the last confirmed draft row decides, up to the comparison the program makes. */
  lemma {:induction false} LastConfirmedWins(r: Drafted, gone: set<string>, ds: seq<DraftRow>, i: nat, w: Words)
    requires LastConfirmed(ds, i) && ds[i].zh !in gone && (ds[i].zh in r.terms ==> !r.terms[ds[i].zh].locked)
    ensures Renders(DraftAll(r, gone, ds, w).terms, ds[i].zh, ds[i].en, w)
  {
    hide Draft, Same;
    var rest, last := ds[..|ds| - 1], ds[|ds| - 1];
    var q := DraftAll(r, gone, rest, w);
    if i == |ds| - 1 {
      DraftsYield(r, gone, rest, w, last.zh);
      ConfirmedRowWins(q, gone, last, w);
    } else {
      assert rest[i] == ds[i];
      assert LastConfirmed(rest, i) by {
        forall j | i < j < |rest| && rest[j].zh == rest[i].zh ensures !rest[j].confirmed {
          assert rest[j] == ds[j];
        }
      }
      LastConfirmedWins(r, gone, rest, i, w);
      OtherRowKeeps(q, gone, last, w, ds[i].zh);
    }
  }

  /** Without a confirmed row, a term that is there keeps its translation. */
  lemma {:induction false} MinedStays(r: Drafted, gone: set<string>, ds: seq<DraftRow>, w: Words, zh: string)
    requires zh in r.terms && forall d :: d in ds && d.zh == zh ==> !d.confirmed
    ensures var t := DraftAll(r, gone, ds, w).terms; zh in t && t[zh].translation == r.terms[zh].translation
  {
    if ds != [] {
      hide Draft;
      assert ds[|ds| - 1] in ds;
      MinedStays(r, gone, ds[..|ds| - 1], w, zh);
      OtherRowKeeps(DraftAll(r, gone, ds[..|ds| - 1], w), gone, ds[|ds| - 1], w, zh);
    }
  }

  /** Every spelling of the draft that is not superseded is in the merged glossary. */
  lemma {:induction false} DraftCovered(r: Drafted, gone: set<string>, ds: seq<DraftRow>, w: Words, d: DraftRow)
    requires d in ds && d.zh !in gone
    ensures d.zh in DraftAll(r, gone, ds, w).terms
  {
    hide Same, CarriedEntry, AgreeingEntry, DriftingEntry;
    var rest := ds[..|ds| - 1];
    assert ds == rest + [ds[|ds| - 1]];
    if d in rest {
      DraftCovered(r, gone, rest, w, d);
    }
  }

  // -------------------------------------------------------- the unchanged figure

  function Firsts(ps: seq<(string, string)>): (ns: seq<string>)
    ensures |ns| == |ps|
  {
    seq(|ps|, i requires 0 <= i < |ps| => ps[i].0)
  }

  function DriftNames(drift: seq<Drift>): (ns: seq<string>)
    ensures |ns| == |drift|
  {
    seq(|drift|, i requires 0 <= i < |drift| => drift[i].zh)
  }

  function ReviewNames(r: Reviewed): seq<string> {
    Firsts(r.ruled) + Firsts(r.reconfirmed)
  }

  function DraftNames(d: Drafted): seq<string> {
    Firsts(d.carried) + DriftNames(d.drift)
  }

  /** The terms the delta names as changed, once for every time it does. */
  function Named(r: Reviewed, d: Drafted): seq<string> {
    ReviewNames(r) + DraftNames(d)
  }

  /** A term is named only if it is there, and one that is there and not named is as it was. */
  ghost predicate NamedOrKept(was: Terms, now: Terms, names: seq<string>, zh: string) {
    && (zh in was || zh in names ==> zh in now)
    && (zh in now && zh !in names ==>
          zh in was && now[zh].translation == was[zh].translation && now[zh].locked == was[zh].locked)
  }

  lemma FirstsSnoc(ps: seq<(string, string)>, x: (string, string))
    ensures Firsts(ps + [x]) == Firsts(ps) + [x.0]
  {
  }

  lemma DecideNames(was: Terms, r: Reviewed, row: ReviewRow, round: string, w: Words, zh: string)
    requires NamedOrKept(was, r.terms, ReviewNames(r), zh)
    ensures var q := Decide(r, row, round, w); NamedOrKept(was, q.terms, ReviewNames(q), zh)
  {
    hide Subject, Accepted, Firsts;
    var q := Decide(r, row, round, w);
    if |q.ruled| > |r.ruled| {
      FirstsSnoc(r.ruled, q.ruled[|r.ruled|]);
    }
    if |q.reconfirmed| > |r.reconfirmed| {
      FirstsSnoc(r.reconfirmed, q.reconfirmed[|r.reconfirmed|]);
    }
  }

  lemma {:induction false} DecideAllNames(was: Terms, rows: seq<ReviewRow>, round: string, w: Words, zh: string)
    ensures var q := DecideAll(Reviewed(was, [], [], []), rows, round, w); NamedOrKept(was, q.terms, ReviewNames(q), zh)
  {
    hide Decide;
    if rows != [] {
      hide NamedOrKept;
      var rest := rows[..|rows| - 1];
      DecideAllNames(was, rest, round, w, zh);
      DecideNames(was, DecideAll(Reviewed(was, [], [], []), rest, round, w), rows[|rows| - 1], round, w, zh);
    }
  }

  lemma DraftNamesStep(was: Terms, r: Drafted, gone: set<string>, d: DraftRow, w: Words, zh: string)
    requires NamedOrKept(was, r.terms, DraftNames(r), zh)
    ensures var q := Draft(r, gone, d, w); NamedOrKept(was, q.terms, DraftNames(q), zh)
  {
    hide Firsts, DriftNames, Same, WithEvidence;
    var q := Draft(r, gone, d, w);
    if |q.carried| > |r.carried| {
      FirstsSnoc(r.carried, (d.zh, d.en));
    }
    if |q.drift| > |r.drift| {
      DriftNamesSnoc(r.drift, q.drift[|r.drift|]);
    }
  }

  lemma DriftNamesSnoc(drift: seq<Drift>, x: Drift)
    ensures DriftNames(drift + [x]) == DriftNames(drift) + [x.zh]
  {
  }

  lemma {:induction false} DraftAllNames(was: Terms, gone: set<string>, ds: seq<DraftRow>, w: Words, zh: string)
    ensures var q := DraftAll(Drafted(was, [], [], [], []), gone, ds, w); NamedOrKept(was, q.terms, DraftNames(q), zh)
  {
    hide Draft;
    if ds != [] {
      hide NamedOrKept;
      var rest := ds[..|ds| - 1];
      DraftAllNames(was, gone, rest, w, zh);
      DraftNamesStep(was, DraftAll(Drafted(was, [], [], [], []), gone, rest, w), gone, ds[|ds| - 1], w, zh);
    }
  }

  /** Over a whole round: every term named is there, and every term not named keeps translation and standing. */
  lemma NamedExact(current: Terms, rows: seq<ReviewRow>, ds: seq<DraftRow>, round: string, w: Words, zh: string)
    ensures var r := DecideAll(Reviewed(current, [], [], []), rows, round, w);
      var d := DraftAll(Drafted(r.terms, [], [], [], []), SupersededBy(r.terms), ds, w);
      NamedOrKept(current, d.terms, Named(r, d), zh)
  {
    hide DecideAll, DraftAll, SupersededBy, ReviewNames, DraftNames;
    var r := DecideAll(Reviewed(current, [], [], []), rows, round, w);
    DecideAllNames(current, rows, round, w, zh);
    DraftAllNames(r.terms, SupersededBy(r.terms), ds, w, zh);
  }

  function Elements(names: seq<string>): set<string> {
    set n | n in names
  }

  lemma {:induction false} ElementsSize(names: seq<string>)
    ensures |Elements(names)| <= |names| && (|Elements(names)| == |names| <==> Distinct(names))
  {
    if names != [] {
      var t, x := names[..|names| - 1], names[|names| - 1];
      ElementsSize(t);
      assert names == t + [x];
      assert Elements(names) == Elements(t) + {x};
      if x in t {
        assert Elements(names) == Elements(t);
      }
    }
  }

  /** The figure never counts too many, and it is the number of terms not named exactly when no term is named
      twice across the four lists. */
  lemma UnchangedExact(current: Terms, rows: seq<ReviewRow>, ds: seq<DraftRow>, round: string, w: Words)
    ensures var r := DecideAll(Reviewed(current, [], [], []), rows, round, w);
      var d := DraftAll(Drafted(r.terms, [], [], [], []), SupersededBy(r.terms), ds, w);
      var unnamed := |d.terms.Keys - Elements(Named(r, d))|;
      UnchangedFigure(r, d) <= unnamed && (UnchangedFigure(r, d) == unnamed <==> Distinct(Named(r, d)))
  {
    hide DecideAll, DraftAll, SupersededBy, Distinct;
    var r := DecideAll(Reviewed(current, [], [], []), rows, round, w);
    var d := DraftAll(Drafted(r.terms, [], [], [], []), SupersededBy(r.terms), ds, w);
    var names := Named(r, d);
    ElementsSize(names);
    forall zh | zh in Elements(names) ensures zh in d.terms.Keys {
      NamedExact(current, rows, ds, round, w, zh);
    }
    assert d.terms.Keys == (d.terms.Keys - Elements(names)) + Elements(names);
    assert |d.terms| == |d.terms.Keys|;
  }

  /** It can fall below zero: two rulings of one round on its only term. */
  lemma UnchangedCanBeNegative(w: Words, round: string)
    ensures var row := ReviewRow("a", "", RejectModification, "b", "", "");
      var r := DecideAll(Reviewed(map[], [], [], []), [row, row], round, w);
      UnchangedFigure(r, DraftAll(Drafted(r.terms, [], [], [], []), SupersededBy(r.terms), [], w)) == -1
  {
    var row, start := ReviewRow("a", "", RejectModification, "b", "", ""), Reviewed(map[], [], [], []);
    assert [row, row][..1] == [row] && [row][..0] == [];
    var once := Decide(start, row, round, w);
    assert DecideAll(start, [row], round, w) == Decide(DecideAll(start, [], round, w), row, round, w);
    var twice := Decide(once, row, round, w);
    assert twice.terms.Keys == {"a"} && |twice.ruled| == 2;
    assert |twice.terms| == |twice.terms.Keys|;
  }
}
