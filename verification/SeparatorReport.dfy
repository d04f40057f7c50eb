/** The report of a separator sweep read off its entries (po_patch.py `audit_separators`). */
module SeparatorReport {
  import opened Text
  import opened Wrappers
  import opened PoEscape
  import opened Separators
  import Grouping

  /** How many breaks the text behind some bytes has. */
  function BreakCount(raw: string): nat {
    |Separators.Separators(UnescapeRaw(raw))|
  }

  /** Of the breaks of the source none is left. */
  predicate LosesBreaks(e: Entry) {
    Strip(e.tgt) != [] && BreakCount(e.src) > 0 && BreakCount(e.tgt) == 0
  }

  /** Both have breaks, but not as many. */
  predicate Drifted(e: Entry) {
    && Strip(e.tgt) != []
    && BreakCount(e.src) > 0 && BreakCount(e.tgt) > 0 && BreakCount(e.src) != BreakCount(e.tgt)
  }

  function DriftLine(e: Entry): seq<Drift> {
    if Drifted(e) then [Drift(key := e.key, targetBreaks := BreakCount(e.tgt), sourceBreaks := BreakCount(e.src))]
    else []
  }

  /** The entry is translated, kept a break if it had one to keep, and its repair differs from it. */
  predicate Changed(e: Entry) {
    Strip(e.tgt) != [] && (BreakCount(e.src) == 0 || BreakCount(e.tgt) > 0) && RepairRaw(e.src, e.tgt) != e.tgt
  }

  lemma EntryReport(e: Entry)
    ensures Fix(e) == if Changed(e) then Some(RepairRaw(e.src, e.tgt)) else None
    ensures BreaksLost(e) == LosesBreaks(e) && DriftOf(e) == DriftLine(e)
  {
    hide UnescapeRaw, Separators.Separators, RepairRaw, Strip;
  }

  lemma {:induction false} ListsExact(es: seq<Entry>)
    ensures Repaired(es) == Grouping.Where(es, Changed) && Lost(es) == Grouping.Where(es, LosesBreaks)
  {
    hide Changed, LosesBreaks, Fix, BreaksLost;
    if es != [] {
      ListsExact(es[..|es| - 1]);
      EntryReport(es[|es| - 1]);
    }
  }

  lemma {:induction false} DriftsExact(es: seq<Entry>)
    ensures Drifts(es) == Grouping.Spread(es, DriftLine)
  {
    hide DriftLine, DriftOf;
    if es != [] {
      var t, e := es[..|es| - 1], es[|es| - 1];
      assert es == t + [e];
      DriftsExact(t);
      EntryReport(e);
      Grouping.SpreadConcat(t, [e], DriftLine);
      Grouping.SpreadOne(e, DriftLine);
    }
  }

  /** Entry i is a changed one under the key. */
  ghost predicate ChangedAt(es: seq<Entry>, i: int, key: string) {
    0 <= i < |es| && Changed(es[i]) && es[i].key == key
  }

  ghost predicate ChangedLast(es: seq<Entry>, i: int, key: string) {
    ChangedAt(es, i, key) && forall j :: ChangedAt(es, j, key) ==> j <= i
  }

  /** Under each key the repair of its last changed entry, and nothing under any other. */
  ghost predicate FixesAre(es: seq<Entry>, fixes: map<string, string>) {
    && (forall k :: k in fixes <==> exists i :: ChangedAt(es, i, k))
    && forall i, k :: ChangedLast(es, i, k) ==> k in fixes && fixes[k] == RepairRaw(es[i].src, es[i].tgt)
  }

  lemma ChangedSnoc(t: seq<Entry>, e: Entry, i: int, k: string)
    ensures ChangedAt(t + [e], i, k) <==> ChangedAt(t, i, k) || (i == |t| && Changed(e) && e.key == k)
    ensures ChangedLast(t + [e], i, k) ==> if Changed(e) && e.key == k then i == |t| else ChangedLast(t, i, k)
  {
    hide Changed;
    var es := t + [e];
    assert es[|t|] == e && forall j :: 0 <= j < |t| ==> es[j] == t[j];
    if ChangedLast(es, i, k) {
      if Changed(e) && e.key == k {
        assert ChangedAt(es, |t|, k);
      } else {
        forall j | ChangedAt(t, j, k) ensures j <= i {
          assert ChangedAt(es, j, k);
        }
      }
    }
  }

  lemma FixesSnoc(t: seq<Entry>, e: Entry, fixes: map<string, string>)
    requires FixesAre(t, fixes)
    ensures FixesAre(t + [e], if Changed(e) then fixes[e.key := RepairRaw(e.src, e.tgt)] else fixes)
  {
    hide Changed, RepairRaw;
    var es, next := t + [e], if Changed(e) then fixes[e.key := RepairRaw(e.src, e.tgt)] else fixes;
    forall k ensures k in next <==> exists i :: ChangedAt(es, i, k) {
      forall i ensures ChangedAt(es, i, k) <==> ChangedAt(t, i, k) || (i == |t| && Changed(e) && e.key == k) {
        ChangedSnoc(t, e, i, k);
      }
      assert ChangedAt(es, |t|, k) <==> Changed(e) && e.key == k;
    }
    forall i, k | ChangedLast(es, i, k) ensures k in next && next[k] == RepairRaw(es[i].src, es[i].tgt) {
      ChangedSnoc(t, e, i, k);
    }
  }

  lemma {:induction false} FixesExact(es: seq<Entry>)
    ensures FixesAre(es, Fixes(es))
  {
    hide Changed, RepairRaw, Fix, FixesAre;
    if es == [] {
      NothingFixed();
    } else {
      var t, e := es[..|es| - 1], es[|es| - 1];
      assert es == t + [e];
      FixesExact(t);
      EntryReport(e);
      FixesSnoc(t, e, Fixes(t));
    }
  }

  lemma NothingFixed()
    ensures FixesAre([], map[])
  {
  }

  /** The report of a sweep: the changed entries and those that lost their breaks, in order; for every count that
      drifted the number of breaks of the source and of the target; and the fixes. */
  lemma AuditExact(es: seq<Entry>)
    ensures Repaired(es) == Grouping.Where(es, Changed) && Lost(es) == Grouping.Where(es, LosesBreaks)
    ensures Drifts(es) == Grouping.Spread(es, DriftLine)
    ensures FixesAre(es, Fixes(es))
  {
    hide Changed, LosesBreaks, DriftLine, FixesAre;
    ListsExact(es);
    DriftsExact(es);
    FixesExact(es);
  }
}
