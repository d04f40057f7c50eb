/** Which occurrences of terms claim their span, and which renderings follow, read off the occurrences themselves
    (gate_checks.py `applicable_terms`). */
module TermClaims {
  import opened StableSort
  import Grouping
  import opened TermSelection

  /** Two spans have a character in common, or one stands empty inside the other. */
  predicate Meet(a: Hit, b: Hit) {
    a.start < b.end && b.start < a.end
  }

  /** An occurrence is granted when it meets none that was granted before it. */
  ghost predicate Granted(hs: seq<Hit>, i: nat)
    requires i < |hs|
  {
    forall j: nat :: j < i && Granted(hs, j) ==> !Meet(hs[j], hs[i])
  }

  /** Longer occurrences first, then those of longer terms, then the leftmost. */
  predicate Precedes(a: Hit, b: Hit) {
    var m, n := a.end - a.start, b.end - b.start;
    if m != n then m > n
    else if |a.term| != |b.term| then |a.term| > |b.term|
    else a.start < b.start
  }

  function HitAt(t: Term, s: Span): Hit {
    Hit(t.term, t.rendering, s.start, s.end)
  }

  /** The occurrences came by term, and those of one term in the order of its spans. */
  ghost predicate Came(terms: seq<Term>, came: (Hit, Hit) -> bool) {
    && (forall k, i, j :: 0 <= k < |terms| && 0 <= i < j < |terms[k].spans| ==>
          came(HitAt(terms[k], terms[k].spans[i]), HitAt(terms[k], terms[k].spans[j])))
    && forall k, l, s, u :: 0 <= k < l < |terms| && s in terms[k].spans && u in terms[l].spans ==>
         came(HitAt(terms[k], s), HitAt(terms[l], u))
  }

  // ------------------------------------------------------------- the candidates

  lemma {:induction false} HitsAre(t: Term, spans: seq<Span>)
    ensures |HitsOf(t, spans)| == |spans|
    ensures forall i :: 0 <= i < |spans| ==> HitsOf(t, spans)[i] == HitAt(t, spans[i])
  {
    if spans != [] {
      HitsAre(t, spans[1..]);
    }
  }

  lemma HitsHave(t: Term, h: Hit)
    ensures h in HitsOf(t, t.spans) <==> exists s :: s in t.spans && h == HitAt(t, s)
  {
    HitsAre(t, t.spans);
  }

  lemma {:induction false} CandidatesHave(terms: seq<Term>, h: Hit)
    ensures h in Candidates(terms) <==> exists t, s :: t in terms && s in t.spans && h == HitAt(t, s)
  {
    hide HitsOf;
    if terms != [] {
      CandidatesHave(terms[1..], h);
      HitsHave(terms[0], h);
      assert forall t :: t in terms <==> t == terms[0] || t in terms[1..];
    }
  }

  lemma CameRest(terms: seq<Term>, came: (Hit, Hit) -> bool)
    requires Came(terms, came) && terms != []
    ensures Came(terms[1..], came)
    ensures forall s, t, u :: s in terms[0].spans && t in terms[1..] && u in t.spans ==>
      came(HitAt(terms[0], s), HitAt(t, u))
  {
    forall k, i, j | 0 <= k < |terms[1..]| && 0 <= i < j < |terms[1..][k].spans|
      ensures came(HitAt(terms[1..][k], terms[1..][k].spans[i]), HitAt(terms[1..][k], terms[1..][k].spans[j])) {
      assert terms[1..][k] == terms[k + 1];
    }
    forall k, l, s, u | 0 <= k < l < |terms[1..]| && s in terms[1..][k].spans && u in terms[1..][l].spans
      ensures came(HitAt(terms[1..][k], s), HitAt(terms[1..][l], u)) {
      assert terms[1..][k] == terms[k + 1] && terms[1..][l] == terms[l + 1];
    }
    forall s, t, u | s in terms[0].spans && t in terms[1..] && u in t.spans
      ensures came(HitAt(terms[0], s), HitAt(t, u)) {
      var l :| 0 <= l < |terms[1..]| && terms[1..][l] == t;
      assert terms[l + 1] == t;
    }
  }

  lemma HitsCame(t: Term, came: (Hit, Hit) -> bool)
    requires forall i, j :: 0 <= i < j < |t.spans| ==> came(HitAt(t, t.spans[i]), HitAt(t, t.spans[j]))
    ensures Pairwise(HitsOf(t, t.spans), came)
  {
    HitsAre(t, t.spans);
  }

  lemma {:induction false} CandidatesCame(terms: seq<Term>, came: (Hit, Hit) -> bool)
    requires Came(terms, came)
    ensures Pairwise(Candidates(terms), came)
  {
    hide HitsOf;
    if terms != [] {
      var t, rest := terms[0], terms[1..];
      HitsCame(t, came);
      CameRest(terms, came);
      hide Came;
      CandidatesCame(rest, came);
      forall x, y | x in HitsOf(t, t.spans) && y in Candidates(rest) ensures came(x, y) {
        HitsHave(t, x);
        CandidatesHave(rest, y);
      }
      Grouping.PairwiseConcat(HitsOf(t, t.spans), Candidates(rest), came);
    }
  }

  /** The occurrences are tried in that order, ties as they came. */
  lemma OrderedExact(terms: seq<Term>, came: (Hit, Hit) -> bool)
    requires Came(terms, came)
    ensures forall h :: h in Ordered(terms) <==> exists t, s :: t in terms && s in t.spans && h == HitAt(t, s)
    ensures var hs := Ordered(terms);
      forall i, j :: 0 <= i < j < |hs| ==>
        Precedes(hs[i], hs[j]) || (!Precedes(hs[j], hs[i]) && came(hs[i], hs[j]))
  {
    hide Candidates, Came;
    BeforeIsPreorder();
    CandidatesCame(terms, came);
    SortSorts(Candidates(terms), Before);
    SameElements(Candidates(terms), Ordered(terms));
    SortStable(Candidates(terms), Before, came);
    forall h ensures h in Ordered(terms) <==> exists t, s :: t in terms && s in t.spans && h == HitAt(t, s) {
      CandidatesHave(terms, h);
    }
    hide Ordered, Pairwise;
    var hs := Ordered(terms);
    forall i, j | 0 <= i < j < |hs|
      ensures Precedes(hs[i], hs[j]) || (!Precedes(hs[j], hs[i]) && came(hs[i], hs[j])) {
      assert Stably(hs[i], hs[j], Before, came);
    }
  }

  // ------------------------------------------------------------------ claiming

  /** The spans of the granted ones among the first n. */
  ghost predicate ClaimsAre(hs: seq<Hit>, n: nat, claimed: seq<Span>)
    requires n <= |hs|
  {
    forall c :: c in claimed <==> exists i: nat :: i < n && Granted(hs, i) && c == Span(hs[i].start, hs[i].end)
  }

  ghost predicate Grants(hs: seq<Hit>, n: nat, i: int, zh: string)
    requires n <= |hs|
  {
    0 <= i < n && Granted(hs, i) && hs[i].term == zh
  }

  /** The last granted one of a term among the first n. */
  ghost predicate GrantsLast(hs: seq<Hit>, n: nat, i: int, zh: string)
    requires n <= |hs|
  {
    Grants(hs, n, i, zh) && forall j :: Grants(hs, n, j, zh) ==> j <= i
  }

  /** The terms of the granted ones among the first n, each with the rendering of its last. */
  ghost predicate RenderingsAre(hs: seq<Hit>, n: nat, out: map<string, string>)
    requires n <= |hs|
  {
    && (forall zh :: zh in out <==> exists i :: Grants(hs, n, i, zh))
    && forall zh, i :: GrantsLast(hs, n, i, zh) ==> zh in out && out[zh] == hs[i].rendering
  }

  lemma CoveredExact(hs: seq<Hit>, n: nat, claimed: seq<Span>)
    requires n < |hs| && ClaimsAre(hs, n, claimed)
    ensures Covered(hs[n], claimed) <==> !Granted(hs, n)
  {
    if Covered(hs[n], claimed) {
      var c :| c in claimed && hs[n].start < c.end && hs[n].end > c.start;
      var i: nat :| i < n && Granted(hs, i) && c == Span(hs[i].start, hs[i].end);
      assert Meet(hs[i], hs[n]);
    }
    if !Granted(hs, n) {
      var j: nat :| j < n && Granted(hs, j) && Meet(hs[j], hs[n]);
      assert Span(hs[j].start, hs[j].end) in claimed;
    }
  }

  lemma ClaimsNext(hs: seq<Hit>, n: nat, claimed: seq<Span>)
    requires n < |hs| && ClaimsAre(hs, n, claimed)
    ensures ClaimsAre(hs, n + 1, if Granted(hs, n) then claimed + [Span(hs[n].start, hs[n].end)] else claimed)
  {
    hide Granted;
    var next := if Granted(hs, n) then claimed + [Span(hs[n].start, hs[n].end)] else claimed;
    forall c ensures c in next <==> exists i: nat :: i < n + 1 && Granted(hs, i) && c == Span(hs[i].start, hs[i].end) {
      assert c in next <==> c in claimed || (Granted(hs, n) && c == Span(hs[n].start, hs[n].end));
    }
  }

  lemma GrantsNext(hs: seq<Hit>, n: nat, m: nat, i: int, zh: string)
    requires m == n + 1 <= |hs|
    ensures Grants(hs, m, i, zh) <==> Grants(hs, n, i, zh) || (i == n && Granted(hs, n) && hs[n].term == zh)
    ensures GrantsLast(hs, m, i, zh) ==>
      if Granted(hs, n) && hs[n].term == zh then i == n else GrantsLast(hs, n, i, zh)
  {
    hide Granted;
    if GrantsLast(hs, m, i, zh) {
      if Granted(hs, n) && hs[n].term == zh {
        assert Grants(hs, m, n, zh);
      } else {
        forall j | Grants(hs, n, j, zh) ensures j <= i {
          assert Grants(hs, m, j, zh);
        }
      }
    }
  }

  lemma RenderingsNext(hs: seq<Hit>, n: nat, m: nat, out: map<string, string>)
    requires m == n + 1 <= |hs| && RenderingsAre(hs, n, out)
    ensures RenderingsAre(hs, m, if Granted(hs, n) then out[hs[n].term := hs[n].rendering] else out)
  {
    hide Granted;
    var next := if Granted(hs, n) then out[hs[n].term := hs[n].rendering] else out;
    forall zh ensures zh in next <==> exists i :: Grants(hs, m, i, zh) {
      forall i
        ensures Grants(hs, m, i, zh) <==> Grants(hs, n, i, zh) || (i == n && Granted(hs, n) && hs[n].term == zh) {
        GrantsNext(hs, n, m, i, zh);
      }
      assert Grants(hs, m, n, zh) <==> Granted(hs, n) && hs[n].term == zh;
    }
    forall zh, i | GrantsLast(hs, m, i, zh) ensures zh in next && next[zh] == hs[i].rendering {
      GrantsNext(hs, n, m, i, zh);
    }
  }

  lemma {:induction false} ClaimsFrom(hs: seq<Hit>, n: nat, claimed: seq<Span>, out: map<string, string>)
    requires n <= |hs| && ClaimsAre(hs, n, claimed) && RenderingsAre(hs, n, out)
    ensures ClaimsAre(hs, |hs|, ClaimFrom(hs[n..], claimed))
    ensures RenderingsAre(hs, |hs|, ApplyFrom(hs[n..], claimed, out))
    decreases |hs| - n
  {
    hide Covered, Granted, ClaimsAre, RenderingsAre;
    if n < |hs| {
      assert hs[n..][0] == hs[n] && hs[n..][1..] == hs[n + 1..];
      CoveredExact(hs, n, claimed);
      ClaimsNext(hs, n, claimed);
      RenderingsNext(hs, n, n + 1, out);
      if Granted(hs, n) {
        ClaimsFrom(hs, n + 1, claimed + [Span(hs[n].start, hs[n].end)], out[hs[n].term := hs[n].rendering]);
      } else {
        ClaimsFrom(hs, n + 1, claimed, out);
      }
    } else {
      assert hs[n..] == [];
    }
  }

  /** The spans claimed are those of the granted occurrences, and the terms applicable are those with a granted one,
      each with the rendering of its last. */
  lemma ApplicableExact(terms: seq<Term>)
    ensures ClaimsAre(Ordered(terms), |Ordered(terms)|, Claimed(terms))
    ensures RenderingsAre(Ordered(terms), |Ordered(terms)|, Applicable(terms))
  {
    hide Ordered, ClaimFrom, ApplyFrom;
    var hs := Ordered(terms);
    NothingClaimed(hs);
    ClaimsFrom(hs, 0, [], map[]);
    assert hs[0..] == hs;
  }

  lemma NothingClaimed(hs: seq<Hit>)
    ensures ClaimsAre(hs, 0, []) && RenderingsAre(hs, 0, map[])
  {
  }
}
