/** Which glossary terms a source string is subject to: longest match claims its span
    (gate_checks.py `term_in_text`, `term_spans`, `applicable_terms`; glossary.py `locked_map`, `brief_for`). */
module TermSelection {
  import opened StableSort

  // ------------------------------------------------------------ span producer

  datatype Span = Span(start: nat, end: nat)

  predicate AsciiWord(c: char) {
    '0' <= c <= '9' || 'A' <= c <= 'Z' || 'a' <= c <= 'z'
  }

  /** The lowered term stands at i; a term edge that is a Latin letter or digit has no such neighbour. */
  predicate MatchAt(term: string, text: string, i: nat) {
    && i + |term| <= |text| && text[i..i + |term|] == term
    && (term != [] && AsciiWord(term[0]) && i > 0 ==> !AsciiWord(text[i - 1]))
    && (term != [] && AsciiWord(term[|term| - 1]) && i + |term| < |text| ==> !AsciiWord(text[i + |term|]))
  }

  /** A Latin letter or digit of a term edge has no neighbour of that kind. */
  ghost predicate EdgeFree(edge: char, neighbour: char) {
    ('0' <= edge <= '9' || 'A' <= edge <= 'Z' || 'a' <= edge <= 'z') ==>
      !('0' <= neighbour <= '9') && !('A' <= neighbour <= 'Z') && !('a' <= neighbour <= 'z')
  }

  /** The term stands between those two texts, free of them at both edges. */
  ghost predicate StandsBetween(term: string, text: string, before: string, behind: string) {
    && text == before + (term + behind)
    && (term != [] && before != [] ==> EdgeFree(term[0], before[|before| - 1]))
    && (term != [] && behind != [] ==> EdgeFree(term[|term| - 1], behind[0]))
  }

  /** What a match is, in terms of the text around it. */
  lemma MatchExact(term: string, text: string, i: nat)
    ensures MatchAt(term, text, i) <==> exists a, b :: |a| == i && StandsBetween(term, text, a, b)
  {
    if MatchAt(term, text, i) {
      var a, b := text[..i], text[i + |term|..];
      assert text == a + (term + b);
      assert StandsBetween(term, text, a, b);
    }
  }

  /** `re.finditer`: leftmost matches, each search starting behind the previous match. */
  function SpansFrom(term: string, text: string, i: nat): seq<Span>
    decreases |text| + 1 - i
  {
    if i > |text| then []
    else if MatchAt(term, text, i) then
      [Span(i, i + |term|)] + SpansFrom(term, text, if term == [] then i + 1 else i + |term|)
    else SpansFrom(term, text, i + 1)
  }

  function TermSpans(term: string, text: string): seq<Span> {
    SpansFrom(term, text, 0)
  }

  predicate TermInText(term: string, text: string) {
    exists i: nat :: i <= |text| && MatchAt(term, text, i)
  }

  lemma {:induction false} SpansSound(term: string, text: string, i: nat)
    ensures var ss := SpansFrom(term, text, i);
      && (forall s :: s in ss ==> i <= s.start && s.end == s.start + |term| && MatchAt(term, text, s.start))
      && (forall a, b :: 0 <= a < b < |ss| ==> ss[a].end <= ss[b].start)
    decreases |text| + 1 - i
  {
    hide MatchAt;
    if i <= |text| {
      SpansSound(term, text, if !MatchAt(term, text, i) || term == [] then i + 1 else i + |term|);
    }
  }

  lemma {:induction false} SpansComplete(term: string, text: string, i: nat, j: nat)
    requires i <= j <= |text| && MatchAt(term, text, j)
    ensures exists s :: s in SpansFrom(term, text, i) && s.start <= j && (s.start == j || j < s.end)
    decreases |text| + 1 - i
  {
    hide MatchAt;
    var ss := SpansFrom(term, text, i);
    if MatchAt(term, text, i) {
      var next := if term == [] then i + 1 else i + |term|;
      assert ss[0] == Span(i, i + |term|) && ss[1..] == SpansFrom(term, text, next);
      if j < next {
        assert ss[0] in ss;
      } else {
        SpansComplete(term, text, next, j);
        var s :| s in SpansFrom(term, text, next) && s.start <= j && (s.start == j || j < s.end);
        assert s in ss;
      }
    } else {
      SpansComplete(term, text, i + 1, j);
    }
  }

  /** Every span is a guarded occurrence, spans do not overlap, and every guarded occurrence is a span or
      starts inside one; so a term has spans exactly when it is in the text. */
  lemma TermSpansExact(term: string, text: string)
    ensures var ss := TermSpans(term, text);
      && (forall s :: s in ss ==> s.end == s.start + |term| && MatchAt(term, text, s.start))
      && (forall a, b :: 0 <= a < b < |ss| ==> ss[a].end <= ss[b].start)
      && (forall j: nat :: j <= |text| && MatchAt(term, text, j)
            ==> exists s :: s in ss && s.start <= j && (s.start == j || j < s.end))
      && (ss != [] <==> TermInText(term, text))
  {
    hide MatchAt;
    SpansSound(term, text, 0);
    var ss := TermSpans(term, text);
    forall j: nat | j <= |text| && MatchAt(term, text, j)
      ensures exists s :: s in ss && s.start <= j && (s.start == j || j < s.end)
    {
      SpansComplete(term, text, 0, j);
    }
    if ss != [] {
      assert ss[0] in ss;
      InText(term, text, ss[0].start);
    }
  }

  lemma InText(term: string, text: string, i: nat)
    requires MatchAt(term, text, i)
    ensures TermInText(term, text)
  {
  }

  // ---------------------------------------------------------------- selection

  /** A glossary term with its rendering and the spans found for it in the text. */
  datatype Term = Term(term: string, rendering: string, spans: seq<Span>)

  datatype Hit = Hit(term: string, rendering: string, start: nat, end: nat)

  /** The sort key: longer match first, then longer term, then leftmost. */
  predicate Before(a: Hit, b: Hit) {
    var la, lb := a.end - a.start, b.end - b.start;
    la > lb || (la == lb && (|a.term| > |b.term| || (|a.term| == |b.term| && a.start <= b.start)))
  }

  function HitsOf(t: Term, spans: seq<Span>): seq<Hit> {
    if spans == [] then [] else [Hit(t.term, t.rendering, spans[0].start, spans[0].end)] + HitsOf(t, spans[1..])
  }

  function Candidates(terms: seq<Term>): seq<Hit> {
    if terms == [] then [] else HitsOf(terms[0], terms[0].spans) + Candidates(terms[1..])
  }

  predicate Covered(h: Hit, claimed: seq<Span>) {
    exists c :: c in claimed && h.start < c.end && h.end > c.start
  }

  function ClaimFrom(hs: seq<Hit>, claimed: seq<Span>): seq<Span>
    decreases |hs|
  {
    if hs == [] then claimed
    else ClaimFrom(hs[1..], if Covered(hs[0], claimed) then claimed else claimed + [Span(hs[0].start, hs[0].end)])
  }

  function ApplyFrom(hs: seq<Hit>, claimed: seq<Span>, out: map<string, string>): map<string, string>
    decreases |hs|
  {
    if hs == [] then out
    else if Covered(hs[0], claimed) then ApplyFrom(hs[1..], claimed, out)
    else ApplyFrom(hs[1..], claimed + [Span(hs[0].start, hs[0].end)], out[hs[0].term := hs[0].rendering])
  }

  function Ordered(terms: seq<Term>): seq<Hit> {
    Sort(Candidates(terms), Before)
  }

  function Claimed(terms: seq<Term>): seq<Span> {
    ClaimFrom(Ordered(terms), [])
  }

  function Applicable(terms: seq<Term>): map<string, string> {
    ApplyFrom(Ordered(terms), [], map[])
  }

  method Collect(terms: seq<Term>) returns (candidates: seq<Hit>)
    ensures candidates == Candidates(terms)
  {
    hide HitsOf, Candidates;
    candidates := [];
    assert terms[0..] == terms && [] + Candidates(terms) == Candidates(terms);
    for i := 0 to |terms|
      invariant candidates + Candidates(terms[i..]) == Candidates(terms)
    {
      var hits := CollectSpans(terms[i]);
      CandidatesFrom(terms, i, candidates);
      candidates := candidates + hits;
    }
    CandidatesDone(terms, candidates);
  }

  method CollectSpans(t: Term) returns (hits: seq<Hit>)
    ensures hits == HitsOf(t, t.spans)
  {
    hits := [];
    assert t.spans[0..] == t.spans;
    for j := 0 to |t.spans|
      invariant hits + HitsOf(t, t.spans[j..]) == HitsOf(t, t.spans)
    {
      assert t.spans[j..][1..] == t.spans[j + 1..];
      hits := hits + [Hit(t.term, t.rendering, t.spans[j].start, t.spans[j].end)];
    }
  }

  lemma CandidatesFrom(terms: seq<Term>, i: nat, before: seq<Hit>)
    requires i < |terms|
    ensures before + Candidates(terms[i..]) == (before + HitsOf(terms[i], terms[i].spans)) + Candidates(terms[i + 1..])
  {
    hide HitsOf;
    assert terms[i..][0] == terms[i] && terms[i..][1..] == terms[i + 1..];
  }

  lemma CandidatesDone(terms: seq<Term>, candidates: seq<Hit>)
    ensures candidates + Candidates(terms[|terms|..]) == candidates
  {
  }

  /** `applicable_terms`, with the spans of each term already found. */
  method ApplicableTerms(terms: seq<Term>) returns (applicable: map<string, string>, claimed: seq<Span>)
    ensures applicable == Applicable(terms) && claimed == Claimed(terms)
  {
    hide Covered, Sort;
    var candidates := Collect(terms);
    var ordered := Sort(candidates, Before);
    applicable, claimed := map[], [];
    assert ordered[0..] == ordered;
    for i := 0 to |ordered|
      invariant ClaimFrom(ordered[i..], claimed) == Claimed(terms)
      invariant ApplyFrom(ordered[i..], claimed, applicable) == Applicable(terms)
    {
      var h := ordered[i];
      assert ordered[i..][0] == h && ordered[i..][1..] == ordered[i + 1..];
      if Covered(h, claimed) {
        continue;
      }
      claimed := claimed + [Span(h.start, h.end)];
      applicable := applicable[h.term := h.rendering];
    }
  }

  // -------------------------------------------------------------- properties

  predicate Apart(a: Span, b: Span) {
    !(a.start < b.end && a.end > b.start)
  }

  predicate AllApart(cs: seq<Span>) {
    forall i, j :: 0 <= i < j < |cs| ==> Apart(cs[i], cs[j])
  }

  lemma {:induction false} ClaimsApart(hs: seq<Hit>, claimed: seq<Span>)
    requires AllApart(claimed)
    ensures AllApart(ClaimFrom(hs, claimed)) && claimed <= ClaimFrom(hs, claimed)
    decreases |hs|
  {
    if hs != [] {
      if Covered(hs[0], claimed) {
        ClaimsApart(hs[1..], claimed);
      } else {
        var c := Span(hs[0].start, hs[0].end);
        forall i | 0 <= i < |claimed| ensures Apart(claimed[i], c) {
          assert claimed[i] in claimed;
        }
        ClaimsApart(hs[1..], claimed + [c]);
      }
    }
  }

  /** Claimed spans are pairwise disjoint. */
  lemma ClaimedDisjoint(terms: seq<Term>)
    ensures AllApart(Claimed(terms))
  {
    ClaimsApart(Ordered(terms), []);
  }

  lemma BeforeIsPreorder()
    ensures TotalPreorder(Before)
  {
  }

  /** A hit is resolved: its own span is claimed, or it overlaps a claimed span at least as long. */
  predicate Resolved(h: Hit, claimed: seq<Span>) {
    || Span(h.start, h.end) in claimed
    || exists c :: c in claimed && h.start < c.end && h.end > c.start && c.end - c.start >= h.end - h.start
  }

  lemma ResolvedGrows(h: Hit, a: seq<Span>, b: seq<Span>)
    requires Resolved(h, a) && a <= b
    ensures Resolved(h, b)
  {
  }

  lemma {:induction false} HitsResolve(hs: seq<Hit>, claimed: seq<Span>, h: Hit)
    requires AllApart(claimed) && Sorted(hs, Before) && h in hs
    requires forall c, g :: c in claimed && g in hs ==> c.end - c.start >= g.end - g.start
    ensures Resolved(h, ClaimFrom(hs, claimed))
    decreases |hs|
  {
    var f := hs[0];
    var next := if Covered(f, claimed) then claimed else claimed + [Span(f.start, f.end)];
    ClaimsApart(hs, claimed);
    if h == f {
      if Covered(f, claimed) {
        assert Resolved(h, claimed);
        ResolvedGrows(h, claimed, ClaimFrom(hs, claimed));
      } else {
        ClaimsApart([f], claimed);
        assert AllApart(next) by {
          assert [f][1..] == [];
          assert ClaimFrom([f], claimed) == next;
        }
        ClaimsApart(hs[1..], next);
        assert next[|claimed|] == Span(h.start, h.end);
        ResolvedGrows(h, next, ClaimFrom(hs, claimed));
      }
    } else {
      assert h in hs[1..];
      assert AllApart(next) by {
        ClaimsApart([f], claimed);
        assert [f][1..] == [];
        assert ClaimFrom([f], claimed) == next;
      }
      forall c, g | c in next && g in hs[1..] ensures c.end - c.start >= g.end - g.start {
        if c !in claimed {
          var j :| 0 <= j < |hs[1..]| && hs[1..][j] == g;
          assert Before(hs[0], hs[j + 1]);
        }
      }
      HitsResolve(hs[1..], next, h);
    }
  }

  /** Longest match wins: every occurrence of a term is claimed or overlaps a claimed span at least as long. */
  lemma LongestMatchWins(terms: seq<Term>, h: Hit)
    requires h in Candidates(terms)
    ensures Resolved(h, Claimed(terms))
  {
    BeforeIsPreorder();
    SortSorts(Candidates(terms), Before);
    SameElements(Candidates(terms), Ordered(terms));
    HitsResolve(Ordered(terms), [], h);
  }

  // -------------------------------------------------- independence of map order

  lemma {:induction false} CandidatesConcat(a: seq<Term>, b: seq<Term>)
    ensures Candidates(a + b) == Candidates(a) + Candidates(b)
  {
    if a == [] {
      assert a + b == b;
    } else {
      assert (a + b)[1..] == a[1..] + b;
      CandidatesConcat(a[1..], b);
    }
  }

  /** The same terms in another order have the same occurrences. */
  lemma {:induction false} CandidatesPermute(a: seq<Term>, b: seq<Term>)
    requires multiset(a) == multiset(b)
    ensures multiset(Candidates(a)) == multiset(Candidates(b))
  {
    SameElements(a, b);
    if a != [] {
      hide HitsOf;
      Behead(a);
      var i := TakeOut(b, a[0]);
      CandidatesPermute(a[1..], b[..i] + b[i + 1..]);
      CandidatesSplit(b[..i], b[i], b[i + 1..]);
    }
  }

  lemma CandidatesSplit(x: seq<Term>, t: Term, y: seq<Term>)
    ensures multiset(Candidates(x + ([t] + y))) == multiset(HitsOf(t, t.spans)) + multiset(Candidates(x + y))
  {
    CandidatesConcat(x, [t] + y);
    CandidatesConcat([t], y);
    CandidatesConcat(x, y);
    assert [t][1..] == [];
    assert Candidates([t]) == HitsOf(t, t.spans) + [];
  }

  /** What the claimed spans depend on: the key of a hit. */
  datatype Key = Key(len: int, termLen: nat, start: nat)

  function KeyOf(h: Hit): Key {
    Key(h.end - h.start, |h.term|, h.start)
  }

  predicate KeyBefore(a: Key, b: Key) {
    a.len > b.len || (a.len == b.len && (a.termLen > b.termLen || (a.termLen == b.termLen && a.start <= b.start)))
  }

  function Keys(hs: seq<Hit>): seq<Key> {
    seq(|hs|, i requires 0 <= i < |hs| => KeyOf(hs[i]))
  }

  lemma KeysConcat(a: seq<Hit>, h: Hit, b: seq<Hit>)
    ensures multiset(Keys(a + ([h] + b))) == multiset{KeyOf(h)} + multiset(Keys(a + b))
  {
    assert Keys(a + ([h] + b)) == Keys(a) + ([KeyOf(h)] + Keys(b));
    assert Keys(a + b) == Keys(a) + Keys(b);
  }

  /** The two orders with the first element of the one taken out of both. */
  lemma DrawFirst(a: seq<Hit>, b: seq<Hit>) returns (i: nat, rest: seq<Hit>)
    requires multiset(a) == multiset(b) && a != []
    ensures i < |b| && b == b[..i] + ([a[0]] + b[i + 1..]) && rest == b[..i] + b[i + 1..]
    ensures multiset(a[1..]) == multiset(rest)
  {
    SameElements(a, b);
    Behead(a);
    i := TakeOut(b, a[0]);
    rest := b[..i] + b[i + 1..];
  }

  lemma {:induction false} KeysPermute(a: seq<Hit>, b: seq<Hit>)
    requires multiset(a) == multiset(b)
    ensures multiset(Keys(a)) == multiset(Keys(b))
  {
    hide Keys, KeyOf;
    if a == [] {
      SameElements(a, b);
      assert a == b;
    } else {
      var i, rest := DrawFirst(a, b);
      KeysPermute(a[1..], rest);
      KeysConcat(b[..i], a[0], b[i + 1..]);
      KeysConcat([], a[0], a[1..]);
      assert [] + ([a[0]] + a[1..]) == a && [] + a[1..] == a[1..];
    }
  }

  lemma {:induction false} ClaimByKeys(a: seq<Hit>, b: seq<Hit>, claimed: seq<Span>)
    requires Keys(a) == Keys(b)
    ensures ClaimFrom(a, claimed) == ClaimFrom(b, claimed)
    decreases |a|
  {
    assert |Keys(a)| == |a| && |Keys(b)| == |b|;
    if a != [] {
      assert Keys(a)[0] == KeyOf(a[0]) && Keys(b)[0] == KeyOf(b[0]);
      assert Keys(a[1..]) == Keys(a)[1..] && Keys(b[1..]) == Keys(b)[1..];
      assert a[0].start == b[0].start && a[0].end == b[0].end;
      var next := if Covered(a[0], claimed) then claimed else claimed + [Span(a[0].start, a[0].end)];
      ClaimByKeys(a[1..], b[1..], next);
    }
  }

  /** The claimed spans are the same for every order of the term map: hits that tie share one span. */
  lemma ClaimedOrderFree(a: seq<Term>, b: seq<Term>)
    requires multiset(a) == multiset(b)
    ensures Claimed(a) == Claimed(b)
  {
    CandidatesPermute(a, b);
    BeforeIsPreorder();
    SortSorts(Candidates(a), Before);
    SortSorts(Candidates(b), Before);
    var x, y := Ordered(a), Ordered(b);
    KeysPermute(x, y);
    KeysSorted(x);
    KeysSorted(y);
    SortedUnique(Keys(x), Keys(y), KeyBefore);
    ClaimByKeys(x, y, []);
  }

  lemma KeysSorted(hs: seq<Hit>)
    requires Sorted(hs, Before)
    ensures Sorted(Keys(hs), KeyBefore)
  {
  }

  /** No two different occurrences tie on the sort key. */
  predicate NoTies(terms: seq<Term>) {
    forall g, h :: g in Candidates(terms) && h in Candidates(terms) && KeyOf(g) == KeyOf(h) ==> g == h
  }

  /** Without ties the applicable terms do not depend on the order of the term map either. */
  lemma ApplicableOrderFree(a: seq<Term>, b: seq<Term>)
    requires multiset(a) == multiset(b) && NoTies(a)
    ensures Applicable(a) == Applicable(b)
  {
    hide Candidates, Sort, TotalPreorder, Sorted;
    CandidatesPermute(a, b);
    BeforeIsPreorder();
    SortSorts(Candidates(a), Before);
    SortSorts(Candidates(b), Before);
    SameElements(Candidates(a), Ordered(a));
    SortedUnique(Ordered(a), Ordered(b), Before);
  }

  /** With a tie the order does matter: the term that comes first takes the shared span. */
  lemma TieFollowsOrder(start: nat)
    ensures var x, y := Term("BOSS", "Chief", [Span(start, start + 4)]), Term("Boss", "Lead", [Span(start, start + 4)]);
      "BOSS" in Applicable([x, y]) && "BOSS" !in Applicable([y, x])
  {
    var s := Span(start, start + 4);
    TwoTied("BOSS", "Chief", "Boss", "Lead", s);
    TwoTied("Boss", "Lead", "BOSS", "Chief", s);
    assert "BOSS"[1] != "Boss"[1];
  }

  lemma TwoTied(a: string, ra: string, b: string, rb: string, s: Span)
    requires |a| == |b| && s.start < s.end
    ensures Applicable([Term(a, ra, [s]), Term(b, rb, [s])]) == map[a := ra]
  {
    var x, y := Hit(a, ra, s.start, s.end), Hit(b, rb, s.start, s.end);
    var t := [Term(a, ra, [s]), Term(b, rb, [s])];
    assert HitsOf(t[0], [s]) == [x] + HitsOf(t[0], [s][1..]) && HitsOf(t[1], [s]) == [y] + HitsOf(t[1], [s][1..]);
    assert t[1..] == [t[1]] && [t[1]][1..] == [];
    assert Candidates([t[1]]) == [y];
    assert Candidates(t) == [x, y];
    assert [x, y][1..] == [y] && [y][1..] == [];
    assert Sort([y], Before) == [y];
    assert Sort([x, y], Before) == [x, y];
    assert [] + [s] == [s];
    assert Covered(y, [s]) by {
      assert s in [s];
    }
    assert ApplyFrom([y], [s], map[a := ra]) == map[a := ra];
  }

  // ------------------------------------------------------- the hits that claim

  /** The hits that claim their span, in order. */
  function Taken(hs: seq<Hit>, claimed: seq<Span>): seq<Hit>
    decreases |hs|
  {
    if hs == [] then []
    else if Covered(hs[0], claimed) then Taken(hs[1..], claimed)
    else [hs[0]] + Taken(hs[1..], claimed + [Span(hs[0].start, hs[0].end)])
  }

  lemma {:induction false} TakenAreHits(hs: seq<Hit>, claimed: seq<Span>)
    ensures forall h :: h in Taken(hs, claimed) ==> h in hs
    decreases |hs|
  {
    hide Covered;
    if hs != [] {
      assert hs[0] in hs && forall h :: h in hs[1..] ==> h in hs;
      TakenAreHits(hs[1..], claimed);
      TakenAreHits(hs[1..], claimed + [Span(hs[0].start, hs[0].end)]);
    }
  }

  /** The applicable terms are those of the hits that claim, with their renderings. */
  lemma {:induction false} AppliedAreTaken(hs: seq<Hit>, claimed: seq<Span>, out: map<string, string>, t: string)
    ensures t in ApplyFrom(hs, claimed, out) <==> t in out || exists h :: h in Taken(hs, claimed) && h.term == t
    ensures t in ApplyFrom(hs, claimed, out) && t !in out ==>
      exists h :: h in Taken(hs, claimed) && h.term == t && h.rendering == ApplyFrom(hs, claimed, out)[t]
    ensures t in out && t in ApplyFrom(hs, claimed, out) ==>
      ApplyFrom(hs, claimed, out)[t] == out[t]
      || exists h :: h in Taken(hs, claimed) && h.term == t && h.rendering == ApplyFrom(hs, claimed, out)[t]
    decreases |hs|
  {
    hide Covered;
    if hs != [] {
      var f, next := hs[0], claimed + [Span(hs[0].start, hs[0].end)];
      if Covered(f, claimed) {
        AppliedAreTaken(hs[1..], claimed, out, t);
      } else {
        AppliedAreTaken(hs[1..], next, out[f.term := f.rendering], t);
        var rest := Taken(hs[1..], next);
        assert Taken(hs, claimed)[0] == f && forall h :: h in Taken(hs, claimed) <==> h == f || h in rest;
      }
    }
  }

  lemma ApplicableAreTaken(terms: seq<Term>, t: string)
    ensures t in Applicable(terms) <==> exists h :: h in Taken(Ordered(terms), []) && h.term == t
    ensures t in Applicable(terms) ==>
      exists h :: h in Taken(Ordered(terms), []) && h.term == t && h.rendering == Applicable(terms)[t]
  {
    hide Taken, ApplyFrom, Ordered;
    AppliedAreTaken(Ordered(terms), [], map[], t);
  }

  lemma OrderedAreCandidates(terms: seq<Term>)
    ensures multiset(Ordered(terms)) == multiset(Candidates(terms))
    ensures Sorted(Ordered(terms), Before) && forall h :: h in Ordered(terms) <==> h in Candidates(terms)
  {
    hide Candidates, Sort;
    BeforeIsPreorder();
    SortSorts(Candidates(terms), Before);
    SameElements(Candidates(terms), Ordered(terms));
  }

  lemma {:induction false} HitTerms(t: Term, spans: seq<Span>)
    ensures forall h :: h in HitsOf(t, spans) ==> h.term == t.term && h.rendering == t.rendering
  {
    if spans != [] {
      HitTerms(t, spans[1..]);
    }
  }

  /** Every candidate comes from a term of its name and rendering. */
  lemma {:induction false} CandidateFrom(terms: seq<Term>, h: Hit)
    requires h in Candidates(terms)
    ensures exists x :: x in terms && x.term == h.term && x.rendering == h.rendering
  {
    hide HitsOf;
    HitTerms(terms[0], terms[0].spans);
    if h in HitsOf(terms[0], terms[0].spans) {
      assert terms[0] in terms;
    } else {
      CandidateFrom(terms[1..], h);
      var x :| x in terms[1..] && x.term == h.term && x.rendering == h.rendering;
      assert x in terms;
    }
  }
}
