/** When the choice of `applicable_terms` depends on the order of the term map (gate_checks.py:214-251): terms that
    tie on the sort key at a claimed span. */
module TermTies {
  import opened StableSort
  import opened TermSelection

  // ------------------------------------------------------------- stable first

  predicate HasKey(hs: seq<Hit>, k: Key) {
    exists h :: h in hs && KeyOf(h) == k
  }

  /** The first hit with a key. */
  function First(hs: seq<Hit>, k: Key): (h: Hit)
    requires HasKey(hs, k)
    ensures h in hs && KeyOf(h) == k
  {
    if KeyOf(hs[0]) == k then hs[0] else First(hs[1..], k)
  }

  lemma {:induction false} InsertFirst(x: Hit, s: seq<Hit>, k: Key)
    ensures HasKey(Insert(x, s, Before), k) <==> KeyOf(x) == k || HasKey(s, k)
    ensures HasKey(Insert(x, s, Before), k) ==>
      First(Insert(x, s, Before), k) == if KeyOf(x) == k then x else First(s, k)
  {
    hide KeyOf;
    if s == [] {
    } else if Before(x, s[0]) {
      assert ([x] + s)[1..] == s && x in [x] + s && forall h :: h in s ==> h in [x] + s;
    } else {
      SameKeyTies(x, s[0]);
      InsertFirst(x, s[1..], k);
      var r := Insert(x, s[1..], Before);
      assert ([s[0]] + r)[1..] == r;
      assert forall h :: h in [s[0]] + r <==> h == s[0] || h in r;
      assert forall h :: h in s <==> h == s[0] || h in s[1..];
    }
  }

  lemma SameKeyTies(a: Hit, b: Hit)
    ensures KeyOf(a) == KeyOf(b) ==> Before(a, b)
  {
  }

  /** The sort is stable: among the hits that tie the first one stays first. */
  lemma {:induction false} SortFirst(s: seq<Hit>, k: Key)
    ensures HasKey(Sort(s, Before), k) <==> HasKey(s, k)
    ensures HasKey(s, k) ==> First(Sort(s, Before), k) == First(s, k)
  {
    hide Insert, KeyOf;
    if s != [] {
      SortFirst(s[1..], k);
      InsertFirst(s[0], Sort(s[1..], Before), k);
      assert forall h :: h in s <==> h == s[0] || h in s[1..];
    }
  }

  // ---------------------------------------------------------------- who claims

  lemma CoveredByKey(a: Hit, b: Hit, claimed: seq<Span>)
    requires KeyOf(a) == KeyOf(b)
    ensures Covered(a, claimed) == Covered(b, claimed) && Span(a.start, a.end) == Span(b.start, b.end)
  {
    assert a.start == b.start && a.end == b.end;
  }

  lemma {:induction false} CoveredStays(hs: seq<Hit>, claimed: seq<Span>, h: Hit)
    requires Covered(h, claimed)
    ensures forall g :: g in Taken(hs, claimed) ==> KeyOf(g) != KeyOf(h)
    decreases |hs|
  {
    if hs != [] {
      if KeyOf(hs[0]) == KeyOf(h) {
        CoveredByKey(hs[0], h, claimed);
      }
      if Covered(hs[0], claimed) {
        CoveredStays(hs[1..], claimed, h);
      } else {
        var c :| c in claimed && h.start < c.end && h.end > c.start;
        assert c in claimed + [Span(hs[0].start, hs[0].end)];
        CoveredStays(hs[1..], claimed + [Span(hs[0].start, hs[0].end)], h);
      }
    }
  }

  /** Of the hits that tie on a span with text in it, only the first can claim. */
  lemma {:induction false} TakenIsFirst(hs: seq<Hit>, claimed: seq<Span>, g: Hit)
    requires g in Taken(hs, claimed) && g.start < g.end
    ensures HasKey(hs, KeyOf(g)) && g == First(hs, KeyOf(g))
    decreases |hs|
  {
    hide KeyOf, Covered;
    TakenAreHits(hs, claimed);
    var f, next := hs[0], claimed + [Span(hs[0].start, hs[0].end)];
    if KeyOf(f) == KeyOf(g) {
      if Covered(f, claimed) {
        CoveredStays(hs[1..], claimed, f);
      } else if g != f {
        CoversItself(f, g, claimed);
        CoveredStays(hs[1..], next, f);
      }
    } else if Covered(f, claimed) {
      TakenIsFirst(hs[1..], claimed, g);
    } else {
      TakenIsFirst(hs[1..], next, g);
    }
  }

  lemma CoversItself(f: Hit, g: Hit, claimed: seq<Span>)
    requires KeyOf(f) == KeyOf(g) && g.start < g.end
    ensures Covered(f, claimed + [Span(f.start, f.end)])
  {
    assert Span(f.start, f.end) in claimed + [Span(f.start, f.end)];
  }

  predicate AllEmpty(hs: seq<Hit>) {
    forall h :: h in hs ==> h.end <= h.start
  }

  lemma EmptyCoversNot(h: Hit, f: Hit, claimed: seq<Span>)
    requires h.end <= h.start && f.end <= f.start
    ensures Covered(h, claimed + [Span(f.start, f.end)]) == Covered(h, claimed)
  {
    assert forall c :: c in claimed + [Span(f.start, f.end)] <==> c in claimed || c == Span(f.start, f.end);
  }

  /** Empty spans cover no empty span, so each claims on its own. */
  lemma {:induction false} EmptyTaken(hs: seq<Hit>, claimed: seq<Span>, h: Hit)
    requires AllEmpty(hs) && h in hs
    ensures h in Taken(hs, claimed) <==> !Covered(h, claimed)
    decreases |hs|
  {
    hide Covered;
    var f, next := hs[0], claimed + [Span(hs[0].start, hs[0].end)];
    assert f in hs && forall g :: g in hs[1..] ==> g in hs;
    EmptyCoversNot(h, f, claimed);
    if h in hs[1..] {
      EmptyTaken(hs[1..], claimed, h);
      EmptyTaken(hs[1..], next, h);
    } else {
      TakenAreHits(hs[1..], claimed);
    }
  }

  /** Hits that tie on an empty span all claim, or none does. */
  lemma {:induction false} EmptyTieShared(hs: seq<Hit>, claimed: seq<Span>, g: Hit, h: Hit)
    requires Sorted(hs, Before) && g in Taken(hs, claimed) && h in hs && KeyOf(g) == KeyOf(h) && g.end <= g.start
    ensures h in Taken(hs, claimed)
    decreases |hs|
  {
    TakenAreHits(hs, claimed);
    var f, next := hs[0], claimed + [Span(hs[0].start, hs[0].end)];
    if f.end <= f.start {
      forall x | x in hs ensures x.end <= x.start {
        HeadIsLeast(hs, Before, x);
      }
      EmptyTaken(hs, claimed, g);
      EmptyTaken(hs, claimed, h);
      CoveredByKey(g, h, claimed);
    } else {
      assert h in hs[1..] && g != f;
      EmptyTieShared(hs[1..], if Covered(f, claimed) then claimed else next, g, h);
    }
  }

  // ------------------------------------------------- what does not depend on order

  /** A hit with this key claims its span. */
  predicate ClaimedKey(terms: seq<Term>, k: Key) {
    HasKey(Taken(Ordered(terms), []), k)
  }

  /** The term has a hit with this key. */
  predicate AtKey(terms: seq<Term>, t: string, k: Key) {
    exists h :: h in Candidates(terms) && h.term == t && KeyOf(h) == k
  }

  lemma {:induction false} TakenByKeys(a: seq<Hit>, b: seq<Hit>, claimed: seq<Span>)
    requires Keys(a) == Keys(b)
    ensures Keys(Taken(a, claimed)) == Keys(Taken(b, claimed))
    decreases |a|
  {
    assert |Keys(a)| == |a| && |Keys(b)| == |b|;
    if a != [] {
      hide KeyOf, Covered;
      assert Keys(a)[0] == KeyOf(a[0]) && Keys(b)[0] == KeyOf(b[0]);
      assert Keys(a[1..]) == Keys(a)[1..] && Keys(b[1..]) == Keys(b)[1..];
      CoveredByKey(a[0], b[0], claimed);
      if Covered(a[0], claimed) {
        TakenByKeys(a[1..], b[1..], claimed);
      } else {
        var next := claimed + [Span(a[0].start, a[0].end)];
        TakenByKeys(a[1..], b[1..], next);
        KeysCons(a[0], Taken(a[1..], next));
        KeysCons(b[0], Taken(b[1..], next));
      }
    }
  }

  lemma KeysCons(h: Hit, hs: seq<Hit>)
    ensures Keys([h] + hs) == [KeyOf(h)] + Keys(hs)
  {
  }

  lemma HasKeyIn(hs: seq<Hit>, k: Key)
    ensures HasKey(hs, k) <==> k in Keys(hs)
  {
    if k in Keys(hs) {
      var i :| 0 <= i < |hs| && Keys(hs)[i] == k;
      assert hs[i] in hs;
    }
    if h :| h in hs && KeyOf(h) == k {
      var i :| 0 <= i < |hs| && hs[i] == h;
      assert Keys(hs)[i] == k;
    }
  }

  lemma SortedKeysAgree(a: seq<Term>, b: seq<Term>)
    requires multiset(a) == multiset(b)
    ensures Keys(Ordered(a)) == Keys(Ordered(b))
  {
    hide Candidates, Sort, Keys;
    CandidatesPermute(a, b);
    OrderedAreCandidates(a);
    OrderedAreCandidates(b);
    KeysPermute(Ordered(a), Ordered(b));
    KeysSorted(Ordered(a));
    KeysSorted(Ordered(b));
    SortedUnique(Keys(Ordered(a)), Keys(Ordered(b)), KeyBefore);
  }

  lemma KeyFactsOrderFree(a: seq<Term>, b: seq<Term>, t: string, k: Key)
    requires multiset(a) == multiset(b)
    ensures ClaimedKey(a, k) <==> ClaimedKey(b, k)
    ensures AtKey(a, t, k) <==> AtKey(b, t, k)
  {
    hide Candidates, Ordered, Taken, HasKey, KeyOf;
    SortedKeysAgree(a, b);
    TakenByKeys(Ordered(a), Ordered(b), []);
    HasKeyIn(Taken(Ordered(a), []), k);
    HasKeyIn(Taken(Ordered(b), []), k);
    CandidatesPermute(a, b);
    SameElements(Candidates(a), Candidates(b));
  }

  // ------------------------------------------------------------- the exact condition

  /** The term claims at this key whatever the order: it is alone there, or the span is empty and shared. */
  ghost predicate Secure(terms: seq<Term>, t: string, k: Key) {
    ClaimedKey(terms, k) && AtKey(terms, t, k) && (k.len <= 0 || forall u :: AtKey(terms, u, k) ==> u == t)
  }

  /** Every term that meets others at a claimed span claims some span of its own. */
  ghost predicate TiesHarmless(terms: seq<Term>) {
    forall t, k :: ClaimedKey(terms, k) && AtKey(terms, t, k) ==> exists j :: Secure(terms, t, j)
  }

  predicate DistinctTerms(terms: seq<Term>) {
    forall i, j :: 0 <= i < j < |terms| ==> terms[i].term != terms[j].term
  }

  ghost predicate OrderFree(terms: seq<Term>) {
    forall b: seq<Term> :: multiset(b) == multiset(terms) ==> Applicable(b) == Applicable(terms)
  }

  lemma SecureOrderFree(a: seq<Term>, b: seq<Term>, t: string, k: Key)
    requires multiset(a) == multiset(b) && Secure(a, t, k)
    ensures Secure(b, t, k)
  {
    hide ClaimedKey, AtKey;
    KeyFactsOrderFree(a, b, t, k);
    forall u | AtKey(b, u, k) ensures AtKey(a, u, k) {
      KeyFactsOrderFree(a, b, u, k);
    }
  }

  /** An applicable term has a claimed key; there it is the first in map order, or the span is empty. */
  lemma WonAt(terms: seq<Term>, t: string) returns (k: Key)
    requires t in Applicable(terms)
    ensures ClaimedKey(terms, k) && AtKey(terms, t, k) && HasKey(Candidates(terms), k)
    ensures k.len <= 0 || First(Candidates(terms), k).term == t
  {
    hide Candidates, Taken, Sort, First;
    ApplicableAreTaken(terms, t);
    var h :| h in Taken(Ordered(terms), []) && h.term == t;
    k := KeyOf(h);
    TakenAreHits(Ordered(terms), []);
    OrderedAreCandidates(terms);
    SortFirst(Candidates(terms), k);
    if k.len > 0 {
      TakenIsFirst(Ordered(terms), [], h);
    }
  }

  /** The first in map order at a claimed key claims there; at an empty span everyone does. */
  lemma FirstWins(terms: seq<Term>, t: string, k: Key)
    requires ClaimedKey(terms, k) && AtKey(terms, t, k) && HasKey(Candidates(terms), k)
    requires k.len <= 0 || First(Candidates(terms), k).term == t
    ensures t in Applicable(terms)
  {
    hide Candidates, Taken, Sort, First;
    var g :| g in Taken(Ordered(terms), []) && KeyOf(g) == k;
    var h :| h in Candidates(terms) && h.term == t && KeyOf(h) == k;
    OrderedAreCandidates(terms);
    SortFirst(Candidates(terms), k);
    if k.len > 0 {
      TakenIsFirst(Ordered(terms), [], g);
    } else {
      EmptyTieShared(Ordered(terms), [], g, h);
    }
    ApplicableAreTaken(terms, t);
  }

  lemma SecureWins(terms: seq<Term>, t: string, k: Key)
    requires Secure(terms, t, k)
    ensures t in Applicable(terms)
  {
    hide Candidates, ClaimedKey, First;
    var h :| h in Candidates(terms) && h.term == t && KeyOf(h) == k;
    assert HasKey(Candidates(terms), k);
    if k.len > 0 {
      assert AtKey(terms, First(Candidates(terms), k).term, k);
    }
    FirstWins(terms, t, k);
  }

  lemma {:induction false} FirstConcat(a: seq<Hit>, b: seq<Hit>, k: Key)
    ensures HasKey(a + b, k) <==> HasKey(a, k) || HasKey(b, k)
    ensures HasKey(a + b, k) ==> First(a + b, k) == if HasKey(a, k) then First(a, k) else First(b, k)
  {
    hide KeyOf;
    assert forall h :: h in a + b <==> h in a || h in b;
    if a == [] {
      assert a + b == b;
    } else {
      assert (a + b)[1..] == a[1..] + b;
      FirstConcat(a[1..], b, k);
    }
  }

  /** A term that comes first in the map claims at each of its claimed keys. */
  lemma FrontWins(x: Term, rest: seq<Term>, k: Key)
    requires ClaimedKey([x] + rest, k) && DistinctTerms([x] + rest) && AtKey([x] + rest, x.term, k)
    ensures x.term in Applicable([x] + rest)
  {
    hide ClaimedKey, HasKey, First, HitsOf, Candidates, Applicable;
    var own := HitsOf(x, x.spans);
    CandidatesSplitFront(x, rest);
    var h :| h in Candidates([x] + rest) && h.term == x.term && KeyOf(h) == k;
    DistinctNames(x, rest);
    if h in Candidates(rest) {
      NotAmong(x, rest, h);
    }
    FirstConcat(own, Candidates(rest), k);
    HasKeyOf(own, h);
    HitTerms(x, x.spans);
    FirstWins([x] + rest, x.term, k);
  }

  lemma HasKeyOf(hs: seq<Hit>, h: Hit)
    requires h in hs
    ensures HasKey(hs, KeyOf(h))
  {
  }

  lemma CandidatesSplitFront(x: Term, rest: seq<Term>)
    ensures Candidates([x] + rest) == HitsOf(x, x.spans) + Candidates(rest)
  {
    assert ([x] + rest)[1..] == rest;
  }

  lemma CandidatesSplitBack(x: Term, rest: seq<Term>)
    ensures Candidates(rest + [x]) == Candidates(rest) + HitsOf(x, x.spans)
  {
    CandidatesConcat(rest, [x]);
    CandidatesSplitFront(x, []);
    assert [x] + [] == [x] && HitsOf(x, x.spans) + Candidates([]) == HitsOf(x, x.spans);
  }

  predicate OtherNames(rest: seq<Term>, x: Term) {
    forall y :: y in rest ==> y.term != x.term
  }

  lemma DistinctNames(x: Term, rest: seq<Term>)
    ensures DistinctTerms([x] + rest) ==> OtherNames(rest, x)
    ensures DistinctTerms(rest + [x]) ==> OtherNames(rest, x)
  {
    forall y | y in rest && y.term == x.term ensures !DistinctTerms([x] + rest) && !DistinctTerms(rest + [x]) {
      var i :| 0 <= i < |rest| && rest[i] == y;
      assert ([x] + rest)[0] == x && ([x] + rest)[i + 1] == y;
      assert (rest + [x])[i] == y && (rest + [x])[|rest|] == x;
    }
  }

  lemma NotAmong(x: Term, rest: seq<Term>, h: Hit)
    requires OtherNames(rest, x) && h in Candidates(rest)
    ensures h.term != x.term
  {
    hide Candidates;
    CandidateFrom(rest, h);
  }

  /** A term that comes last and still applies claims a key that no other term has. */
  lemma BackSecure(x: Term, rest: seq<Term>) returns (k: Key)
    requires DistinctTerms(rest + [x]) && x.term in Applicable(rest + [x])
    ensures Secure(rest + [x], x.term, k)
  {
    hide ClaimedKey, HasKey, First, HitsOf, Candidates, Applicable;
    var terms := rest + [x];
    k := WonAt(terms, x.term);
    CandidatesSplitBack(x, rest);
    FirstConcat(Candidates(rest), HitsOf(x, x.spans), k);
    HitTerms(x, x.spans);
    DistinctNames(x, rest);
    if HasKey(Candidates(rest), k) {
      NotAmong(x, rest, First(Candidates(rest), k));
    }
    if k.len > 0 {
      forall u | AtKey(terms, u, k) ensures u == x.term {
        var h :| h in Candidates(terms) && h.term == u && KeyOf(h) == k;
        if h in Candidates(rest) {
          HasKeyOf(Candidates(rest), h);
        }
      }
    }
  }

  /** Taking one term out and putting it first, or last, is a permutation that keeps names distinct. */
  lemma Moved(terms: seq<Term>, x: Term) returns (rest: seq<Term>)
    requires DistinctTerms(terms) && x in terms
    ensures multiset([x] + rest) == multiset(terms) && DistinctTerms([x] + rest)
    ensures multiset(rest + [x]) == multiset(terms) && DistinctTerms(rest + [x])
  {
    var i := TakeOut(terms, x);
    rest := terms[..i] + terms[i + 1..];
    StayDistinct(terms, i);
    assert multiset([x] + rest) == multiset{x} + multiset(rest) && multiset(rest + [x]) == multiset(rest) + multiset{x};
  }

  lemma StayDistinct(terms: seq<Term>, i: nat)
    requires DistinctTerms(terms) && i < |terms|
    ensures var rest := terms[..i] + terms[i + 1..];
      DistinctTerms([terms[i]] + rest) && DistinctTerms(rest + [terms[i]])
  {
  }

  lemma OrderFreeSecures(terms: seq<Term>, t: string, k: Key) returns (j: Key)
    requires DistinctTerms(terms) && OrderFree(terms) && ClaimedKey(terms, k) && AtKey(terms, t, k)
    ensures Secure(terms, t, j)
  {
    hide Candidates, ClaimedKey, Applicable, Secure, DistinctTerms;
    var h :| h in Candidates(terms) && h.term == t && KeyOf(h) == k;
    CandidateFrom(terms, h);
    var x :| x in terms && x.term == t;
    var rest := Moved(terms, x);
    KeyFactsOrderFree(terms, [x] + rest, t, k);
    FrontWins(x, rest, k);
    assert Applicable([x] + rest) == Applicable(terms) == Applicable(rest + [x]);
    j := BackSecure(x, rest);
    SecureOrderFree(rest + [x], terms, t, j);
  }

  lemma HarmlessWins(terms: seq<Term>, a: seq<Term>, b: seq<Term>, t: string)
    requires TiesHarmless(terms) && t in Applicable(a)
    requires multiset(a) == multiset(terms) && multiset(b) == multiset(terms)
    ensures t in Applicable(b)
  {
    hide ClaimedKey, AtKey, Applicable, Secure;
    var k := WonAt(a, t);
    KeyFactsOrderFree(a, terms, t, k);
    var j :| Secure(terms, t, j);
    SecureOrderFree(terms, b, t, j);
    SecureWins(b, t, j);
  }

  lemma SameRendering(a: seq<Term>, b: seq<Term>, t: string)
    requires DistinctTerms(a) && multiset(a) == multiset(b) && t in Applicable(a) && t in Applicable(b)
    ensures Applicable(a)[t] == Applicable(b)[t]
  {
    hide Applicable, Candidates, Taken, Ordered;
    var x := RenderedBy(a, t);
    var y := RenderedBy(b, t);
    SameElements(a, b);
    var i :| 0 <= i < |a| && a[i] == x;
    var j :| 0 <= j < |a| && a[j] == y;
  }

  lemma RenderedBy(terms: seq<Term>, t: string) returns (x: Term)
    requires t in Applicable(terms)
    ensures x in terms && x.term == t && x.rendering == Applicable(terms)[t]
  {
    hide Applicable, Candidates, Taken, Ordered;
    ApplicableAreTaken(terms, t);
    var h :| h in Taken(Ordered(terms), []) && h.term == t && h.rendering == Applicable(terms)[t];
    TakenAreHits(Ordered(terms), []);
    OrderedAreCandidates(terms);
    CandidateFrom(terms, h);
    x :| x in terms && x.term == h.term && x.rendering == h.rendering;
  }

  /** The applicable terms are the same for every order of the term map exactly when every term that meets others
      at a claimed span claims some span of its own. */
  lemma OrderFreeExact(terms: seq<Term>)
    requires DistinctTerms(terms)
    ensures OrderFree(terms) <==> TiesHarmless(terms)
  {
    hide ClaimedKey, AtKey, Applicable, Secure, DistinctTerms;
    if OrderFree(terms) {
      forall t, k | ClaimedKey(terms, k) && AtKey(terms, t, k) ensures exists j :: Secure(terms, t, j) {
        var j := OrderFreeSecures(terms, t, k);
      }
    }
    if TiesHarmless(terms) {
      forall b: seq<Term> | multiset(b) == multiset(terms) ensures Applicable(b) == Applicable(terms) {
        HarmlessOrderFree(terms, b);
      }
    }
  }

  lemma HarmlessOrderFree(terms: seq<Term>, b: seq<Term>)
    requires DistinctTerms(terms) && TiesHarmless(terms) && multiset(b) == multiset(terms)
    ensures Applicable(b) == Applicable(terms)
  {
    hide TiesHarmless, Applicable, DistinctTerms;
    forall t ensures t in Applicable(b) <==> t in Applicable(terms) {
      if t in Applicable(b) {
        HarmlessWins(terms, b, terms, t);
      }
      if t in Applicable(terms) {
        HarmlessWins(terms, terms, b, t);
      }
    }
    forall t | t in Applicable(b) ensures Applicable(b)[t] == Applicable(terms)[t] {
      SameRendering(terms, b, t);
    }
  }
}
