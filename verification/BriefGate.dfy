/** The glossary brief of the prompt against the gate's check: the brief selects among terms of every tier, the gate
    among tier 1 only (glossary.py `locked_map`, `brief_for`; gate_checks.py `applicable_terms`). */
module BriefGate {
  import opened Grouping
  import opened StableSort
  import opened TermSelection

  /** A glossary entry: its tier decides whether the gate enforces it. */
  datatype TermBrief = TermBrief(term: string, translation: string, tier: nat)

  /** How the spans of a term in a text are found: its exact spans, or its inflected ones. */
  type Finder = (string, string) -> seq<Span>

  function TermsFor(entries: seq<TermBrief>, text: string, find: Finder): seq<Term> {
    if entries == [] then []
    else
      [Term(entries[0].term, entries[0].translation, find(entries[0].term, text))]
      + TermsFor(entries[1..], text, find)
  }

  /** `locked_map`: the gate's terms, tier 1 only. */
  function TierOne(entries: seq<TermBrief>): seq<TermBrief> {
    if entries == [] then [] else (if entries[0].tier == 1 then [entries[0]] else []) + TierOne(entries[1..])
  }

  /** The gate enforces this term on the text. */
  predicate Enforced(term: string, entries: seq<TermBrief>, text: string, find: Finder) {
    term in Applicable(TermsFor(TierOne(entries), text, find))
  }

  /** The brief for some texts lists this entry. */
  predicate Listed(e: TermBrief, entries: seq<TermBrief>, texts: seq<string>, find: Finder) {
    e in entries && exists text :: text in texts && e.term in Applicable(TermsFor(entries, text, find))
  }

  predicate LongerFirst(a: TermBrief, b: TermBrief) {
    |a.term| >= |b.term|
  }

  /** The term governs a span of one of the texts. */
  function Governs(entries: seq<TermBrief>, texts: seq<string>, find: Finder): TermBrief -> bool {
    (e: TermBrief) => exists text :: text in texts && e.term in Applicable(TermsFor(entries, text, find))
  }

  /** `brief_for`: the entries governing any of the texts, each as often as it is there, longer terms first and those
      of one length in their own order. */
  method BriefFor(entries: seq<TermBrief>, texts: seq<string>, find: Finder) returns (matched: seq<TermBrief>)
    ensures matched == Where(Sort(entries, LongerFirst), Governs(entries, texts, find))
    ensures forall e :: e in matched <==> Listed(e, entries, texts, find)
    ensures Sorted(matched, LongerFirst)
  {
    hide Applicable, Sort;
    var governing := GoverningTerms(entries, texts, find);
    var ordered := Sort(entries, LongerFirst);
    ghost var governs := Governs(entries, texts, find);
    matched := [];
    for i := 0 to |ordered|
      invariant matched == Where(ordered[..i], governs)
    {
      assert ordered[..i + 1][..i] == ordered[..i];
      if ordered[i].term in governing {
        matched := matched + [ordered[i]];
      }
    }
    assert ordered[..|ordered|] == ordered;
    BriefLists(entries, texts, find);
  }

  method GoverningTerms(entries: seq<TermBrief>, texts: seq<string>, find: Finder) returns (governing: set<string>)
    ensures forall e: TermBrief :: e.term in governing <==> Governs(entries, texts, find)(e)
  {
    hide Applicable;
    governing := {};
    for i := 0 to |texts|
      invariant forall t :: t in governing <==>
        exists j :: 0 <= j < i && t in Applicable(TermsFor(entries, texts[j], find))
    {
      governing := governing + Applicable(TermsFor(entries, texts[i], find)).Keys;
    }
  }

  lemma BriefLists(entries: seq<TermBrief>, texts: seq<string>, find: Finder)
    ensures var matched := Where(Sort(entries, LongerFirst), Governs(entries, texts, find));
      Sorted(matched, LongerFirst) && forall e :: e in matched <==> Listed(e, entries, texts, find)
  {
    hide Applicable, Sort, Where;
    var ordered, governs := Sort(entries, LongerFirst), Governs(entries, texts, find);
    LongerFirstIsPreorder();
    SortSorts(entries, LongerFirst);
    SameElements(entries, ordered);
    WhereSorted(ordered, governs, LongerFirst);
    forall e ensures e in Where(ordered, governs) <==> Listed(e, entries, texts, find) {
      WhereFacts(ordered, governs, e);
    }
  }

  lemma LongerFirstIsPreorder()
    ensures TotalPreorder(LongerFirst)
  {
  }

  // ------------------------------------------------------ the tier-1 part of a run

  function Kept(hs: seq<Hit>, names: set<string>): seq<Hit> {
    if hs == [] then [] else (if hs[0].term in names then [hs[0]] else []) + Kept(hs[1..], names)
  }

  lemma {:induction false} KeptHas(hs: seq<Hit>, names: set<string>)
    ensures forall h :: h in Kept(hs, names) <==> h in hs && h.term in names
  {
    if hs != [] {
      KeptHas(hs[1..], names);
      assert forall h :: h in hs <==> h == hs[0] || h in hs[1..];
    }
  }

  lemma KeptCons(x: Hit, s: seq<Hit>, names: set<string>)
    ensures Kept([x] + s, names) == if x.term in names then [x] + Kept(s, names) else Kept(s, names)
  {
    assert ([x] + s)[1..] == s && [] + Kept(s, names) == Kept(s, names);
  }

  lemma {:induction false} KeptConcat(a: seq<Hit>, b: seq<Hit>, names: set<string>)
    ensures Kept(a + b, names) == Kept(a, names) + Kept(b, names)
  {
    hide Kept;
    if a == [] {
      KeptNone(b, names);
    } else {
      var rest := a[1..];
      assert a == [a[0]] + rest && a + b == [a[0]] + (rest + b);
      KeptConcat(rest, b, names);
      KeptCons(a[0], rest, names);
      KeptCons(a[0], rest + b, names);
      if a[0].term in names {
        Regroup([a[0]], Kept(rest, names), Kept(b, names));
      }
    }
  }

  lemma KeptNone(b: seq<Hit>, names: set<string>)
    ensures Kept([] + b, names) == Kept([], names) + Kept(b, names)
  {
    assert [] + b == b;
  }

  lemma Regroup(x: seq<Hit>, y: seq<Hit>, z: seq<Hit>)
    ensures x + (y + z) == (x + y) + z
  {
  }

  lemma InsertCons(x: Hit, y: Hit, s: seq<Hit>)
    ensures Insert(x, [y] + s, Before) == if Before(x, y) then [x] + ([y] + s) else [y] + Insert(x, s, Before)
  {
    assert ([y] + s)[1..] == s;
  }

  lemma InsertFront(x: Hit, s: seq<Hit>)
    requires s == [] || Before(x, s[0])
    ensures Insert(x, s, Before) == [x] + s
  {
  }

  lemma {:induction false} InsertKept(x: Hit, s: seq<Hit>, names: set<string>)
    requires Sorted(s, Before)
    ensures Kept(Insert(x, s, Before), names)
         == if x.term in names then Insert(x, Kept(s, names), Before) else Kept(s, names)
  {
    hide Before, Insert;
    KeptHas(s, names);
    if s == [] {
      InsertFront(x, []);
      KeptCons(x, [], names);
    } else if Before(x, s[0]) {
      InsertFront(x, s);
      KeptCons(x, s, names);
      var k := Kept(s, names);
      if k != [] {
        assert k[0] in k;
        HeadIsLeast(s, Before, k[0]);
        BeforeChains(x, s[0], k[0]);
      }
      InsertFront(x, k);
    } else {
      InsertKept(x, s[1..], names);
      assert s == [s[0]] + s[1..];
      InsertCons(x, s[0], s[1..]);
      KeptCons(s[0], Insert(x, s[1..], Before), names);
      KeptCons(s[0], s[1..], names);
      InsertCons(x, s[0], Kept(s[1..], names));
    }
  }

  lemma BeforeChains(x: Hit, y: Hit, z: Hit)
    ensures Before(x, y) && (y == z || Before(y, z)) ==> Before(x, z)
  {
  }

  /** Sorting is stable, so the tier-1 hits stand in the same order in both runs. */
  lemma {:induction false} SortKept(s: seq<Hit>, names: set<string>)
    ensures Kept(Sort(s, Before), names) == Sort(Kept(s, names), Before)
  {
    hide Insert, TotalPreorder, Sorted, Before, Kept;
    if s == [] {
      NoneKept(names);
    } else {
      SortKept(s[1..], names);
      BeforeIsPreorder();
      SortSorts(s[1..], Before);
      InsertKept(s[0], Sort(s[1..], Before), names);
      assert s == [s[0]] + s[1..];
      KeptCons(s[0], s[1..], names);
      SortCons(s[0], Kept(s[1..], names));
    }
  }

  lemma NoneKept(names: set<string>)
    ensures Kept([], names) == []
  {
  }

  lemma SortCons(x: Hit, s: seq<Hit>)
    ensures Sort([x] + s, Before) == Insert(x, Sort(s, Before), Before)
  {
    assert ([x] + s)[1..] == s;
  }

  lemma {:induction false} KeptOf(hs: seq<Hit>, names: set<string>, t: string)
    requires forall h :: h in hs ==> h.term == t
    ensures Kept(hs, names) == if t in names then hs else []
  {
    if hs != [] {
      assert hs[0] in hs;
      KeptOf(hs[1..], names, t);
      assert hs == [hs[0]] + hs[1..];
    }
  }

  predicate DistinctEntries(entries: seq<TermBrief>) {
    forall i, j :: 0 <= i < j < |entries| ==> entries[i].term != entries[j].term
  }

  function TierOneNames(entries: seq<TermBrief>): set<string> {
    set e | e in entries && e.tier == 1 :: e.term
  }

  /** A name is tier 1 exactly when the entry of that name is. */
  predicate Names(entries: seq<TermBrief>, names: set<string>) {
    forall e :: e in entries ==> (e.term in names <==> e.tier == 1)
  }

  lemma DistinctNames(entries: seq<TermBrief>)
    requires DistinctEntries(entries)
    ensures Names(entries, TierOneNames(entries))
  {
    forall e | e in entries && e.term in TierOneNames(entries) ensures e.tier == 1 {
      var f :| f in entries && f.tier == 1 && f.term == e.term;
      var i :| 0 <= i < |entries| && entries[i] == e;
      var j :| 0 <= j < |entries| && entries[j] == f;
    }
  }

  lemma {:induction false} KeptCandidates(entries: seq<TermBrief>, text: string, find: Finder, names: set<string>)
    requires Names(entries, names)
    ensures Kept(Candidates(TermsFor(entries, text, find)), names) == Candidates(TermsFor(TierOne(entries), text, find))
  {
    if entries != [] {
      hide HitsOf;
      var ts, e := TermsFor(entries, text, find), entries[0];
      assert e in entries && forall f :: f in entries[1..] ==> f in entries;
      assert ts[1..] == TermsFor(entries[1..], text, find);
      KeptCandidates(entries[1..], text, find, names);
      var own := HitsOf(ts[0], ts[0].spans);
      HitTerms(ts[0], ts[0].spans);
      KeptOf(own, names, e.term);
      KeptConcat(own, Candidates(ts[1..]), names);
      var rest := TierOne(entries[1..]);
      if e.tier == 1 {
        assert ([e] + rest)[1..] == rest;
        var us := TermsFor([e] + rest, text, find);
        assert us[0] == ts[0] && us[1..] == TermsFor(rest, text, find);
      } else {
        assert [] + rest == rest;
      }
    }
  }

  /** The occurrences that govern their spans for the brief, and for the gate. */
  function BriefHits(entries: seq<TermBrief>, text: string, find: Finder): seq<Hit> {
    Taken(Ordered(TermsFor(entries, text, find)), [])
  }

  function GateHits(entries: seq<TermBrief>, text: string, find: Finder): seq<Hit> {
    Taken(Ordered(TermsFor(TierOne(entries), text, find)), [])
  }

  lemma GateRun(entries: seq<TermBrief>, text: string, find: Finder)
    requires DistinctEntries(entries)
    ensures GateHits(entries, text, find)
        == Taken(Kept(Ordered(TermsFor(entries, text, find)), TierOneNames(entries)), [])
  {
    hide Taken, Candidates, TermsFor, TierOneNames, Kept, Sort;
    var names := TierOneNames(entries);
    DistinctNames(entries);
    KeptCandidates(entries, text, find, names);
    SortKept(Candidates(TermsFor(entries, text, find)), names);
  }

  // ------------------------------------------------------------ two runs compared

  predicate Overlaps(h: Hit, c: Span) {
    h.start < c.end && h.end > c.start
  }

  function SpanOf(h: Hit): Span {
    Span(h.start, h.end)
  }

  /** No span of `extra`, and no claiming hit of another tier, overlaps an occurrence the gate's run takes. */
  ghost predicate Undisturbed(taken: seq<Hit>, gate: seq<Hit>, names: set<string>, extra: seq<Span>) {
    forall h :: h in gate ==>
      && (forall c :: c in extra ==> !Overlaps(h, c))
      && (forall g :: g in taken && g.term !in names ==> !Overlaps(h, SpanOf(g)))
  }

  ghost predicate Splits(all: seq<Span>, own: seq<Span>, extra: seq<Span>) {
    forall c :: c in all <==> c in own || c in extra
  }

  lemma CoveredSplits(h: Hit, all: seq<Span>, own: seq<Span>, extra: seq<Span>)
    requires Splits(all, own, extra)
    ensures Covered(h, all) <==> Covered(h, own) || exists c :: c in extra && Overlaps(h, c)
  {
  }

  lemma SplitsOwn(all: seq<Span>, own: seq<Span>, extra: seq<Span>, c: Span)
    requires Splits(all, own, extra)
    ensures Splits(all + [c], own + [c], extra) && Splits(all + [c], own, extra + [c])
  {
  }

  lemma UndisturbedPart(taken: seq<Hit>, gate: seq<Hit>, taken': seq<Hit>, gate': seq<Hit>, names: set<string>,
                        extra: seq<Span>)
    requires Undisturbed(taken, gate, names, extra)
    requires (forall h :: h in taken' ==> h in taken) && (forall h :: h in gate' ==> h in gate)
    ensures Undisturbed(taken', gate', names, extra)
  {
  }

  lemma UndisturbedMore(f: Hit, taken: seq<Hit>, gate: seq<Hit>, names: set<string>, extra: seq<Span>)
    requires Undisturbed([f] + taken, gate, names, extra) && f.term !in names
    ensures Undisturbed(taken, gate, names, extra + [SpanOf(f)])
  {
    assert f in [f] + taken && forall h :: h in taken ==> h in [f] + taken;
  }

  lemma TakenCons(f: Hit, rest: seq<Hit>, claimed: seq<Span>)
    ensures Taken([f] + rest, claimed)
         == if Covered(f, claimed) then Taken(rest, claimed) else [f] + Taken(rest, claimed + [SpanOf(f)])
  {
    assert ([f] + rest)[1..] == rest;
  }

  lemma {:induction false} UndisturbedAgree(hs: seq<Hit>, all: seq<Span>, own: seq<Span>, extra: seq<Span>,
                                            names: set<string>)
    requires Splits(all, own, extra)
    requires Undisturbed(Taken(hs, all), Taken(Kept(hs, names), own), names, extra)
    ensures Kept(Taken(hs, all), names) == Taken(Kept(hs, names), own)
    decreases |hs|
  {
    hide *;
    if hs == [] {
      NothingTaken(all, own, names);
    } else {
      var f, rest, c := hs[0], hs[1..], SpanOf(hs[0]);
      var k := Kept(rest, names);
      assert hs == [f] + rest;
      KeptCons(f, rest, names);
      TakenCons(f, rest, all);
      TakenCons(f, k, own);
      CoveredSplits(f, all, own, extra);
      SplitsOwn(all, own, extra, c);
      if f.term in names {
        TierOneStep(f, rest, all, own, extra, names);
      } else {
        OtherTierStep(f, rest, all, own, extra, names);
      }
      if f.term in names && !Covered(f, own) {
        UndisturbedAgree(rest, all + [c], own + [c], extra, names);
        KeptCons(f, Taken(rest, all + [c]), names);
      } else if f.term in names || Covered(f, all) {
        UndisturbedAgree(rest, all, own, extra, names);
      } else {
        UndisturbedAgree(rest, all + [c], own, extra + [c], names);
        KeptCons(f, Taken(rest, all + [c]), names);
      }
    }
  }

  lemma NothingTaken(all: seq<Span>, own: seq<Span>, names: set<string>)
    ensures Kept(Taken([], all), names) == Taken(Kept([], names), own)
  {
  }

  /** A tier-1 hit is covered in both runs or in neither. */
  lemma TierOneStep(f: Hit, rest: seq<Hit>, all: seq<Span>, own: seq<Span>, extra: seq<Span>, names: set<string>)
    requires Splits(all, own, extra) && f.term in names
    requires Undisturbed(Taken([f] + rest, all), Taken(Kept([f] + rest, names), own), names, extra)
    ensures Covered(f, all) == Covered(f, own)
    ensures var c, k := SpanOf(f), Kept(rest, names);
      if Covered(f, own) then Undisturbed(Taken(rest, all), Taken(k, own), names, extra)
      else Undisturbed(Taken(rest, all + [c]), Taken(k, own + [c]), names, extra)
  {
    hide Taken, Kept, Covered, Undisturbed, Splits;
    var c, k := SpanOf(f), Kept(rest, names);
    KeptCons(f, rest, names);
    TakenCons(f, rest, all);
    TakenCons(f, k, own);
    CoveredSplits(f, all, own, extra);
    if !Covered(f, own) {
      NotOverlapped(Taken([f] + rest, all), [f] + Taken(k, own + [c]), names, extra, f);
      UndisturbedPart(Taken([f] + rest, all), [f] + Taken(k, own + [c]),
                      Taken(rest, all + [c]), Taken(k, own + [c]), names, extra);
    }
  }

  lemma NotOverlapped(taken: seq<Hit>, gate: seq<Hit>, names: set<string>, extra: seq<Span>, f: Hit)
    requires Undisturbed(taken, gate, names, extra) && f in gate
    ensures forall c :: c in extra ==> !Overlaps(f, c)
  {
  }

  /** A hit of another tier is skipped, or claims a span that no hit of the gate's run meets. */
  lemma OtherTierStep(f: Hit, rest: seq<Hit>, all: seq<Span>, own: seq<Span>, extra: seq<Span>, names: set<string>)
    requires Splits(all, own, extra) && f.term !in names
    requires Undisturbed(Taken([f] + rest, all), Taken(Kept([f] + rest, names), own), names, extra)
    ensures var c, k := SpanOf(f), Kept(rest, names);
      if Covered(f, all) then Undisturbed(Taken(rest, all), Taken(k, own), names, extra)
      else Undisturbed(Taken(rest, all + [c]), Taken(k, own), names, extra + [c])
  {
    hide Taken, Kept, Covered, Undisturbed, Splits;
    var c, k := SpanOf(f), Kept(rest, names);
    KeptCons(f, rest, names);
    TakenCons(f, rest, all);
    if !Covered(f, all) {
      UndisturbedMore(f, Taken(rest, all + [c]), Taken(k, own), names, extra);
    }
  }

  lemma {:induction false} TakenApart(hs: seq<Hit>, claimed: seq<Span>, g: Hit, h: Hit)
    requires g in Taken(hs, claimed) && h in Taken(hs, claimed) && g != h
    ensures !Overlaps(h, SpanOf(g))
    decreases |hs|
  {
    var f, next := hs[0], claimed + [Span(hs[0].start, hs[0].end)];
    if Covered(f, claimed) {
      TakenApart(hs[1..], claimed, g, h);
    } else {
      assert SpanOf(f) in next;
      if g == f {
        TakenUncovered(hs[1..], next, h);
      } else if h == f {
        TakenUncovered(hs[1..], next, g);
      } else {
        TakenApart(hs[1..], next, g, h);
      }
    }
  }

  lemma {:induction false} TakenUncovered(hs: seq<Hit>, claimed: seq<Span>, h: Hit)
    requires h in Taken(hs, claimed)
    ensures forall c :: c in claimed ==> !Overlaps(h, c)
    decreases |hs|
  {
    if Covered(hs[0], claimed) {
      TakenUncovered(hs[1..], claimed, h);
    } else if h != hs[0] {
      TakenUncovered(hs[1..], claimed + [Span(hs[0].start, hs[0].end)], h);
      assert forall c :: c in claimed ==> c in claimed + [Span(hs[0].start, hs[0].end)];
    }
  }

  /** An occurrence of another tier that claims its span in the brief's run overlaps one the gate enforces. */
  ghost predicate Intrudes(entries: seq<TermBrief>, text: string, find: Finder) {
    exists g, h :: g in BriefHits(entries, text, find) && g.term !in TierOneNames(entries)
      && h in GateHits(entries, text, find) && Overlaps(h, SpanOf(g))
  }

  /** Prompt and gate agree on which tier-1 occurrence governs which span exactly when no occurrence of another tier
      claims a span that overlaps one the gate enforces. */
  lemma AgreeExact(entries: seq<TermBrief>, text: string, find: Finder)
    requires DistinctEntries(entries)
    ensures Kept(BriefHits(entries, text, find), TierOneNames(entries)) == GateHits(entries, text, find)
       <==> !Intrudes(entries, text, find)
  {
    hide Taken, TierOneNames, Overlaps, Ordered;
    var names, hs := TierOneNames(entries), Ordered(TermsFor(entries, text, find));
    var brief, gate := BriefHits(entries, text, find), GateHits(entries, text, find);
    GateRun(entries, text, find);
    if !Intrudes(entries, text, find) {
      UndisturbedAgree(hs, [], [], [], names);
    }
    if Kept(brief, names) == gate {
      KeptHas(brief, names);
      forall g, h | g in brief && g.term !in names && h in gate ensures !Overlaps(h, SpanOf(g)) {
        TakenApart(hs, [], g, h);
      }
    }
  }

  /** Then the tier-1 entries in the brief are exactly those whose term the gate enforces on one of the texts. */
  lemma BriefMatchesGate(entries: seq<TermBrief>, texts: seq<string>, find: Finder, e: TermBrief)
    requires DistinctEntries(entries) && e in entries && e.tier == 1
    requires forall text :: text in texts ==> !Intrudes(entries, text, find)
    ensures Listed(e, entries, texts, find) <==> exists text :: text in texts && Enforced(e.term, entries, text, find)
  {
    hide Intrudes, Applicable;
    forall text | text in texts
      ensures Enforced(e.term, entries, text, find) <==> e.term in Applicable(TermsFor(entries, text, find)) {
      SameTerm(entries, text, find, e);
    }
  }

  lemma SameTerm(entries: seq<TermBrief>, text: string, find: Finder, e: TermBrief)
    requires DistinctEntries(entries) && e in entries && e.tier == 1 && !Intrudes(entries, text, find)
    ensures Enforced(e.term, entries, text, find) <==> e.term in Applicable(TermsFor(entries, text, find))
  {
    hide Intrudes, Applicable, Taken, Ordered;
    AgreeExact(entries, text, find);
    KeptHas(BriefHits(entries, text, find), TierOneNames(entries));
    ApplicableAreTaken(TermsFor(entries, text, find), e.term);
    ApplicableAreTaken(TermsFor(TierOne(entries), text, find), e.term);
    assert e.term in TierOneNames(entries);
  }

  /** So it is when no occurrence of another tier overlaps one of tier 1; in particular when every entry is tier 1. */
  lemma ApartTiersAgree(entries: seq<TermBrief>, text: string, find: Finder)
    requires DistinctEntries(entries)
    requires var all, names := Candidates(TermsFor(entries, text, find)), TierOneNames(entries);
      forall g, h :: g in all && h in all && g.term !in names && h.term in names ==> !Overlaps(h, SpanOf(g))
    ensures !Intrudes(entries, text, find)
  {
    hide Taken, Candidates, Ordered, TierOneNames, Overlaps;
    var names, hs := TierOneNames(entries), Ordered(TermsFor(entries, text, find));
    GateRun(entries, text, find);
    TakenAreHits(hs, []);
    TakenAreHits(Kept(hs, names), []);
    KeptHas(hs, names);
    OrderedAreCandidates(TermsFor(entries, text, find));
  }

  /** It can fail: a longer term of another tier that covers the only occurrence of a tier-1 term keeps it out of the
      prompt, while the gate enforces it. */
  lemma BriefCanOmit(long: TermBrief, short: TermBrief, text: string, find: Finder, s: Span, u: Span)
    requires long.tier != 1 && short.tier == 1
    requires find(long.term, text) == [s] && find(short.term, text) == [u]
    requires s.start <= u.start < u.end <= s.end && u.end - u.start < s.end - s.start
    ensures Enforced(short.term, [long, short], text, find)
    ensures !Listed(short, [long, short], [text], find)
  {
    var g, h := Hit(long.term, long.translation, s.start, s.end), Hit(short.term, short.translation, u.start, u.end);
    OneEntry(short, text, find, u, h);
    OneEntry(long, text, find, s, g);
    assert [long, short][1..] == [short];
    assert TierOne([short]) == [short] by {
      assert [short][1..] == [];
    }
    assert TierOne([long, short]) == [] + TierOne([short]) == [short];
    var ts := TermsFor([long, short], text, find);
    assert ts[1..] == TermsFor([short], text, find);
    assert Candidates(ts) == HitsOf(ts[0], [s]) + [h] == [g, h];
    assert [g, h][1..] == [h] && [h][1..] == [];
    assert Before(g, h) && Sort([h], Before) == [h];
    SortCons(g, [h]);
    assert [g] + [h] == [g, h];
    assert Covered(h, [s]) by {
      assert s in [s];
    }
    assert [] + [s] == [s];
    assert ApplyFrom([h], [s], map[g.term := g.rendering]) == map[g.term := g.rendering];
  }

  lemma OneEntry(e: TermBrief, text: string, find: Finder, s: Span, h: Hit)
    requires find(e.term, text) == [s] && h == Hit(e.term, e.translation, s.start, s.end)
    ensures var ts := TermsFor([e], text, find);
      |ts| == 1 && HitsOf(ts[0], [s]) == [h] && Candidates(ts) == [h] && e.term in Applicable(ts)
  {
    var ts := TermsFor([e], text, find);
    assert [e][1..] == [] && TermsFor([e][1..], text, find) == [] && [s][1..] == [] && [h][1..] == [];
    assert ts[1..] == [];
    assert HitsOf(ts[0], []) == [];
    assert [h] + [] == [h];
    assert Sort([h], Before) == [h];
    assert !Covered(h, []);
    assert ApplyFrom([h], [], map[]) == map[h.term := h.rendering];
  }
}
