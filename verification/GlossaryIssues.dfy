/** The report of the variant-group audit, issue by issue, read off the entries of the termbase: which renderings
    are reported, in which order, and what each issue lists. */
module GlossaryIssues {
  import opened StableSort
  import opened Grouping
  import opened GlossaryTerms
  import opened GlossaryCheck

  /** s holds every element of zs once, in the order of the strings. */
  ghost predicate Listing(s: seq<string>, zs: set<string>) {
    Distinct(s) && Sorted(s, StrLe) && forall z :: z in s <==> z in zs
  }

  ghost function Sharing(terms: Terms, norm: string -> string, target: string): set<string> {
    set z | z in terms && norm(terms[z].translation) == target
  }

  /** The spellings of a rendering that are no variant. */
  ghost function Heads(terms: Terms, norm: string -> string, target: string): set<string> {
    set z | z in Sharing(terms, norm, target) && terms[z].variantOf == ""
  }

  ghost function Rulings(terms: Terms, norm: string -> string, target: string): set<string> {
    set z | z in Heads(terms, norm, target) && terms[z].locked
  }

  /** The variants of nothing the termbase holds. */
  ghost function Lost(terms: Terms, norm: string -> string, target: string): set<string> {
    set z | z in Sharing(terms, norm, target) && terms[z].variantOf != "" && terms[z].variantOf !in terms
  }

  /** The variants of a term that renders differently. */
  ghost function Foreign(terms: Terms, norm: string -> string, target: string): set<string> {
    set z | z in Sharing(terms, norm, target) && terms[z].variantOf != "" && terms[z].variantOf in terms
            && norm(terms[terms[z].variantOf].translation) != target
  }

  ghost predicate Shared(terms: Terms, norm: string -> string, target: string) {
    target != "" && |Sharing(terms, norm, target)| >= 2
  }

  /** What is reported on one shared rendering. */
  ghost predicate Reported(terms: Terms, norm: string -> string, target: string, issues: seq<Issue>) {
    exists group, lost, foreign ::
      && Listing(group, Sharing(terms, norm, target))
      && Listing(lost, Lost(terms, norm, target))
      && Listing(foreign, Foreign(terms, norm, target))
      && |issues| >= 1
      && issues[..|issues| - 1] == (if lost == [] then [] else [DanglingVariantOf(lost)])
                                   + (if foreign == [] then [] else [CrossGroupVariantOf(foreign)])
      && Verdict(terms, norm, target, group, issues[|issues| - 1])
  }

  /** A declared group is named with its canonical spelling; any other is asked for, with an error when two unmarked
      spellings are rulings. */
  ghost predicate Verdict(terms: Terms, norm: string -> string, target: string, group: seq<string>, issue: Issue) {
    || (exists c :: Declares(terms, norm, target, c) && issue == SourceVariants(target, group, c))
    || ((forall c :: !Declares(terms, norm, target, c))
        && issue == UndeclaredVariantGroup(if |Rulings(terms, norm, target)| >= 2 then Error else Warn,
                                           target, group, |Heads(terms, norm, target)|))
  }

  // --------------------------------------------------------------- one group

  lemma {:induction false} ListedCard(s: seq<string>, zs: set<string>)
    requires Distinct(s) && forall z :: z in s <==> z in zs
    ensures |s| == |zs|
  {
    if s == [] {
      assert zs == {};
    } else {
      var z, t := s[0], s[1..];
      forall y ensures y in t <==> y in zs - {z} {
        assert y in s <==> y == z || y in t;
      }
      ListedCard(t, zs - {z});
      assert z in s && |zs| == |zs - {z}| + 1;
    }
  }

  lemma WhereListing(s: seq<string>, all: set<string>, p: string -> bool, zs: set<string>)
    requires Listing(s, all) && forall z :: z in zs <==> z in all && p(z)
    ensures Listing(Where(s, p), zs) && |Where(s, p)| == |zs|
  {
    hide Where, Distinct, Sorted;
    WhereDistinct(s, p);
    WhereSorted(s, p, StrLe);
    forall z ensures z in Where(s, p) <==> z in zs {
      WhereFacts(s, p, z);
    }
    ListedCard(Where(s, p), zs);
  }

  lemma GroupListing(terms: Terms, order: seq<string>, norm: string -> string, target: string)
    requires Lists(order, terms)
    ensures var g := Group(terms, order, norm, target);
      Listing(g, Sharing(terms, norm, target))
      && |Members(order, Target(terms, norm), target)| == |g| == |Sharing(terms, norm, target)|
  {
    hide Distinct, Sorted, Members, Target, Sort;
    var g := Group(terms, order, norm, target);
    GroupHolds(terms, order, norm, target);
    StrLeIsPreorder();
    SortSorts(Members(order, Target(terms, norm), target), StrLe);
    ListedCard(g, Sharing(terms, norm, target));
  }

  /** The four selections of a group. */
  lemma Selections(terms: Terms, norm: string -> string, target: string, group: seq<string>)
    requires Listing(group, Sharing(terms, norm, target))
    ensures |Where(group, Unmarked(terms))| == |Heads(terms, norm, target)|
    ensures |Where(group, Locked(terms))| == |Rulings(terms, norm, target)|
    ensures Listing(Where(group, Dangles(terms)), Lost(terms, norm, target))
    ensures Listing(Where(group, Strays(terms, group)), Foreign(terms, norm, target))
  {
    hide Where, Listing;
    ListingHolds(group, Sharing(terms, norm, target));
    WhereListing(group, Sharing(terms, norm, target), Unmarked(terms), Heads(terms, norm, target));
    WhereListing(group, Sharing(terms, norm, target), Locked(terms), Rulings(terms, norm, target));
    WhereListing(group, Sharing(terms, norm, target), Dangles(terms), Lost(terms, norm, target));
    WhereListing(group, Sharing(terms, norm, target), Strays(terms, group), Foreign(terms, norm, target));
  }

  lemma ListingHolds(s: seq<string>, zs: set<string>)
    requires Listing(s, zs)
    ensures Distinct(s) && forall z :: z in s <==> z in zs
  {
  }

  lemma GroupReported(terms: Terms, norm: string -> string, target: string, group: seq<string>)
    requires Listing(group, Sharing(terms, norm, target)) && |group| >= 2 && target != ""
    ensures Reported(terms, norm, target, GroupIssues(terms, target, group))
  {
    hide Where, Declares, Listing, Heads, Rulings, Lost, Foreign, Verdict;
    var issues := GroupIssues(terms, target, group);
    var lost, foreign := Where(group, Dangles(terms)), Where(group, Strays(terms, group));
    Selections(terms, norm, target, group);
    var last := issues[|issues| - 1];
    assert issues[..|issues| - 1] == (if lost == [] then [] else [DanglingVariantOf(lost)])
                                     + (if foreign == [] then [] else [CrossGroupVariantOf(foreign)]);
    assert Verdict(terms, norm, target, group, last) by {
      GroupVerdict(terms, norm, target, group);
    }
  }

  lemma GroupVerdict(terms: Terms, norm: string -> string, target: string, group: seq<string>)
    requires Listing(group, Sharing(terms, norm, target)) && |group| >= 2 && target != ""
    ensures var issues := GroupIssues(terms, target, group);
      issues != [] && Verdict(terms, norm, target, group, issues[|issues| - 1])
  {
    hide Where, Declares, Listing, Heads, Rulings, Lost, Foreign;
    var issues := GroupIssues(terms, target, group);
    var last := issues[|issues| - 1];
    Selections(terms, norm, target, group);
    ListingHolds(group, Sharing(terms, norm, target));
    forall c ensures last == SourceVariants(target, group, c) <==> Declares(terms, norm, target, c) {
      GroupDeclared(terms, norm, target, group, c);
      assert SourceVariants(target, group, c) in issues <==> last == SourceVariants(target, group, c);
    }
  }

  // ------------------------------------------------------------- the whole report

  /** The renderings of ts that are reported, with what is reported on each. */
  ghost function Kept(terms: Terms, norm: string -> string, ts: seq<string>): seq<string> {
    if ts == [] then []
    else (if Shared(terms, norm, ts[0]) then [ts[0]] else []) + Kept(terms, norm, ts[1..])
  }

  ghost function Parts(terms: Terms, order: seq<string>, norm: string -> string, ts: seq<string>): seq<seq<Issue>> {
    if ts == [] then []
    else
      (if Shared(terms, norm, ts[0]) then [TargetIssues(terms, ts[0], Members(order, Target(terms, norm), ts[0]))]
       else [])
      + Parts(terms, order, norm, ts[1..])
  }

  /** The first element of a listing in front of a listing of some others. */
  lemma InFront(t: string, k: seq<string>, ts: seq<string>)
    requires Distinct(ts) && Sorted(ts, StrLe) && ts != [] && ts[0] == t
    requires Distinct(k) && Sorted(k, StrLe) && forall x :: x in k ==> x in ts[1..]
    ensures Distinct([t] + k) && Sorted([t] + k, StrLe)
  {
    forall j | 0 <= j < |k| ensures t != k[j] && StrLe(t, k[j]) {
      assert k[j] in ts[1..];
    }
  }

  lemma {:induction false} KeptListing(terms: Terms, norm: string -> string, ts: seq<string>)
    requires Distinct(ts) && Sorted(ts, StrLe)
    ensures var k := Kept(terms, norm, ts);
      Distinct(k) && Sorted(k, StrLe) && forall t :: t in k <==> t in ts && Shared(terms, norm, t)
  {
    hide Shared;
    if ts != [] {
      KeptListing(terms, norm, ts[1..]);
      assert forall t :: t in ts <==> t == ts[0] || t in ts[1..];
      InFront(ts[0], Kept(terms, norm, ts[1..]), ts);
    }
  }

  lemma TargetReported(terms: Terms, order: seq<string>, norm: string -> string, target: string)
    requires Lists(order, terms)
    ensures var issues := TargetIssues(terms, target, Members(order, Target(terms, norm), target));
      if Shared(terms, norm, target) then Reported(terms, norm, target, issues) else issues == []
  {
    hide GroupIssues, Reported, Members, Target, Sharing, Listing;
    TargetIssuesOf(terms, target, Members(order, Target(terms, norm), target));
    GroupListing(terms, order, norm, target);
    if Shared(terms, norm, target) {
      GroupReported(terms, norm, target, Group(terms, order, norm, target));
    }
  }

  lemma {:induction false} PartsReported(terms: Terms, order: seq<string>, norm: string -> string, ts: seq<string>)
    requires Lists(order, terms)
    ensures var (k, parts) := (Kept(terms, norm, ts), Parts(terms, order, norm, ts));
      |parts| == |k| && Flatten(parts) == IssuesOf(terms, order, norm, ts)
      && forall i :: 0 <= i < |k| ==> Reported(terms, norm, k[i], parts[i])
  {
    hide TargetIssues, Members, Target, Shared, Reported, Lists;
    if ts != [] {
      PartsReported(terms, order, norm, ts[1..]);
      TargetReported(terms, order, norm, ts[0]);
      if Shared(terms, norm, ts[0]) {
        var parts := Parts(terms, order, norm, ts);
        assert parts[1..] == Parts(terms, order, norm, ts[1..]);
      } else {
        assert [] + IssuesOf(terms, order, norm, ts[1..]) == IssuesOf(terms, order, norm, ts[1..]);
        assert Parts(terms, order, norm, ts) == Parts(terms, order, norm, ts[1..]);
        assert Kept(terms, norm, ts) == Kept(terms, norm, ts[1..]);
      }
    }
  }

  /** The report goes through the shared renderings in the order of the strings, and says of each what its entries
      call for. */
  lemma AuditExact(terms: Terms, order: seq<string>, norm: string -> string, renderings: seq<string>)
    requires Lists(order, terms)
    requires Listing(renderings, set z | z in terms && Shared(terms, norm, norm(terms[z].translation))
                                       :: norm(terms[z].translation))
    ensures exists parts: seq<seq<Issue>> ::
      |parts| == |renderings| && Audit(terms, order, norm) == Flatten(parts)
      && forall i :: 0 <= i < |parts| ==> Reported(terms, norm, renderings[i], parts[i])
  {
    hide Shared, Reported, Sort, KeysOf, IssuesOf;
    var ts := Targets(terms, order, norm);
    TargetsListing(terms, order, norm);
    KeptListing(terms, norm, ts);
    PartsReported(terms, order, norm, ts);
    SameListing(renderings, Kept(terms, norm, ts));
  }

  lemma TargetsListing(terms: Terms, order: seq<string>, norm: string -> string)
    requires Lists(order, terms)
    ensures var ts := Targets(terms, order, norm);
      Distinct(ts) && Sorted(ts, StrLe)
      && (forall t :: t in ts <==> exists z :: z in terms && norm(terms[z].translation) == t)
  {
    hide Sorted, Distinct;
    var keys := KeysOf(order, Target(terms, norm));
    KeysFacts(order, Target(terms, norm));
    SortKeepsDistinct(keys);
    StrLeIsPreorder();
    SortSorts(keys, StrLe);
    forall t ensures t in keys <==> exists z :: z in terms && norm(terms[z].translation) == t {
      assert t in keys <==> exists z :: z in order && Target(terms, norm)(z) == t;
    }
  }

  lemma SameListing(a: seq<string>, b: seq<string>)
    requires Distinct(a) && Sorted(a, StrLe) && Distinct(b) && Sorted(b, StrLe) && forall z :: z in a <==> z in b
    ensures a == b
  {
    DistinctMultiset(a, b);
    forall x, y | x in a && y in a && StrLe(x, y) && StrLe(y, x) ensures x == y {
      StrTotal(x, y);
    }
    SortedUnique(a, b, StrLe);
  }
}
