/** The variant-group audit of a termbase (glossary_check.py, section 2 of `check_glossary`), and its agreement
    with the editor that declares such groups. */
module GlossaryCheck {
  import opened StableSort
  import opened Grouping
  import opened GlossaryTerms
  import GlossaryEdit

  datatype Severity = Error | Warn | Info

  datatype Issue =
    | DanglingVariantOf(terms: seq<string>)
    | CrossGroupVariantOf(terms: seq<string>)
    | SourceVariants(target: string, group: seq<string>, canonical: string)
    | UndeclaredVariantGroup(severity: Severity, target: string, group: seq<string>, unmarked: nat)

  // ---------------------------------------------------------------- the audit

  /** The rendering a term is grouped by. */
  function Target(terms: Terms, norm: string -> string): string -> string {
    z => if z in terms then norm(terms[z].translation) else ""
  }

  function Unmarked(terms: Terms): string -> bool {
    z => z in terms && terms[z].variantOf == ""
  }

  function Dangles(terms: Terms): string -> bool {
    z => z in terms && terms[z].variantOf != "" && terms[z].variantOf !in terms
  }

  function Strays(terms: Terms, group: seq<string>): string -> bool {
    z => z in terms && terms[z].variantOf != "" && terms[z].variantOf in terms && terms[z].variantOf !in group
  }

  function Locked(terms: Terms): string -> bool {
    z => z in terms && terms[z].variantOf == "" && terms[z].locked
  }

  /** The findings on one rendering that several terms share. */
  function GroupIssues(terms: Terms, target: string, group: seq<string>): seq<Issue> {
    var canonical, dangling, stray :=
      Where(group, Unmarked(terms)), Where(group, Dangles(terms)), Where(group, Strays(terms, group));
    (if dangling == [] then [] else [DanglingVariantOf(dangling)])
    + (if stray == [] then [] else [CrossGroupVariantOf(stray)])
    + [if |canonical| == 1 && dangling == [] && stray == [] then SourceVariants(target, group, canonical[0])
       else UndeclaredVariantGroup(if |Where(group, Locked(terms))| > 1 then Error else Warn,
                                   target, group, |canonical|)]
  }

  function TargetIssues(terms: Terms, target: string, sources: seq<string>): seq<Issue> {
    if |sources| < 2 || target == "" then [] else GroupIssues(terms, target, Sort(sources, StrLe))
  }

  function IssuesOf(terms: Terms, order: seq<string>, norm: string -> string, targets: seq<string>): seq<Issue> {
    if targets == [] then []
    else
      TargetIssues(terms, targets[0], Members(order, Target(terms, norm), targets[0]))
      + IssuesOf(terms, order, norm, targets[1..])
  }

  function Targets(terms: Terms, order: seq<string>, norm: string -> string): seq<string> {
    Sort(KeysOf(order, Target(terms, norm)), StrLe)
  }

  function Audit(terms: Terms, order: seq<string>, norm: string -> string): seq<Issue> {
    IssuesOf(terms, order, norm, Targets(terms, order, norm))
  }

  lemma IssuesUnfold(terms: Terms, order: seq<string>, norm: string -> string, ts: seq<string>, i: nat)
    requires i < |ts|
    ensures IssuesOf(terms, order, norm, ts[i..])
         == TargetIssues(terms, ts[i], Members(order, Target(terms, norm), ts[i]))
            + IssuesOf(terms, order, norm, ts[i + 1..])
  {
    hide TargetIssues, Members, Target;
    assert ts[i..][0] == ts[i] && ts[i..][1..] == ts[i + 1..];
  }

  /** Section 2 of `check_glossary`; `order` is the order of the dictionary. */
  method CheckVariantGroups(terms: Terms, order: seq<string>, norm: string -> string) returns (issues: seq<Issue>)
    requires forall z :: z in order ==> z in terms
    ensures issues == Audit(terms, order, norm)
  {
    hide Sort, KeysOf, Members, TargetIssues, Distinct, Target, IssuesOf;
    var keys, byTarget := Bucket(order, Target(terms, norm));
    var targets := Sort(keys, StrLe);
    KeysFacts(order, Target(terms, norm));
    SortKeepsDistinct(keys);
    issues := [];
    assert targets[0..] == targets;
    for i := 0 to |targets|
      invariant issues + IssuesOf(terms, order, norm, targets[i..]) == IssuesOf(terms, order, norm, targets)
    {
      IssuesUnfold(terms, order, norm, targets, i);
      assert targets[i] in targets;
      issues := issues + TargetIssues(terms, targets[i], byTarget[targets[i]]);
    }
    assert targets[|targets|..] == [];
    NoIssues(terms, order, norm);
  }

  lemma NoIssues(terms: Terms, order: seq<string>, norm: string -> string)
    ensures IssuesOf(terms, order, norm, []) == []
  {
  }

  // ------------------------------------------------------- when a group is declared

  /** Every term that renders as `target`. */
  ghost predicate InGroup(terms: Terms, norm: string -> string, target: string, z: string) {
    z in terms && norm(terms[z].translation) == target
  }

  /** c is the one unmarked spelling of its rendering, and every other spelling points inside the group. */
  ghost predicate Declares(terms: Terms, norm: string -> string, target: string, c: string) {
    && target != ""
    && InGroup(terms, norm, target, c) && terms[c].variantOf == ""
    && (exists z :: InGroup(terms, norm, target, z) && z != c)
    && forall z :: InGroup(terms, norm, target, z) && z != c ==>
         terms[z].variantOf != "" && InGroup(terms, norm, target, terms[z].variantOf)
  }

  ghost predicate Lists(order: seq<string>, terms: Terms) {
    Distinct(order) && forall z :: z in order <==> z in terms
  }

  function Group(terms: Terms, order: seq<string>, norm: string -> string, target: string): seq<string> {
    Sort(Members(order, Target(terms, norm), target), StrLe)
  }

  lemma GroupHolds(terms: Terms, order: seq<string>, norm: string -> string, target: string)
    requires Lists(order, terms)
    ensures var g := Group(terms, order, norm, target);
      Distinct(g) && (forall z :: z in g <==> InGroup(terms, norm, target, z))
      && |g| == |Members(order, Target(terms, norm), target)|
  {
    var m := Members(order, Target(terms, norm), target);
    MembersDistinct(order, Target(terms, norm), target);
    MembersFacts(order, Target(terms, norm), target);
    StrLeIsPreorder();
    SortSorts(m, StrLe);
    SortKeepsDistinct(m);
  }

  lemma {:induction false} MembersDistinct(s: seq<string>, key: string -> string, k: string)
    requires Distinct(s)
    ensures Distinct(Members(s, key, k))
  {
    if s != [] {
      var t, x := s[..|s| - 1], s[|s| - 1];
      MembersDistinct(t, key, k);
      MembersFacts(t, key, k);
      assert x !in t;
      assert Distinct(Members(t, key, k) + [x]);
    }
  }

  lemma {:induction false} WhereDistinct(s: seq<string>, p: string -> bool)
    requires Distinct(s)
    ensures Distinct(Where(s, p))
  {
    if s != [] {
      var t, x := s[..|s| - 1], s[|s| - 1];
      WhereDistinct(t, p);
      WhereFacts(t, p, x);
      assert x !in t;
    }
  }

  /** One element, and that one is c. */
  lemma OnlyOne(s: seq<string>, c: string)
    requires Distinct(s)
    ensures s == [c] <==> c in s && forall z :: z in s ==> z == c
  {
    if c in s && (forall z :: z in s ==> z == c) && |s| >= 2 {
      assert s[0] in s && s[1] in s;
    }
  }

  /** A group that fits is declared exactly when its canonical spelling is the only unmarked one and no pointer
      leaves the group. */
  lemma GroupDeclared(terms: Terms, norm: string -> string, target: string, group: seq<string>, c: string)
    requires Distinct(group) && |group| >= 2 && target != ""
    requires forall z :: z in group <==> InGroup(terms, norm, target, z)
    ensures SourceVariants(target, group, c) in GroupIssues(terms, target, group) <==> Declares(terms, norm, target, c)
  {
    hide Where, Declares;
    var canonical, dangling, stray :=
      Where(group, Unmarked(terms)), Where(group, Dangles(terms)), Where(group, Strays(terms, group));
    WhereDistinct(group, Unmarked(terms));
    OnlyOne(canonical, c);
    assert SourceVariants(target, group, c) in GroupIssues(terms, target, group)
      <==> canonical == [c] && dangling == [] && stray == [];
    NoneWhere(group, Dangles(terms));
    NoneWhere(group, Strays(terms, group));
    forall z ensures z in canonical <==> z in group && Unmarked(terms)(z) {
      WhereFacts(group, Unmarked(terms), z);
    }
    DeclaresInGroup(terms, norm, target, group, c);
  }

  lemma NoneWhere(s: seq<string>, p: string -> bool)
    ensures Where(s, p) == [] <==> forall z :: z in s ==> !p(z)
  {
  }

  lemma DeclaresInGroup(terms: Terms, norm: string -> string, target: string, group: seq<string>, c: string)
    requires Distinct(group) && |group| >= 2 && target != ""
    requires forall z :: z in group <==> InGroup(terms, norm, target, z)
    ensures Declares(terms, norm, target, c)
      <==> (c in group && Unmarked(terms)(c) && (forall z :: z in group && Unmarked(terms)(z) ==> z == c)
            && (forall z :: z in group ==> !Dangles(terms)(z)) && (forall z :: z in group ==> !Strays(terms, group)(z)))
  {
    assert group[0] in group && group[1] in group;
  }

  lemma {:induction false} IssueFrom(terms: Terms, order: seq<string>, norm: string -> string, targets: seq<string>,
                                     issue: Issue)
    requires issue in IssuesOf(terms, order, norm, targets)
    ensures exists t :: t in targets && issue in TargetIssues(terms, t, Members(order, Target(terms, norm), t))
  {
    hide TargetIssues, Members, Target;
    if issue in TargetIssues(terms, targets[0], Members(order, Target(terms, norm), targets[0])) {
      assert targets[0] in targets;
    } else {
      IssueFrom(terms, order, norm, targets[1..], issue);
      var t :| t in targets[1..] && issue in TargetIssues(terms, t, Members(order, Target(terms, norm), t));
      assert t in targets;
    }
  }

  lemma {:induction false} IssueTo(terms: Terms, order: seq<string>, norm: string -> string, targets: seq<string>,
                                   issue: Issue, t: string)
    requires t in targets && issue in TargetIssues(terms, t, Members(order, Target(terms, norm), t))
    ensures issue in IssuesOf(terms, order, norm, targets)
  {
    hide TargetIssues, Members, Target;
    if targets[0] != t {
      IssueTo(terms, order, norm, targets[1..], issue, t);
    }
  }

  lemma DeclaredTarget(terms: Terms, target: string, sources: seq<string>, issue: Issue)
    requires issue.SourceVariants? && issue in TargetIssues(terms, target, sources)
    ensures issue.target == target
  {
  }

  /** The audit declares a group, with its canonical spelling, exactly when the group is one. */
  lemma DeclaredExact(terms: Terms, order: seq<string>, norm: string -> string, target: string, c: string)
    requires Lists(order, terms)
    ensures SourceVariants(target, Group(terms, order, norm, target), c) in Audit(terms, order, norm)
      <==> Declares(terms, norm, target, c)
  {
    hide Declares, TargetIssues, Members, Distinct, Sort, Targets, GroupIssues, Target, IssuesOf;
    var issue := SourceVariants(target, Group(terms, order, norm, target), c);
    var sources := Members(order, Target(terms, norm), target);
    GroupHolds(terms, order, norm, target);
    TargetIssuesOf(terms, target, sources);
    if issue in Audit(terms, order, norm) {
      IssueFrom(terms, order, norm, Targets(terms, order, norm), issue);
      var t :| t in Targets(terms, order, norm)
          && issue in TargetIssues(terms, t, Members(order, Target(terms, norm), t));
      DeclaredTarget(terms, t, Members(order, Target(terms, norm), t), issue);
      GroupDeclared(terms, norm, target, Group(terms, order, norm, target), c);
    }
    if Declares(terms, norm, target, c) {
      TargetListed(terms, order, norm, target, c);
      DeclaresTwo(terms, norm, target, Group(terms, order, norm, target), c);
      GroupDeclared(terms, norm, target, Group(terms, order, norm, target), c);
      IssueTo(terms, order, norm, Targets(terms, order, norm), issue, target);
    }
  }

  lemma TargetIssuesOf(terms: Terms, target: string, sources: seq<string>)
    ensures TargetIssues(terms, target, sources)
         == if |sources| < 2 || target == "" then [] else GroupIssues(terms, target, Sort(sources, StrLe))
  {
  }

  lemma TargetListed(terms: Terms, order: seq<string>, norm: string -> string, target: string, c: string)
    requires Lists(order, terms) && Declares(terms, norm, target, c)
    ensures target in Targets(terms, order, norm)
  {
    KeysFacts(order, Target(terms, norm));
    SortKeepsDistinct(KeysOf(order, Target(terms, norm)));
    assert c in order && Target(terms, norm)(c) == target;
  }

  lemma DeclaresTwo(terms: Terms, norm: string -> string, target: string, group: seq<string>, c: string)
    requires forall z :: z in group <==> InGroup(terms, norm, target, z)
    requires Declares(terms, norm, target, c)
    ensures |group| >= 2 && target != ""
  {
  }

  // ------------------------------------------------------- when the audit blocks

  predicate IsError(i: Issue) {
    i.DanglingVariantOf? || i.CrossGroupVariantOf? || (i.UndeclaredVariantGroup? && i.severity == Error)
  }

  /** Two spellings share a rendering, and one of them points outside it or two unmarked ones are rulings. */
  ghost predicate Contradicts(terms: Terms, norm: string -> string, target: string) {
    && target != ""
    && (exists y, z :: InGroup(terms, norm, target, y) && InGroup(terms, norm, target, z) && y != z)
    && ((exists z :: PointsOut(terms, norm, target, z))
        || exists y, z :: y != z && Rival(terms, norm, target, y) && Rival(terms, norm, target, z))
  }

  ghost predicate PointsOut(terms: Terms, norm: string -> string, target: string, z: string) {
    InGroup(terms, norm, target, z) && terms[z].variantOf != "" && !InGroup(terms, norm, target, terms[z].variantOf)
  }

  ghost predicate Rival(terms: Terms, norm: string -> string, target: string, z: string) {
    InGroup(terms, norm, target, z) && terms[z].variantOf == "" && terms[z].locked
  }

  lemma TwoIn(s: seq<string>)
    requires Distinct(s)
    ensures |s| >= 2 <==> exists y, z :: y in s && z in s && y != z
  {
    if |s| >= 2 {
      assert s[0] in s && s[1] in s;
    }
  }

  /** The findings on one group hold an error exactly when the group contradicts itself. */
  lemma GroupBlocked(terms: Terms, norm: string -> string, target: string, group: seq<string>)
    requires Distinct(group) && |group| >= 2 && target != ""
    requires forall z :: z in group <==> InGroup(terms, norm, target, z)
    ensures (exists i :: i in GroupIssues(terms, target, group) && IsError(i)) <==> Contradicts(terms, norm, target)
  {
    hide Where, InGroup;
    var canonical, dangling, stray :=
      Where(group, Unmarked(terms)), Where(group, Dangles(terms)), Where(group, Strays(terms, group));
    var rivals := Where(group, Locked(terms));
    TwoIn(group);
    WhereDistinct(group, Unmarked(terms));
    WhereDistinct(group, Locked(terms));
    TwoIn(canonical);
    TwoIn(rivals);
    NoneWhere(group, Dangles(terms));
    NoneWhere(group, Strays(terms, group));
    forall z ensures (z in canonical <==> z in group && Unmarked(terms)(z))
        && (z in rivals <==> z in group && Locked(terms)(z)) {
      WhereFacts(group, Unmarked(terms), z);
      WhereFacts(group, Locked(terms), z);
    }
    var last := if |canonical| == 1 && dangling == [] && stray == [] then SourceVariants(target, group, canonical[0])
                else UndeclaredVariantGroup(if |rivals| > 1 then Error else Warn, target, group, |canonical|);
    assert last in GroupIssues(terms, target, group);
    assert (exists i :: i in GroupIssues(terms, target, group) && IsError(i))
      <==> dangling != [] || stray != [] || IsError(last) by {
      GroupErrors(terms, target, group);
    }
    PointersOut(terms, norm, target, group);
    RivalsIn(terms, norm, target, group);
  }

  lemma GroupErrors(terms: Terms, target: string, group: seq<string>)
    ensures var canonical, dangling, stray :=
        Where(group, Unmarked(terms)), Where(group, Dangles(terms)), Where(group, Strays(terms, group));
      (exists i :: i in GroupIssues(terms, target, group) && IsError(i))
      <==> dangling != [] || stray != [] || (|canonical| != 1 && |Where(group, Locked(terms))| > 1)
  {
    hide Where;
    var issues := GroupIssues(terms, target, group);
    var dangling, stray := Where(group, Dangles(terms)), Where(group, Strays(terms, group));
    if dangling != [] {
      assert issues[0] == DanglingVariantOf(dangling);
      assert issues[0] in issues && IsError(issues[0]);
    } else if stray != [] {
      assert issues[0] == CrossGroupVariantOf(stray);
      assert issues[0] in issues && IsError(issues[0]);
    } else {
      assert |issues| == 1;
    }
  }

  lemma PointersOut(terms: Terms, norm: string -> string, target: string, group: seq<string>)
    requires forall z :: z in group <==> InGroup(terms, norm, target, z)
    ensures (exists z :: PointsOut(terms, norm, target, z))
       <==> !((forall z :: z in group ==> !Dangles(terms)(z)) && (forall z :: z in group ==> !Strays(terms, group)(z)))
  {
    forall z ensures PointsOut(terms, norm, target, z)
        <==> z in group && (Dangles(terms)(z) || Strays(terms, group)(z)) {
      assert z in group ==> (terms[z].variantOf in group <==> InGroup(terms, norm, target, terms[z].variantOf));
    }
  }

  lemma RivalsIn(terms: Terms, norm: string -> string, target: string, group: seq<string>)
    requires forall z :: z in group <==> InGroup(terms, norm, target, z)
    ensures forall z :: Rival(terms, norm, target, z) <==> z in group && Locked(terms)(z)
  {
  }

  /** The audit of variant groups blocks a termbase exactly when some group contradicts itself. */
  lemma BlockedExact(terms: Terms, order: seq<string>, norm: string -> string)
    requires Lists(order, terms)
    ensures (exists i :: i in Audit(terms, order, norm) && IsError(i))
        <==> exists target :: Contradicts(terms, norm, target)
  {
    hide Contradicts, TargetIssues, Members, Distinct, Sort, Targets, GroupIssues, Target, IssuesOf, IsError;
    if i :| i in Audit(terms, order, norm) && IsError(i) {
      IssueFrom(terms, order, norm, Targets(terms, order, norm), i);
      var t :| t in Targets(terms, order, norm) && i in TargetIssues(terms, t, Members(order, Target(terms, norm), t));
      TargetBlocked(terms, order, norm, t);
    }
    if t :| Contradicts(terms, norm, t) {
      TargetBlocked(terms, order, norm, t);
      ContradictionListed(terms, order, norm, t);
      var i :| i in TargetIssues(terms, t, Members(order, Target(terms, norm), t)) && IsError(i);
      IssueTo(terms, order, norm, Targets(terms, order, norm), i, t);
    }
  }

  lemma TargetBlocked(terms: Terms, order: seq<string>, norm: string -> string, target: string)
    requires Lists(order, terms)
    ensures (exists i :: i in TargetIssues(terms, target, Members(order, Target(terms, norm), target)) && IsError(i))
       <==> Contradicts(terms, norm, target)
  {
    hide Members, Distinct, Sort, GroupIssues, Target, IsError;
    var sources, group := Members(order, Target(terms, norm), target), Group(terms, order, norm, target);
    GroupHolds(terms, order, norm, target);
    TwoIn(group);
    if |sources| >= 2 && target != "" {
      GroupBlocked(terms, norm, target, group);
    }
  }

  lemma ContradictionListed(terms: Terms, order: seq<string>, norm: string -> string, target: string)
    requires Lists(order, terms) && Contradicts(terms, norm, target)
    ensures target in Targets(terms, order, norm)
  {
    KeysFacts(order, Target(terms, norm));
    SortKeepsDistinct(KeysOf(order, Target(terms, norm)));
    var z :| InGroup(terms, norm, target, z);
    assert z in order && Target(terms, norm)(z) == target;
  }

  // --------------------------------------------------------- order of the dictionary

  /** The report does not depend on the order of the dictionary. */
  lemma AuditOrderFree(terms: Terms, a: seq<string>, b: seq<string>, norm: string -> string)
    requires Lists(a, terms) && Lists(b, terms)
    ensures Audit(terms, a, norm) == Audit(terms, b, norm)
  {
    hide IssuesOf, Sort;
    var key := Target(terms, norm);
    KeysFacts(a, key);
    KeysFacts(b, key);
    SortedKeys(KeysOf(a, key), KeysOf(b, key));
    IssuesOrderFree(terms, a, b, norm, Targets(terms, a, norm));
  }

  lemma {:induction false} IssuesOrderFree(terms: Terms, a: seq<string>, b: seq<string>, norm: string -> string,
                                           ts: seq<string>)
    requires Lists(a, terms) && Lists(b, terms)
    ensures IssuesOf(terms, a, norm, ts) == IssuesOf(terms, b, norm, ts)
  {
    hide GroupIssues, Lists, Members, Sort, TargetIssues;
    if ts != [] {
      IssuesOrderFree(terms, a, b, norm, ts[1..]);
      SourcesOrderFree(terms, a, b, norm, ts[0]);
    }
  }

  lemma SourcesOrderFree(terms: Terms, a: seq<string>, b: seq<string>, norm: string -> string, t: string)
    requires Lists(a, terms) && Lists(b, terms)
    ensures TargetIssues(terms, t, Members(a, Target(terms, norm), t))
         == TargetIssues(terms, t, Members(b, Target(terms, norm), t))
  {
    hide GroupIssues, Members, Sort;
    var key := Target(terms, norm);
    MembersDistinct(a, key, t);
    MembersDistinct(b, key, t);
    MembersFacts(a, key, t);
    MembersFacts(b, key, t);
    SortedKeys(Members(a, key, t), Members(b, key, t));
    DistinctMultiset(Members(a, key, t), Members(b, key, t));
    SameElements(Members(a, key, t), Members(b, key, t));
  }

  // ------------------------------------------------- the editor and the checker agree

  /** Before the call: z will be in the group of the unified rendering. */
  ghost predicate Joins(terms: Terms, canonical: string, vs: seq<string>, norm: string -> string, target: string,
                        z: string)
  {
    z == canonical || (z in terms && (z in vs || norm(terms[z].translation) == target))
  }

  /** Before the call: the listed variants can name the canonical spelling, and every unlisted spelling of the
      rendering already points at a member of the group to be. */
  ghost predicate Declarable(terms: Terms, canonical: string, vs: seq<string>, norm: string -> string, target: string) {
    && target != ""
    && (exists z :: Joins(terms, canonical, vs, norm, target, z) && z != canonical)
    && forall z :: Joins(terms, canonical, vs, norm, target, z) && z != canonical ==>
         if z in vs then canonical != ""
         else terms[z].variantOf != "" && Joins(terms, canonical, vs, norm, target, terms[z].variantOf)
  }

  lemma JoinsExact(terms: Terms, canonical: string, vs: seq<string>, translation: string, origin: string,
                   norm: string -> string, z: string)
    requires GlossaryEdit.CanUnify(terms, canonical, translation)
    ensures var r := GlossaryEdit.Rendering(terms, canonical, translation);
      InGroup(GlossaryEdit.Unify(terms, canonical, vs, translation, origin, true).terms, norm, norm(r), z)
      <==> Joins(terms, canonical, vs, norm, norm(r), z)
  {
    hide GlossaryEdit.Unify, GlossaryEdit.Rendering;
    GlossaryEdit.UnifyExact(terms, canonical, vs, translation, origin, z);
  }

  /** After `unify_terms` that keeps its variants, the checker declares the group, with that canonical spelling,
      exactly when it was declarable. */
  lemma UnifyThenCheck(terms: Terms, canonical: string, vs: seq<string>, translation: string, origin: string,
                       norm: string -> string, order: seq<string>)
    requires GlossaryEdit.CanUnify(terms, canonical, translation)
    requires Lists(order, GlossaryEdit.Unify(terms, canonical, vs, translation, origin, true).terms)
    ensures var t := GlossaryEdit.Unify(terms, canonical, vs, translation, origin, true).terms;
      var target := norm(GlossaryEdit.Rendering(terms, canonical, translation));
      SourceVariants(target, Group(t, order, norm, target), canonical) in Audit(t, order, norm)
      <==> Declarable(terms, canonical, vs, norm, target)
  {
    hide GlossaryEdit.Unify, GlossaryEdit.Rendering, Audit, Group, Lists, Joins, InGroup;
    var t := GlossaryEdit.Unify(terms, canonical, vs, translation, origin, true).terms;
    var target := norm(GlossaryEdit.Rendering(terms, canonical, translation));
    DeclaredExact(t, order, norm, target, canonical);
    forall z ensures InGroup(t, norm, target, z) <==> Joins(terms, canonical, vs, norm, target, z) {
      JoinsExact(terms, canonical, vs, translation, origin, norm, z);
    }
    DeclarableExact(terms, canonical, vs, translation, origin, norm);
  }

  lemma DeclarableExact(terms: Terms, canonical: string, vs: seq<string>, translation: string, origin: string,
                        norm: string -> string)
    requires GlossaryEdit.CanUnify(terms, canonical, translation)
    ensures var t := GlossaryEdit.Unify(terms, canonical, vs, translation, origin, true).terms;
      var target := norm(GlossaryEdit.Rendering(terms, canonical, translation));
      Declares(t, norm, target, canonical) <==> Declarable(terms, canonical, vs, norm, target)
  {
    hide GlossaryEdit.Unify, GlossaryEdit.Rendering;
    var t := GlossaryEdit.Unify(terms, canonical, vs, translation, origin, true).terms;
    var target := norm(GlossaryEdit.Rendering(terms, canonical, translation));
    forall z ensures InGroup(t, norm, target, z) <==> Joins(terms, canonical, vs, norm, target, z) {
      JoinsExact(terms, canonical, vs, translation, origin, norm, z);
    }
    forall z ensures z in t && z != canonical ==>
      z in terms && t[z].variantOf == if z in vs then canonical else terms[z].variantOf {
      GlossaryEdit.UnifyExact(terms, canonical, vs, translation, origin, z);
    }
    GlossaryEdit.UnifyExact(terms, canonical, vs, translation, origin, canonical);
  }

  /** In particular when every spelling of the rendering is the canonical one or a listed variant. */
  lemma AllListedIsDeclarable(terms: Terms, canonical: string, vs: seq<string>, norm: string -> string, target: string)
    requires target != "" && canonical != ""
    requires exists v :: v in vs && v in terms && v != canonical
    requires forall z :: z in terms && norm(terms[z].translation) == target ==> z == canonical || z in vs
    ensures Declarable(terms, canonical, vs, norm, target)
  {
    var v :| v in vs && v in terms && v != canonical;
    assert Joins(terms, canonical, vs, norm, target, v);
  }
}
