/** The entity plan read off the rows themselves: which of two planned rows stands first (asset_paths.py `_split`,
    `asset_entity`, `group_by_entity`; grouping.py `plan_similarity_batches`). */
module EntityOrder {
  import opened Text
  import opened StableSort
  import opened Grouping
  import opened EntityBatches

  // ------------------------------------------------------------ the entity of a row

  /** The location, blanks around it aside, is a reference to a field of a row of an asset. */
  predicate Refers(location: string, asset: string, row: string, field: string) {
    && asset != [] && row != [] && '.' !in row && '.' !in field
    && Strip(location) == asset + ("." + (row + ("." + field)))
  }

  lemma {:induction false} DotSplits(s: string)
    ensures LastDot(s) < |s| ==> s == s[..LastDot(s)] + ("." + s[LastDot(s) + 1..]) && '.' !in s[LastDot(s) + 1..]
    ensures LastDot(s) == |s| ==> '.' !in s
  {
    if s != [] {
      var n, t := LastDot(s[1..]), s[1..];
      DotSplits(t);
      assert s == [s[0]] + t;
      if n < |t| {
        assert s[n + 1 + 1..] == t[n + 1..] && s[..n + 1] == [s[0]] + t[..n];
      } else if s[0] == '.' {
        assert s[..0] == [] && s[0 + 1..] == t;
      }
    }
  }

  lemma RefersThen(location: string, asset: string, row: string, field: string)
    requires Refers(location, asset, row, field)
    ensures AssetEntity(location) == asset + "::" + row
  {
    hide LastDot, Strip;
    StripIsTrim(location);
    StripTrimmed(Strip(location));
    EntityOfReference(asset, row, field);
    assert AssetEntity(Strip(location)) == AssetEntity(location);
  }

  lemma EntityParts(location: string)
    requires AssetEntity(location) != ""
    ensures var loc := Strip(location); var i := LastDot(loc);
      i < |loc| && var j := LastDot(loc[..i]); 0 < j && j + 1 < i
  {
    hide LastDot, Strip;
  }

  lemma Rejoin(a: string, b: string, c: string)
    ensures (a + ("." + b)) + ("." + c) == a + ("." + (b + ("." + c)))
  {
  }

  lemma ThenRefers(location: string) returns (asset: string, row: string, field: string)
    requires AssetEntity(location) != ""
    ensures Refers(location, asset, row, field)
  {
    hide LastDot, Strip, AssetEntity;
    EntityParts(location);
    var loc := Strip(location);
    var i := LastDot(loc);
    var head := loc[..i];
    var j := LastDot(head);
    DotSplits(loc);
    DotSplits(head);
    asset, row, field := head[..j], head[j + 1..], loc[i + 1..];
    Rejoin(asset, row, field);
  }

  /** A location has an entity exactly when it is such a reference, and then it is asset and row. */
  lemma EntityExact(location: string)
    ensures AssetEntity(location) != "" <==> exists asset, row, field :: Refers(location, asset, row, field)
    ensures forall asset, row, field :: Refers(location, asset, row, field) ==>
      AssetEntity(location) == asset + "::" + row
  {
    hide AssetEntity, Refers;
    forall asset, row, field | Refers(location, asset, row, field)
      ensures AssetEntity(location) == asset + "::" + row && AssetEntity(location) != "" {
      RefersThen(location, asset, row, field);
      assert |asset + "::" + row| >= 2;
    }
    if AssetEntity(location) != "" {
      var asset, row, field := ThenRefers(location);
      assert Refers(location, asset, row, field);
    }
  }

  // ---------------------------------------------------------------- row order

  predicate SmallerRole(role: string -> string, x: Row, y: Row) {
    var a, b := role(x.location), role(y.location);
    if a == b then StrLe(x.uid, y.uid) else StrLe(a, b)
  }

  /** x may stand in front of y: rows without an entity stand behind all others, entities one after the other by name,
      and the rows of one by the role of their field, uids deciding ties. */
  predicate EntityInOrder(role: string -> string, x: Row, y: Row) {
    var e, f := AssetEntity(x.location), AssetEntity(y.location);
    if f == "" then true
    else if e == "" then false
    else if e == f then SmallerRole(role, x, y)
    else StrLe(e, f)
  }

  /** With domains kept apart, by domain first. */
  predicate InPlace(role: string -> string, byDomain: bool, x: Row, y: Row) {
    if byDomain && x.domain != y.domain then StrLe(x.domain, y.domain) else EntityInOrder(role, x, y)
  }

  function Order(role: string -> string, byDomain: bool): (Row, Row) -> bool {
    (x, y) => InPlace(role, byDomain, x, y)
  }

  lemma GroupInOrder(rows: seq<Row>, role: string -> string, e: string)
    requires e != ""
    ensures Pairwise(EntityGroup(rows, role, e), Order(role, false))
    ensures forall x :: x in EntityGroup(rows, role, e) ==> AssetEntity(x.location) == e
  {
    hide AssetEntity, Members, Where, StrLe;
    var m, g := Members(Where(rows, HasEntity), EntityOf, e), EntityGroup(rows, role, e);
    RoleBeforeIsPreorder(role);
    SortSorts(m, Before(role));
    SameElements(g, m);
    MembersFacts(Where(rows, HasEntity), EntityOf, e);
    forall x | x in g ensures AssetEntity(x.location) == e {
      assert x in m && EntityOf(x) == e;
    }
    hide EntityGroup;
    forall i, j | 0 <= i < j < |g| ensures Order(role, false)(g[i], g[j]) {
      assert g[i] in g && g[j] in g && Before(role)(g[i], g[j]);
    }
  }

  lemma EntitiesAscend(rows: seq<Row>)
    ensures NamesAscend(Entities(rows)) && forall e :: e in Entities(rows) ==> e != ""
  {
    hide Where, KeysOf, Sort, AssetEntity;
    var s := Where(rows, HasEntity);
    KeysFacts(s, EntityOf);
    SortedNamesAscend(KeysOf(s, EntityOf));
    SortKeepsDistinct(KeysOf(s, EntityOf));
    forall e | e in Entities(rows) ensures e != "" {
      var x :| x in s && EntityOf(x) == e;
      WhereFacts(rows, HasEntity, x);
    }
  }

  lemma {:induction false} GroupsAre(rows: seq<Row>, role: string -> string, es: seq<string>)
    ensures |EntityGroups(rows, role, es)| == |es|
    ensures forall i :: 0 <= i < |es| ==> EntityGroups(rows, role, es)[i] == EntityGroup(rows, role, es[i])
  {
    hide EntityGroup;
    if es != [] {
      GroupsAre(rows, role, es[1..]);
    }
  }

  lemma GroupsApart(g: seq<Row>, h: seq<Row>, role: string -> string, e: string, f: string)
    requires e != f && f != "" && e != "" && StrLe(e, f)
    requires forall x :: x in g ==> AssetEntity(x.location) == e
    requires forall y :: y in h ==> AssetEntity(y.location) == f
    ensures AllBefore(g, h, Order(role, false))
  {
    hide AssetEntity, StrLe, SmallerRole;
  }

  lemma EntitiesInOrder(rows: seq<Row>, role: string -> string)
    ensures Pairwise(Flatten(EntityGroups(rows, role, Entities(rows))), Order(role, false))
    ensures forall x :: x in Flatten(EntityGroups(rows, role, Entities(rows))) ==> HasEntity(x)
  {
    hide EntityGroups, EntityGroup, Entities, Flatten, Pairwise, AssetEntity, StrLe, SmallerRole;
    var es := Entities(rows);
    var gs := EntityGroups(rows, role, es);
    EntitiesAscend(rows);
    GroupsAre(rows, role, es);
    forall i | 0 <= i < |es|
      ensures Pairwise(gs[i], Order(role, false)) && forall x: Row :: x in gs[i] ==> AssetEntity(x.location) == es[i] {
      assert es[i] in es;
      GroupInOrder(rows, role, es[i]);
    }
    forall i, j | 0 <= i < j < |gs| ensures AllBefore(gs[i], gs[j], Order(role, false)) {
      assert es[i] in es && es[j] in es;
      GroupsApart(gs[i], gs[j], role, es[i], es[j]);
    }
    FlattenPairwise(gs, Order(role, false));
    forall x | x in Flatten(gs) ensures HasEntity(x) {
      FlattenHas(gs, x);
      var g :| g in gs && x in g;
      var k :| 0 <= k < |gs| && gs[k] == g;
      assert es[k] in es;
    }
  }

  /** One domain, or all rows: the rows of entities in order, then those without one as they came. */
  lemma PlanEntitiesIs(rows: seq<Row>, role: string -> string, max: nat)
    requires max >= 1
    ensures Flatten(PlanEntities(rows, role, max))
         == Flatten(EntityGroups(rows, role, Entities(rows))) + Where(rows, Loose)
  {
    hide EntityGroups, Entities, Flatten, Pack, Where, Singles;
    var gs := EntityGroups(rows, role, Entities(rows));
    PackFlattens([], GroupByEntity(rows, role), max);
    assert [] + Flatten(GroupByEntity(rows, role)) == Flatten(GroupByEntity(rows, role));
    FlattenConcat(gs, Singles(Where(rows, Loose)));
    SinglesFlatten(Where(rows, Loose));
  }

  lemma PlanEntitiesInOrder(rows: seq<Row>, role: string -> string, max: nat)
    requires max >= 1
    ensures Pairwise(Flatten(PlanEntities(rows, role, max)), Order(role, false))
    ensures Where(Flatten(PlanEntities(rows, role, max)), Loose) == Where(rows, Loose)
  {
    hide EntityGroups, Entities, Flatten, PlanEntities, Where, AssetEntity, SmallerRole, StrLe, Pairwise;
    var named, loose := Flatten(EntityGroups(rows, role, Entities(rows))), Where(rows, Loose);
    PlanEntitiesIs(rows, role, max);
    EntitiesInOrder(rows, role);
    forall x | x in loose ensures Loose(x) {
      WhereFacts(rows, Loose, x);
    }
    LooseInOrder(loose, role);
    PairwiseConcat(named, loose, Order(role, false));
    WhereTail(named, loose, Loose);
  }

  lemma LooseInOrder(loose: seq<Row>, role: string -> string)
    requires forall x :: x in loose ==> Loose(x)
    ensures Pairwise(loose, Order(role, false))
  {
    hide AssetEntity, SmallerRole, StrLe;
    forall i, j | 0 <= i < j < |loose| ensures Order(role, false)(loose[i], loose[j]) {
      assert loose[j] in loose;
    }
  }

  // --------------------------------------------------------------- main results

  lemma DomainPlanned(rows: seq<Row>, role: string -> string, d: string, max: nat)
    requires max >= 1
    ensures var flat := Flatten(PlanEntities(Members(rows, DomainOf, d), role, max));
      Pairwise(flat, Order(role, true)) && forall x :: x in flat ==> x.domain == d
  {
    hide PlanEntities, Flatten, Members, EntityInOrder;
    var m := Members(rows, DomainOf, d);
    var flat := Flatten(PlanEntities(m, role, max));
    PlanEntitiesInOrder(m, role, max);
    PlanEntitiesPermutes(m, role, max);
    SameElements(flat, m);
    MembersFacts(rows, DomainOf, d);
    forall x | x in flat ensures x.domain == d {
      assert x in m && DomainOf(x) == d;
    }
    forall i, j | 0 <= i < j < |flat| ensures Order(role, true)(flat[i], flat[j]) {
      assert flat[i] in flat && flat[j] in flat && Order(role, false)(flat[i], flat[j]);
    }
  }

  lemma {:induction false} DomainsInOrder(rows: seq<Row>, role: string -> string, ds: seq<string>, max: nat)
    requires max >= 1 && NamesAscend(ds)
    ensures var flat := Flatten(PlanDomains(rows, role, ds, max));
      Pairwise(flat, Order(role, true)) && forall x :: x in flat ==> x.domain in ds
  {
    hide PlanEntities, Flatten, Members, EntityInOrder, StrLe, Pairwise;
    if ds == [] {
      NothingPairwise(Order(role, true));
      assert PlanDomains(rows, role, ds, max) == [] && Flatten<Row>([]) == [] by {
        NothingPlanned();
      }
    } else {
      var d, rest := ds[0], ds[1..];
      var first, more := PlanEntities(Members(rows, DomainOf, d), role, max), PlanDomains(rows, role, rest, max);
      assert forall i :: 0 <= i < |rest| ==> rest[i] == ds[i + 1];
      DomainPlanned(rows, role, d, max);
      DomainsInOrder(rows, role, rest, max);
      FlattenConcat(first, more);
      forall x, y | x in Flatten(first) && y in Flatten(more) ensures Order(role, true)(x, y) {
        var k :| 0 <= k < |rest| && rest[k] == y.domain;
        assert ds[0] != ds[k + 1] && StrLe(ds[0], ds[k + 1]);
      }
      PairwiseConcat(Flatten(first), Flatten(more), Order(role, true));
    }
  }

  lemma NothingPlanned()
    ensures Flatten<Row>([]) == []
  {
  }

  /** The plan, row by row: whichever of two planned rows stands first, it may. Under `by_domain` domains follow each
      other by name; within one, or without, entities follow each other by name, the rows of one by the role of their
      field and then by uid; rows without an entity come last. */
  lemma PlanInOrder(rows: seq<Row>, role: string -> string, max: nat, byDomain: bool)
    requires max >= 1
    ensures Pairwise(Flatten(Plan(rows, role, max, byDomain)), Order(role, byDomain))
  {
    hide PlanEntities, PlanDomains, Flatten, KeysOf, Pairwise, EntityInOrder, StrLe;
    if byDomain {
      KeysFacts(rows, DomainOf);
      SortedNamesAscend(KeysOf(rows, DomainOf));
      DomainsInOrder(rows, role, Domains(rows), max);
    } else {
      PlanEntitiesInOrder(rows, role, max);
    }
  }

  /** Without `by_domain`, rows without an entity keep the order they came in. */
  lemma LooseRowsInOrder(rows: seq<Row>, role: string -> string, max: nat)
    requires max >= 1
    ensures Where(Flatten(Plan(rows, role, max, false)), Loose) == Where(rows, Loose)
  {
    hide PlanEntities, Flatten, Where;
    PlanEntitiesInOrder(rows, role, max);
  }

  // --------------------------------------------------------------- duplicate rows

  predicate SameTexts(x: Row, y: Row) {
    x.text == y.text && x.target == y.target
  }

  function Absorbed(y: Row, x: Row): Row {
    if SameTexts(y, x) then y.(collapsed := y.collapsed + [x.uid]) else y
  }

  /** What one more row makes of the collapsed rows: the one with its text and target takes its uid, behind those it
      has; without such a row it is put at the end, carrying its own. */
  function Collapsed(out: seq<Row>, x: Row): seq<Row> {
    if forall y :: y in out ==> !SameTexts(y, x) then out + [x.(collapsed := [x.uid])]
    else seq(|out|, i requires 0 <= i < |out| => Absorbed(out[i], x))
  }

  lemma {:induction false} KeysCollapse(rows: seq<Row>, x: Row, sigs: seq<(string, string)>)
    requires forall k :: k in sigs ==> Members(rows, Sig, k) != []
    ensures var (c, n) := (CollapseKeys(rows, sigs), CollapseKeys(rows + [x], sigs));
      |c| == |n| == |sigs|
      && forall i :: 0 <= i < |sigs| ==>
           Sig(c[i]) == sigs[i]
           && n[i] == if sigs[i] == Sig(x) then c[i].(collapsed := c[i].collapsed + [x.uid]) else c[i]
  {
    hide Members, Merge, Uids;
    if sigs != [] {
      KeysCollapse(rows, x, sigs[1..]);
      MemberMerged(rows, x, sigs[0]);
    }
  }

  lemma MemberMerged(rows: seq<Row>, x: Row, k: (string, string))
    requires Members(rows, Sig, k) != []
    ensures var (m, n) := (Members(rows, Sig, k), Members(rows + [x], Sig, k));
      n != [] && Sig(Merge(m)) == k
      && Merge(n) == if k == Sig(x) then Merge(m).(collapsed := Merge(m).collapsed + [x.uid]) else Merge(m)
  {
    hide Members, Uids;
    var m := Members(rows, Sig, k);
    MembersSnoc(rows, x, Sig, k);
    MembersFacts(rows, Sig, k);
    assert m[0] in m;
    if k == Sig(x) {
      MergeSnoc(m, x);
    } else {
      assert m + [] == m;
    }
  }

  lemma {:induction false} KeysConcat(rows: seq<Row>, a: seq<(string, string)>, b: seq<(string, string)>)
    ensures CollapseKeys(rows, a + b) == CollapseKeys(rows, a) + CollapseKeys(rows, b)
  {
    hide Members, Merge;
    if a == [] {
      assert a + b == b;
    } else {
      assert (a + b)[1..] == a[1..] + b;
      KeysConcat(rows, a[1..], b);
    }
  }

  lemma NewKey(rows: seq<Row>, x: Row)
    requires Sig(x) !in KeysOf(rows, Sig)
    ensures CollapseKeys(rows + [x], [Sig(x)]) == [x.(collapsed := [x.uid])]
  {
    hide Uids;
    NotAMember(rows, Sig, Sig(x));
    MembersSnoc(rows, x, Sig, Sig(x));
    MergeOne(x);
    assert [Sig(x)][1..] == [];
  }

  lemma KeysHold(rows: seq<Row>)
    ensures Distinct(KeysOf(rows, Sig))
    ensures forall k :: k in KeysOf(rows, Sig) ==> Members(rows, Sig, k) != []
  {
    hide KeysOf, Members, Distinct;
    KeysFacts(rows, Sig);
    forall k | k in KeysOf(rows, Sig) ensures Members(rows, Sig, k) != [] {
      var y :| y in rows && Sig(y) == k;
      MembersFacts(rows, Sig, k);
      assert y in Members(rows, Sig, k);
    }
  }

  lemma KeySnoc(rows: seq<Row>, x: Row)
    ensures KeysOf(rows + [x], Sig)
         == if Sig(x) in KeysOf(rows, Sig) then KeysOf(rows, Sig) else KeysOf(rows, Sig) + [Sig(x)]
  {
    assert (rows + [x])[..|rows|] == rows;
  }

  /** `_collapse_pairs` row by row. */
  lemma CollapseExact(rows: seq<Row>, x: Row)
    ensures Collapse([]) == []
    ensures Collapse(rows + [x]) == Collapsed(Collapse(rows), x)
  {
    hide Members, KeysOf, CollapseKeys;
    var keys, c := KeysOf(rows, Sig), Collapse(rows);
    NothingCollapsed();
    KeysHold(rows);
    KeysCollapse(rows, x, keys);
    KeySnoc(rows, x);
    forall i | 0 <= i < |c| ensures SameTexts(c[i], x) <==> keys[i] == Sig(x) {
      assert Sig(c[i]) == keys[i];
    }
    if Sig(x) in keys {
      var i :| 0 <= i < |keys| && keys[i] == Sig(x);
      assert c[i] in c && SameTexts(c[i], x);
      assert Collapse(rows + [x]) == Collapsed(c, x);
    } else {
      NewKey(rows, x);
      KeysConcat(rows + [x], keys, [Sig(x)]);
      assert CollapseKeys(rows + [x], keys) == c;
    }
  }

  lemma NothingCollapsed()
    ensures Collapse([]) == []
  {
  }
}
