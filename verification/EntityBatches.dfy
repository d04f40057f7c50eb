/** Batching rows so that one game entity stays in one call, with duplicate rows collapsed and domains kept
    apart (asset_paths.py `_split`, `asset_entity`, `group_by_entity`; grouping.py `_collapse_pairs` and the
    `by_entity` path of `plan_similarity_batches`). */
module EntityBatches {
  import opened Text
  import opened StableSort
  import opened Grouping

  // ------------------------------------------------------------- asset paths

  /** Index of the last dot, |s| when there is none (`rpartition`). */
  function LastDot(s: string): (n: nat)
    ensures n <= |s|
  {
    if s == [] then 0
    else
      var n := LastDot(s[1..]);
      if n < |s| - 1 then n + 1 else if s[0] == '.' then 0 else |s|
  }

  /** `asset::row` of a data-table reference, parsed from the right; "" when the location is none. */
  function AssetEntity(location: string): string {
    var loc := Strip(location);
    var i := LastDot(loc);
    if i == |loc| then ""
    else
      var head := loc[..i];
      var j := LastDot(head);
      if j == |head| || j == 0 || j + 1 == |head| then "" else head[..j] + "::" + head[j + 1..]
  }

  /** A reference with an asset, a row and a field keys on asset and row. */
  lemma EntityOfReference(asset: string, row: string, field: string)
    requires asset != [] && row != [] && '.' !in row && '.' !in field
    requires IsTrimmed(asset + ("." + (row + ("." + field))))
    ensures AssetEntity(asset + ("." + (row + ("." + field)))) == asset + "::" + row
  {
    var head := asset + ("." + row);
    var loc := asset + ("." + (row + ("." + field)));
    assert loc == head + ("." + field);
    StripTrimmed(loc);
    LastDotBehind(head, field);
    LastDotBehind(asset, row);
    assert loc[..|head|] == head && head[..|asset|] == asset && head[|asset| + 1..] == row;
  }

  lemma {:induction false} LastDotBehind(head: string, tail: string)
    requires '.' !in tail
    ensures LastDot(head + ("." + tail)) == |head|
  {
    var s := head + ("." + tail);
    if head == [] {
      assert s[1..] == tail && s[0] == '.';
      NoDot(tail);
    } else {
      assert s[1..] == head[1..] + ("." + tail);
      LastDotBehind(head[1..], tail);
    }
  }

  lemma {:induction false} NoDot(s: string)
    requires '.' !in s
    ensures LastDot(s) == |s|
  {
    if s != [] {
      assert s[0] in s && forall c :: c in s[1..] ==> c in s;
      NoDot(s[1..]);
    }
  }

  // -------------------------------------------------------------------- rows

  /** A row; `collapsed` lists the uids a merged row stands for, [] for a row as it came in. */
  datatype Row = Row(uid: string, text: string, target: string, domain: string, location: string,
      collapsed: seq<string>)

  function Sig(r: Row): (string, string) {
    (r.text, r.target)
  }

  function EntityOf(r: Row): string {
    AssetEntity(r.location)
  }

  function DomainOf(r: Row): string {
    r.domain
  }

  predicate HasEntity(r: Row) {
    EntityOf(r) != ""
  }

  predicate Loose(r: Row) {
    EntityOf(r) == ""
  }

  function IdsOf(r: Row): seq<string> {
    if r.collapsed == [] then [r.uid] else r.collapsed
  }

  function UidOf(r: Row): seq<string> {
    [r.uid]
  }

  /** The uids a list of rows stands for, and the uids of the rows themselves. */
  function Ids(rows: seq<Row>): seq<string> {
    Spread(rows, IdsOf)
  }

  function Uids(rows: seq<Row>): seq<string> {
    Spread(rows, UidOf)
  }

  // ---------------------------------------------------------------- collapsing

  /** The first row of a signature, carrying the uids of all. */
  function Merge(members: seq<Row>): Row
    requires members != []
  {
    members[0].(collapsed := Uids(members))
  }

  function CollapseKeys(rows: seq<Row>, sigs: seq<(string, string)>): seq<Row> {
    if sigs == [] then []
    else
      var m := Members(rows, Sig, sigs[0]);
      (if m == [] then [] else [Merge(m)]) + CollapseKeys(rows, sigs[1..])
  }

  function Collapse(rows: seq<Row>): seq<Row> {
    CollapseKeys(rows, KeysOf(rows, Sig))
  }

  lemma MembersNext(rows: seq<Row>, i: nat, s: (string, string))
    requires i < |rows|
    ensures Members(rows[..i + 1], Sig, s) == Members(rows[..i], Sig, s) + if Sig(rows[i]) == s then [rows[i]] else []
  {
    assert rows[..i + 1][..i] == rows[..i] && rows[..i + 1][i] == rows[i];
  }

  lemma MergeSnoc(m: seq<Row>, seg: Row)
    requires m != []
    ensures Merge(m + [seg]) == Merge(m).(collapsed := Merge(m).collapsed + [seg.uid])
  {
    SpreadConcat(m, [seg], UidOf);
    SpreadOne(seg, UidOf);
    assert [seg][1..] == [];
  }

  lemma MergeOne(seg: Row)
    ensures Merge([seg]) == seg.(collapsed := [seg.uid])
  {
    assert [seg][1..] == [];
    assert Uids([seg]) == [seg.uid] + Uids([]);
  }

  /** What the dictionary holds after some rows. */
  ghost predicate Holds(merged: map<(string, string), Row>, rows: seq<Row>) {
    forall s :: s in merged <==> Members(rows, Sig, s) != []
  }

  ghost predicate Gathered(merged: map<(string, string), Row>, rows: seq<Row>) {
    forall s :: s in merged ==> Members(rows, Sig, s) != [] && merged[s] == Merge(Members(rows, Sig, s))
  }

  /** One row meets the dictionary: its slot absorbs it, or it opens a slot. */
  function Absorb(merged: map<(string, string), Row>, seg: Row): map<(string, string), Row> {
    var sig := Sig(seg);
    if sig in merged then merged[sig := merged[sig].(collapsed := merged[sig].collapsed + [seg.uid])]
    else merged[sig := seg.(collapsed := [seg.uid])]
  }

  lemma AbsorbMerges(merged: map<(string, string), Row>, rows: seq<Row>, i: nat)
    requires i < |rows| && Holds(merged, rows[..i]) && Gathered(merged, rows[..i])
    ensures Holds(Absorb(merged, rows[i]), rows[..i + 1]) && Gathered(Absorb(merged, rows[i]), rows[..i + 1])
  {
    hide Members, Merge, Sig;
    var seg := rows[i];
    forall s ensures s in Absorb(merged, seg) <==> Members(rows[..i + 1], Sig, s) != [] {
      MembersNext(rows, i, s);
    }
    forall s | s in Absorb(merged, seg) ensures Members(rows[..i + 1], Sig, s) != []
                                             && Absorb(merged, seg)[s] == Merge(Members(rows[..i + 1], Sig, s)) {
      MembersNext(rows, i, s);
      if s == Sig(seg) && s in merged {
        MergeSnoc(Members(rows[..i], Sig, s), seg);
      } else if s == Sig(seg) {
        assert Members(rows[..i], Sig, s) + [seg] == [seg];
        MergeOne(seg);
      } else {
        assert Members(rows[..i], Sig, s) + [] == Members(rows[..i], Sig, s);
      }
    }
  }

  lemma KeyNext(rows: seq<Row>, i: nat)
    requires i < |rows|
    ensures KeysOf(rows[..i + 1], Sig)
         == if Sig(rows[i]) in KeysOf(rows[..i], Sig) then KeysOf(rows[..i], Sig)
            else KeysOf(rows[..i], Sig) + [Sig(rows[i])]
  {
    assert rows[..i + 1][..i] == rows[..i] && rows[..i + 1][i] == rows[i];
  }

  /** `_collapse_pairs`: rows merged in place in a dictionary, returned in order of first appearance. */
  method CollapsePairs(rows: seq<Row>) returns (out: seq<Row>)
    ensures out == Collapse(rows)
  {
    hide Uids, Merge, Members, KeysOf, Absorb;
    var merged: map<(string, string), Row>, order: seq<(string, string)> := map[], [];
    NoKeys();
    for i := 0 to |rows|
      invariant order == KeysOf(rows[..i], Sig)
      invariant forall s :: s in merged <==> s in order
      invariant Holds(merged, rows[..i]) && Gathered(merged, rows[..i])
    {
      hide Holds, Gathered, Sig;
      AbsorbMerges(merged, rows, i);
      AbsorbKeys(merged, rows[i]);
      KeyNext(rows, i);
      var seg := rows[i];
      var sig := Sig(seg);
      if sig in merged {
        merged := merged[sig := merged[sig].(collapsed := merged[sig].collapsed + [seg.uid])];
      } else {
        merged := merged[sig := seg.(collapsed := [seg.uid])];
        order := order + [sig];
      }
    }
    assert rows[..|rows|] == rows;
    out := [];
    assert order[0..] == order;
    for i := 0 to |order|
      invariant out + CollapseKeys(rows, order[i..]) == Collapse(rows)
    {
      assert order[i..][0] == order[i] && order[i..][1..] == order[i + 1..];
      assert order[i] in order;
      out := out + [merged[order[i]]];
    }
  }

  lemma NoKeys()
    ensures KeysOf([], Sig) == [] && forall s :: Members([], Sig, s) == []
  {
  }

  lemma AbsorbKeys(merged: map<(string, string), Row>, seg: Row)
    ensures Absorb(merged, seg)
         == if Sig(seg) in merged then
              merged[Sig(seg) := merged[Sig(seg)].(collapsed := merged[Sig(seg)].collapsed + [seg.uid])]
            else merged[Sig(seg) := seg.(collapsed := [seg.uid])]
  {
  }

  // ---------------------------------------------------------------- planning

  /** A name before its description: by the role of the field, then by uid. */
  predicate RoleBefore(role: string -> string, a: Row, b: Row) {
    var x, y := role(a.location), role(b.location);
    StrLe(x, y) && (x == y ==> StrLe(a.uid, b.uid))
  }

  function Before(role: string -> string): (Row, Row) -> bool {
    (a, b) => RoleBefore(role, a, b)
  }

  function EntityGroup(rows: seq<Row>, role: string -> string, e: string): seq<Row> {
    Sort(Members(Where(rows, HasEntity), EntityOf, e), Before(role))
  }

  function EntityGroups(rows: seq<Row>, role: string -> string, es: seq<string>): seq<seq<Row>> {
    if es == [] then [] else [EntityGroup(rows, role, es[0])] + EntityGroups(rows, role, es[1..])
  }

  function Singles(rows: seq<Row>): seq<seq<Row>> {
    if rows == [] then [] else [[rows[0]]] + Singles(rows[1..])
  }

  function Entities(rows: seq<Row>): seq<string> {
    Sort(KeysOf(Where(rows, HasEntity), EntityOf), StrLe)
  }

  /** `group_by_entity`: one group per entity, sorted, then every row without an entity on its own. */
  function GroupByEntity(rows: seq<Row>, role: string -> string): seq<seq<Row>> {
    EntityGroups(rows, role, Entities(rows)) + Singles(Where(rows, Loose))
  }

  function PlanEntities(rows: seq<Row>, role: string -> string, max: nat): seq<seq<Row>>
    requires max >= 1
  {
    Pack([], GroupByEntity(rows, role), max)
  }

  function PlanDomains(rows: seq<Row>, role: string -> string, ds: seq<string>, max: nat): seq<seq<Row>>
    requires max >= 1
  {
    if ds == [] then []
    else PlanEntities(Members(rows, DomainOf, ds[0]), role, max) + PlanDomains(rows, role, ds[1..], max)
  }

  function Domains(rows: seq<Row>): seq<string> {
    Sort(KeysOf(rows, DomainOf), StrLe)
  }

  function Plan(rows: seq<Row>, role: string -> string, max: nat, byDomain: bool): seq<seq<Row>>
    requires max >= 1
  {
    if byDomain then PlanDomains(rows, role, Domains(rows), max) else PlanEntities(rows, role, max)
  }

  /** `group.sort(...)` for every entity, in the order of the sorted entity names. */
  method SortWithin(rows: seq<Row>, role: string -> string, es: seq<string>, buckets: map<string, seq<Row>>)
    returns (groups: seq<seq<Row>>)
    requires forall e :: e in es ==> e in buckets && buckets[e] == Members(Where(rows, HasEntity), EntityOf, e)
    ensures groups == EntityGroups(rows, role, es)
  {
    hide Sort, Members, Where, Before;
    groups := [];
    assert es[0..] == es;
    for i := 0 to |es|
      invariant groups + EntityGroups(rows, role, es[i..]) == EntityGroups(rows, role, es)
    {
      assert es[i..][0] == es[i] && es[i..][1..] == es[i + 1..];
      assert es[i] in es;
      groups := groups + [Sort(buckets[es[i]], Before(role))];
    }
  }

  method AddSingles(loose: seq<Row>) returns (groups: seq<seq<Row>>)
    ensures groups == Singles(loose)
  {
    groups := [];
    assert loose[0..] == loose;
    for i := 0 to |loose|
      invariant groups + Singles(loose[i..]) == Singles(loose)
    {
      assert loose[i..][0] == loose[i] && loose[i..][1..] == loose[i + 1..];
      groups := groups + [[loose[i]]];
    }
  }

  method GroupRows(rows: seq<Row>, role: string -> string) returns (groups: seq<seq<Row>>)
    ensures groups == GroupByEntity(rows, role)
  {
    hide Sort, KeysOf, Members, Where, Distinct, EntityGroups, Singles;
    var having, loose := Separate(rows, HasEntity, Loose);
    var order, buckets := Bucket(having, EntityOf);
    var es := Sort(order, StrLe);
    KeysFacts(having, EntityOf);
    SortKeepsDistinct(order);
    var named := SortWithin(rows, role, es, buckets);
    var single := AddSingles(loose);
    groups := named + single;
  }

  method PlanEachDomain(rows: seq<Row>, role: string -> string, ds: seq<string>, buckets: map<string, seq<Row>>,
                        max: nat)
    returns (batches: seq<seq<Row>>)
    requires max >= 1 && forall d :: d in ds ==> d in buckets && buckets[d] == Members(rows, DomainOf, d)
    ensures batches == PlanDomains(rows, role, ds, max)
  {
    hide Members, Pack, GroupByEntity;
    batches := [];
    assert ds[0..] == ds;
    for i := 0 to |ds|
      invariant batches + PlanDomains(rows, role, ds[i..], max) == PlanDomains(rows, role, ds, max)
    {
      assert ds[i..][0] == ds[i] && ds[i..][1..] == ds[i + 1..];
      assert ds[i] in ds;
      var groups := GroupRows(buckets[ds[i]], role);
      var packed := PackGroups(groups, max);
      batches := batches + packed;
    }
  }

  /** The `by_entity` path of `plan_similarity_batches`: collapse, then split by domain, then pack entities. */
  method PlanSimilarityBatches(segments: seq<Row>, role: string -> string, max: nat, collapse: bool, byDomain: bool)
    returns (batches: seq<seq<Row>>)
    requires max >= 1
    ensures batches == Plan(if collapse then Collapse(segments) else segments, role, max, byDomain)
  {
    hide Collapse, Sort, KeysOf, Members, Pack, GroupByEntity, Distinct, PlanDomains;
    var rows := segments;
    if collapse {
      rows := CollapsePairs(segments);
    }
    if byDomain {
      var order, buckets := Bucket(rows, DomainOf);
      KeysFacts(rows, DomainOf);
      SortKeepsDistinct(order);
      batches := PlanEachDomain(rows, role, Sort(order, StrLe), buckets, max);
    } else {
      var groups := GroupRows(rows, role);
      batches := PackGroups(groups, max);
    }
  }

  // -------------------------------------------------- nothing lost, nothing added

  lemma RoleBeforeIsPreorder(role: string -> string)
    ensures TotalPreorder(Before(role))
  {
    forall a: Row, b: Row ensures RoleBefore(role, a, b) || RoleBefore(role, b, a) {
      StrTotal(role(a.location), role(b.location));
      StrTotal(a.uid, b.uid);
    }
    forall a: Row, b: Row, c: Row | RoleBefore(role, a, b) && RoleBefore(role, b, c) ensures RoleBefore(role, a, c) {
      RoleTransitive(role, a, b, c);
    }
  }

  lemma RoleTransitive(role: string -> string, a: Row, b: Row, c: Row)
    requires RoleBefore(role, a, b) && RoleBefore(role, b, c)
    ensures RoleBefore(role, a, c)
  {
    var x, y, z := role(a.location), role(b.location), role(c.location);
    StrTransitive(x, y, z);
    StrTotal(x, y);
    StrTotal(y, z);
    if x == y == z {
      StrTransitive(a.uid, b.uid, c.uid);
    }
  }

  lemma EntityGroupFacts(rows: seq<Row>, role: string -> string, e: string)
    ensures multiset(EntityGroup(rows, role, e)) == multiset(Members(Where(rows, HasEntity), EntityOf, e))
    ensures |EntityGroup(rows, role, e)| == |Members(Where(rows, HasEntity), EntityOf, e)|
    ensures Sorted(EntityGroup(rows, role, e), Before(role))
  {
    hide TotalPreorder, Members, Where;
    RoleBeforeIsPreorder(role);
    SortSorts(Members(Where(rows, HasEntity), EntityOf, e), Before(role));
  }

  lemma {:induction false} EntityGroupsPermute(rows: seq<Row>, role: string -> string, es: seq<string>)
    ensures multiset(Flatten(EntityGroups(rows, role, es)))
         == multiset(Flatten(Groups(Where(rows, HasEntity), EntityOf, es)))
  {
    if es == [] {
      NoGroups(Where(rows, HasEntity), EntityOf);
    } else {
      hide EntityGroup, Members, Where, Groups;
      EntityGroupsPermute(rows, role, es[1..]);
      GroupsCons(Where(rows, HasEntity), EntityOf, es);
      EntityGroupFacts(rows, role, es[0]);
      assert ([EntityGroup(rows, role, es[0])] + EntityGroups(rows, role, es[1..]))[1..]
          == EntityGroups(rows, role, es[1..]);
    }
  }

  lemma {:induction false} SinglesFlatten(rows: seq<Row>)
    ensures Flatten(Singles(rows)) == rows
  {
    if rows != [] {
      SinglesFlatten(rows[1..]);
      assert ([[rows[0]]] + Singles(rows[1..]))[1..] == Singles(rows[1..]);
    }
  }

  lemma PlanEntitiesPermutes(rows: seq<Row>, role: string -> string, max: nat)
    requires max >= 1
    ensures multiset(Flatten(PlanEntities(rows, role, max))) == multiset(rows)
  {
    hide Pack, Flatten, Groups, Members, Where, KeysOf, Sort, Singles, EntityGroups, Distinct;
    var es := Entities(rows);
    KeysFacts(Where(rows, HasEntity), EntityOf);
    SortKeepsDistinct(KeysOf(Where(rows, HasEntity), EntityOf));
    GroupsPermute(Where(rows, HasEntity), EntityOf, es);
    EntityGroupsPermute(rows, role, es);
    SinglesFlatten(Where(rows, Loose));
    FlattenConcat(EntityGroups(rows, role, es), Singles(Where(rows, Loose)));
    WhereSplits(rows, HasEntity, Loose);
    PackFlattens([], GroupByEntity(rows, role), max);
    assert [] + Flatten(GroupByEntity(rows, role)) == Flatten(GroupByEntity(rows, role));
  }

  lemma {:induction false} PlanDomainsPermutes(rows: seq<Row>, role: string -> string, ds: seq<string>, max: nat)
    requires max >= 1
    ensures multiset(Flatten(PlanDomains(rows, role, ds, max))) == multiset(Flatten(Groups(rows, DomainOf, ds)))
  {
    if ds == [] {
      NoGroups(rows, DomainOf);
    } else {
      hide PlanEntities, Flatten, Groups, Members;
      PlanDomainsPermutes(rows, role, ds[1..], max);
      PlanEntitiesPermutes(Members(rows, DomainOf, ds[0]), role, max);
      GroupsCons(rows, DomainOf, ds);
      FlattenConcat(PlanEntities(Members(rows, DomainOf, ds[0]), role, max), PlanDomains(rows, role, ds[1..], max));
    }
  }

  /** Every row that is planned is in exactly as many batches as it was handed in. */
  lemma PlanPermutes(rows: seq<Row>, role: string -> string, max: nat, byDomain: bool)
    requires max >= 1
    ensures multiset(Flatten(Plan(rows, role, max, byDomain))) == multiset(rows)
  {
    hide PlanEntities, PlanDomains, Flatten, Groups, KeysOf, Sort, Distinct;
    if byDomain {
      KeysFacts(rows, DomainOf);
      SortKeepsDistinct(KeysOf(rows, DomainOf));
      GroupsPermute(rows, DomainOf, Domains(rows));
      PlanDomainsPermutes(rows, role, Domains(rows), max);
    } else {
      PlanEntitiesPermutes(rows, role, max);
    }
  }

  /** One slot stands for the uids of all rows merged into it. */
  lemma SlotIds(m: seq<Row>)
    ensures Ids(if m == [] then [] else [Merge(m)]) == Uids(m)
  {
    if m != [] {
      SpreadOne(Merge(m), IdsOf);
      assert Uids(m) != [];
    }
  }

  lemma SlotsThen(a: seq<Row>, b: seq<Row>)
    ensures Ids(a + b) == Ids(a) + Ids(b) && Uids(a + b) == Uids(a) + Uids(b)
  {
    SpreadConcat(a, b, IdsOf);
    SpreadConcat(a, b, UidOf);
  }

  lemma {:induction false} CollapseIds(rows: seq<Row>, sigs: seq<(string, string)>)
    ensures multiset(Ids(CollapseKeys(rows, sigs))) == multiset(Uids(Flatten(Groups(rows, Sig, sigs))))
  {
    if sigs == [] {
      NoGroups(rows, Sig);
    } else {
      hide Members, Groups, Flatten, Ids, Uids, Merge;
      var m, rest := Members(rows, Sig, sigs[0]), CollapseKeys(rows, sigs[1..]);
      CollapseIds(rows, sigs[1..]);
      GroupsCons(rows, Sig, sigs);
      SlotIds(m);
      SlotsThen(if m == [] then [] else [Merge(m)], rest);
      SlotsThen(m, Flatten(Groups(rows, Sig, sigs[1..])));
    }
  }

  lemma {:induction false} PlainIds(rows: seq<Row>)
    requires forall r :: r in rows ==> r.collapsed == []
    ensures Ids(rows) == Uids(rows)
  {
    if rows != [] {
      assert rows[0] in rows;
      PlainIds(rows[1..]);
    }
  }

  function Planned(segments: seq<Row>, role: string -> string, max: nat, collapse: bool, byDomain: bool): seq<seq<Row>>
    requires max >= 1
  {
    Plan(if collapse then Collapse(segments) else segments, role, max, byDomain)
  }

  lemma CollapseKeepsIds(segments: seq<Row>)
    ensures multiset(Ids(Collapse(segments))) == multiset(Uids(segments))
  {
    hide Spread, Flatten, Groups, KeysOf, CollapseKeys, Distinct;
    KeysFacts(segments, Sig);
    GroupsPermute(segments, Sig, KeysOf(segments, Sig));
    SpreadPermute(Flatten(Groups(segments, Sig, KeysOf(segments, Sig))), segments, UidOf);
    CollapseIds(segments, KeysOf(segments, Sig));
  }

  /** The uids the output rows stand for are a permutation of the input uids. */
  lemma IdsConserved(segments: seq<Row>, role: string -> string, max: nat, collapse: bool, byDomain: bool)
    requires max >= 1 && forall r :: r in segments ==> r.collapsed == []
    ensures multiset(Ids(Flatten(Planned(segments, role, max, collapse, byDomain)))) == multiset(Uids(segments))
  {
    hide Plan, Flatten, Spread, Uids, Collapse;
    var rows := if collapse then Collapse(segments) else segments;
    PlanPermutes(rows, role, max, byDomain);
    SpreadPermute(Flatten(Plan(rows, role, max, byDomain)), rows, IdsOf);
    CollapseKeepsIds(segments);
    PlainIds(segments);
  }

  // ------------------------------------------------------- collapse is exact

  ghost predicate SigsApart(rows: seq<Row>) {
    forall i, j :: 0 <= i < j < |rows| ==> Sig(rows[i]) != Sig(rows[j])
  }

  lemma {:induction false} SigsListed(rows: seq<Row>, sigs: seq<(string, string)>, r: Row)
    requires r in CollapseKeys(rows, sigs)
    ensures Sig(r) in sigs
  {
    hide Members, Merge;
    var m := Members(rows, Sig, sigs[0]);
    if m != [] && r == Merge(m) {
      MergeSig(rows, sigs[0]);
    } else {
      SigsListed(rows, sigs[1..], r);
      assert forall s :: s in sigs[1..] ==> s in sigs;
    }
  }

  lemma MergeSig(rows: seq<Row>, sig: (string, string))
    requires Members(rows, Sig, sig) != []
    ensures Sig(Merge(Members(rows, Sig, sig))) == sig
  {
  }

  lemma {:induction false} CollapseApart(rows: seq<Row>, sigs: seq<(string, string)>)
    requires Distinct(sigs)
    ensures SigsApart(CollapseKeys(rows, sigs))
  {
    if sigs != [] {
      hide Members, Merge, Sig;
      var m, rest := Members(rows, Sig, sigs[0]), CollapseKeys(rows, sigs[1..]);
      CollapseApart(rows, sigs[1..]);
      if m == [] {
        assert [] + rest == rest;
      } else {
        MergeSig(rows, sigs[0]);
        forall j | 0 <= j < |rest| ensures Sig(rest[j]) != sigs[0] {
          SigsListed(rows, sigs[1..], rest[j]);
        }
        assert CollapseKeys(rows, sigs) == [Merge(m)] + rest;
      }
    }
  }

  lemma ApartPermutes(a: seq<Row>, b: seq<Row>)
    requires multiset(a) == multiset(b) && SigsApart(a)
    ensures SigsApart(b)
  {
    SameElements(a, b);
    assert Distinct(a);
    forall i, j | 0 <= i < j < |b| ensures Sig(b[i]) != Sig(b[j]) {
      assert b[i] in a && b[j] in a;
      if b[i] == b[j] {
        TwiceIn(b, i, j);
        DistinctOnce(a, b[i]);
      }
    }
  }

  /** With collapse, no two rows of the whole plan share text and target. */
  lemma NoDuplicateSlots(segments: seq<Row>, role: string -> string, max: nat, byDomain: bool)
    requires max >= 1
    ensures SigsApart(Flatten(Planned(segments, role, max, true, byDomain)))
  {
    hide Plan, Flatten, KeysOf, CollapseKeys, SigsApart, Distinct;
    KeysFacts(segments, Sig);
    CollapseApart(segments, KeysOf(segments, Sig));
    PlanPermutes(Collapse(segments), role, max, byDomain);
    ApartPermutes(Collapse(segments), Flatten(Planned(segments, role, max, true, byDomain)));
  }

  lemma {:induction false} UidsFrom(rows: seq<Row>, u: string)
    requires u in Uids(rows)
    ensures exists r :: r in rows && r.uid == u
  {
    if u == rows[0].uid {
      assert rows[0] in rows;
    } else {
      UidsFrom(rows[1..], u);
      var r :| r in rows[1..] && r.uid == u;
      assert r in rows;
    }
  }

  lemma {:induction false} MergedFrom(rows: seq<Row>, sigs: seq<(string, string)>, r: Row, u: string)
    requires r in CollapseKeys(rows, sigs) && u in IdsOf(r)
    ensures exists s :: s in rows && s.uid == u && Sig(s) == Sig(r)
  {
    var m := Members(rows, Sig, sigs[0]);
    MembersFacts(rows, Sig, sigs[0]);
    if m != [] && r == Merge(m) {
      assert m[0] in m;
      assert Uids(m) != [];
      UidsFrom(m, u);
    } else {
      MergedFrom(rows, sigs[1..], r, u);
    }
  }

  /** Rows are merged only with rows of the same text and the same target: every uid a planned row stands for
      came in with that text and target. */
  lemma OnlyEqualRowsMerge(segments: seq<Row>, role: string -> string, max: nat, byDomain: bool, r: Row, u: string)
    requires max >= 1 && r in Flatten(Planned(segments, role, max, true, byDomain)) && u in IdsOf(r)
    ensures exists s :: s in segments && s.uid == u && s.text == r.text && s.target == r.target
  {
    hide Plan, Flatten, KeysOf, CollapseKeys, IdsOf;
    PlanPermutes(Collapse(segments), role, max, byDomain);
    SameElements(Flatten(Planned(segments, role, max, true, byDomain)), Collapse(segments));
    MergedFrom(segments, KeysOf(segments, Sig), r, u);
  }

  // ------------------------------------------------------------ shape of batches

  /** Under `by_domain` every batch holds rows of one domain. */
  lemma {:induction false} OneDomainPerBatch(rows: seq<Row>, role: string -> string, ds: seq<string>, max: nat,
                                             b: seq<Row>)
    requires max >= 1 && b in PlanDomains(rows, role, ds, max)
    ensures exists d :: d in ds && forall r :: r in b ==> r.domain == d
  {
    hide PlanEntities, Members, Flatten;
    var m := Members(rows, DomainOf, ds[0]);
    if b in PlanEntities(m, role, max) {
      PlanEntitiesPermutes(m, role, max);
      SameElements(m, Flatten(PlanEntities(m, role, max)));
      MembersFacts(rows, DomainOf, ds[0]);
      forall r | r in b ensures r.domain == ds[0] {
        FlattenHas(PlanEntities(m, role, max), r);
      }
      assert ds[0] in ds;
    } else {
      OneDomainPerBatch(rows, role, ds[1..], max, b);
      var d :| d in ds[1..] && forall r :: r in b ==> r.domain == d;
      assert d in ds;
    }
  }

  lemma {:induction false} PlanSizes(rows: seq<Row>, role: string -> string, ds: seq<string>, max: nat)
    requires max >= 1
    ensures forall b :: b in PlanEntities(rows, role, max) ==> 1 <= |b| <= max
    ensures forall b :: b in PlanDomains(rows, role, ds, max) ==> 1 <= |b| <= max
  {
    PackSizes([], GroupByEntity(rows, role), max);
    if ds != [] {
      hide Pack, GroupByEntity;
      PlanSizes(rows, role, ds[1..], max);
      PackSizes([], GroupByEntity(Members(rows, DomainOf, ds[0]), role), max);
    }
  }

  lemma {:induction false} HasGroup(rows: seq<Row>, role: string -> string, es: seq<string>, e: string)
    requires e in es
    ensures EntityGroup(rows, role, e) in EntityGroups(rows, role, es)
  {
    if es[0] != e {
      HasGroup(rows, role, es[1..], e);
    }
  }

  /** An entity no larger than a batch is never split. */
  lemma EntityKeptWhole(rows: seq<Row>, role: string -> string, max: nat, e: string)
    requires max >= 1 && e in Entities(rows) && 1 <= |EntityGroup(rows, role, e)| <= max
    ensures InOneBatch(EntityGroup(rows, role, e), PlanEntities(rows, role, max))
  {
    hide EntityGroup, Entities, Pack, EntityGroups;
    HasGroup(rows, role, Entities(rows), e);
    PackKeepsWhole([], GroupByEntity(rows, role), max, EntityGroup(rows, role, e));
  }

  /** Under `by_domain` that holds of the entity's rows within each domain. */
  lemma {:induction false} EntityKeptWholeInDomain(rows: seq<Row>, role: string -> string, ds: seq<string>, max: nat,
                                                   d: string, e: string)
    requires max >= 1 && d in ds && e in Entities(Members(rows, DomainOf, d))
    requires 1 <= |EntityGroup(Members(rows, DomainOf, d), role, e)| <= max
    ensures InOneBatch(EntityGroup(Members(rows, DomainOf, d), role, e), PlanDomains(rows, role, ds, max))
  {
    hide EntityGroup, Entities, PlanEntities, Within, Members;
    var g := EntityGroup(Members(rows, DomainOf, d), role, e);
    var first := PlanEntities(Members(rows, DomainOf, ds[0]), role, max);
    var rest := PlanDomains(rows, role, ds[1..], max);
    if ds[0] == d {
      EntityKeptWhole(Members(rows, DomainOf, d), role, max, e);
      var b :| b in first && Within(g, b);
      assert b in first + rest;
    } else {
      EntityKeptWholeInDomain(rows, role, ds[1..], max, d, e);
      var b :| b in rest && Within(g, b);
      assert b in first + rest;
    }
  }
}
