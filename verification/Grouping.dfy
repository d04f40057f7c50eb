/** What the batch planners share: bucketing rows by a key, slicing, and packing whole groups into batches
    (the `setdefault(...).append(...)`, `range(0, n, max_size)` and `current` loops of grouping.py and
    asset_paths.py). */
module Grouping {
  import opened StableSort

  function Flatten<T>(bs: seq<seq<T>>): seq<T> {
    if bs == [] then [] else bs[0] + Flatten(bs[1..])
  }

  lemma {:induction false} FlattenConcat<T>(a: seq<seq<T>>, b: seq<seq<T>>)
    ensures Flatten(a + b) == Flatten(a) + Flatten(b)
  {
    if a == [] {
      assert a + b == b;
    } else {
      assert (a + b)[1..] == a[1..] + b;
      FlattenConcat(a[1..], b);
    }
  }

  /** What the elements of s stand for, in order. */
  function Spread<T, U>(s: seq<T>, f: T -> seq<U>): seq<U> {
    if s == [] then [] else f(s[0]) + Spread(s[1..], f)
  }

  lemma {:induction false} SpreadConcat<T, U>(a: seq<T>, b: seq<T>, f: T -> seq<U>)
    ensures Spread(a + b, f) == Spread(a, f) + Spread(b, f)
  {
    if a == [] {
      assert a + b == b;
    } else {
      assert (a + b)[1..] == a[1..] + b;
      SpreadConcat(a[1..], b, f);
    }
  }

  lemma SpreadOne<T, U>(x: T, f: T -> seq<U>)
    ensures Spread([x], f) == f(x)
  {
    assert [x][1..] == [] && f(x) + [] == f(x);
  }

  lemma SpreadWithout<T, U>(b: seq<T>, i: nat, f: T -> seq<U>)
    requires i < |b|
    ensures multiset(Spread(b, f)) == multiset(f(b[i])) + multiset(Spread(b[..i] + b[i + 1..], f))
  {
    hide Spread;
    var x, y := b[..i], b[i + 1..];
    assert b == x + ([b[i]] + y);
    SpreadConcat(x, [b[i]] + y, f);
    SpreadConcat([b[i]], y, f);
    SpreadOne(b[i], f);
    SpreadConcat(x, y, f);
  }

  /** Reordering the elements reorders what they stand for. */
  lemma {:induction false} SpreadPermute<T, U>(a: seq<T>, b: seq<T>, f: T -> seq<U>)
    requires multiset(a) == multiset(b)
    ensures multiset(Spread(a, f)) == multiset(Spread(b, f))
  {
    SameElements(a, b);
    if a != [] {
      hide Spread;
      var i := TakeOut(b, a[0]);
      Behead(a);
      SpreadPermute(a[1..], b[..i] + b[i + 1..], f);
      SpreadWithout(b, i, f);
      SpreadWithout(a, 0, f);
      assert a[..0] + a[0 + 1..] == a[1..];
    }
  }

  function Itself<T>(x: seq<T>): seq<T> {
    x
  }

  lemma {:induction false} FlattenIsSpread<T>(bs: seq<seq<T>>)
    ensures Flatten(bs) == Spread(bs, (x: seq<T>) => Itself(x))
  {
    if bs != [] {
      FlattenIsSpread(bs[1..]);
    }
  }

  /** Reordering the pieces reorders the whole. */
  lemma FlattenPermute<T>(a: seq<seq<T>>, b: seq<seq<T>>)
    requires multiset(a) == multiset(b)
    ensures multiset(Flatten(a)) == multiset(Flatten(b))
  {
    FlattenIsSpread(a);
    FlattenIsSpread(b);
    SpreadPermute(a, b, (x: seq<T>) => Itself(x));
  }

  lemma {:induction false} FlattenHas<T>(bs: seq<seq<T>>, x: T)
    ensures x in Flatten(bs) <==> exists b :: b in bs && x in b
  {
    if bs != [] {
      FlattenHas(bs[1..], x);
      assert forall b :: b in bs <==> b == bs[0] || b in bs[1..];
    }
  }

  lemma PairwiseConcat<T>(a: seq<T>, b: seq<T>, r: (T, T) -> bool)
    requires Pairwise(a, r) && Pairwise(b, r) && forall x, y :: x in a && y in b ==> r(x, y)
    ensures Pairwise(a + b, r)
  {
    var ab := a + b;
    forall i, j | 0 <= i < j < |ab| ensures r(ab[i], ab[j]) {
      if i < |a| <= j {
        assert ab[i] == a[i] && ab[j] == b[j - |a|];
      } else if j < |a| {
        assert ab[i] == a[i] && ab[j] == a[j];
      } else {
        assert ab[i] == b[i - |a|] && ab[j] == b[j - |a|];
      }
    }
  }

  /** Every element of a may stand in front of every one of b. */
  ghost predicate AllBefore<T>(a: seq<T>, b: seq<T>, r: (T, T) -> bool) {
    forall x, y :: x in a && y in b ==> r(x, y)
  }

  /** Parts that are in order, one behind the other, are in order as a whole. */
  lemma {:induction false} FlattenPairwise<T>(bs: seq<seq<T>>, r: (T, T) -> bool)
    requires forall b :: b in bs ==> Pairwise(b, r)
    requires forall i, j :: 0 <= i < j < |bs| ==> AllBefore(bs[i], bs[j], r)
    ensures Pairwise(Flatten(bs), r)
  {
    if bs != [] {
      hide Pairwise, AllBefore;
      var b, rest := bs[0], bs[1..];
      assert b in bs && forall c :: c in rest ==> c in bs;
      assert forall i :: 0 <= i < |rest| ==> rest[i] == bs[i + 1];
      FlattenPairwise(rest, r);
      forall y | y in Flatten(rest) ensures AllBefore(b, [y], r) {
        FlattenHas(rest, y);
        var c :| c in rest && y in c;
        var k :| 0 <= k < |rest| && rest[k] == c;
        BeforeOne(b, bs[k + 1], y, r);
      }
      BeforeEach(b, Flatten(rest), r);
      PairwiseConcat(b, Flatten(rest), r);
    } else {
      NothingPairwise(r);
    }
  }

  lemma NothingPairwise<T>(r: (T, T) -> bool)
    ensures Pairwise(Flatten<T>([]), r)
  {
  }

  lemma BeforeOne<T>(a: seq<T>, b: seq<T>, y: T, r: (T, T) -> bool)
    requires AllBefore(a, b, r) && y in b
    ensures AllBefore(a, [y], r)
  {
  }

  lemma BeforeEach<T>(a: seq<T>, b: seq<T>, r: (T, T) -> bool)
    requires forall y :: y in b ==> AllBefore(a, [y], r)
    ensures forall x, y :: x in a && y in b ==> r(x, y)
  {
    forall x, y | x in a && y in b ensures r(x, y) {
      assert y in [y];
    }
  }

  // ---------------------------------------------------------------- bucketing

  /** The rows that satisfy p, in arrival order. */
  function Where<T>(s: seq<T>, p: T -> bool): seq<T> {
    if s == [] then []
    else Where(s[..|s| - 1], p) + if p(s[|s| - 1]) then [s[|s| - 1]] else []
  }

  method Separate<T>(s: seq<T>, p: T -> bool, ghost q: T -> bool) returns (yes: seq<T>, no: seq<T>)
    requires forall x :: x in s ==> q(x) == !p(x)
    ensures yes == Where(s, p) && no == Where(s, q)
  {
    yes, no := [], [];
    for i := 0 to |s|
      invariant yes == Where(s[..i], p) && no == Where(s[..i], q)
    {
      assert s[..i + 1][..i] == s[..i] && s[..i + 1][i] == s[i];
      if p(s[i]) {
        yes := yes + [s[i]];
      } else {
        no := no + [s[i]];
      }
    }
    assert s[..|s|] == s;
  }

  lemma WhereLast<T>(s: seq<T>, p: T -> bool, x: T)
    requires s != []
    ensures multiset(Where(s, p))[x] == multiset(Where(s[..|s| - 1], p))[x] + if x == s[|s| - 1] && p(x) then 1 else 0
  {
  }

  lemma {:induction false} WhereCount<T>(s: seq<T>, p: T -> bool, x: T)
    ensures multiset(Where(s, p))[x] == if p(x) then multiset(s)[x] else 0
  {
    if s != [] {
      WhereCount(s[..|s| - 1], p, x);
      WhereLast(s, p, x);
      CountLast(s, x);
      hide Where;
    }
  }

  lemma WhereFacts<T>(s: seq<T>, p: T -> bool, x: T)
    ensures x in Where(s, p) <==> x in s && p(x)
  {
  }

  lemma WhereSnoc<T>(s: seq<T>, x: T, p: T -> bool)
    ensures Where(s + [x], p) == Where(s, p) + if p(x) then [x] else []
  {
    assert (s + [x])[..|s|] == s;
  }

  lemma {:induction false} WhereNone<T>(a: seq<T>, p: T -> bool)
    requires forall x :: x in a ==> !p(x)
    ensures Where(a, p) == []
  {
    if a != [] {
      assert a[|a| - 1] in a && forall x :: x in a[..|a| - 1] ==> x in a;
      WhereNone(a[..|a| - 1], p);
    }
  }

  lemma {:induction false} WhereTail<T>(a: seq<T>, b: seq<T>, p: T -> bool)
    requires (forall x :: x in a ==> !p(x)) && forall y :: y in b ==> p(y)
    ensures Where(a + b, p) == b
  {
    if b == [] {
      assert a + b == a;
      WhereNone(a, p);
    } else {
      hide Where;
      var c, y := b[..|b| - 1], b[|b| - 1];
      assert b == c + [y] && a + b == (a + c) + [y] && y in b && forall x :: x in c ==> x in b;
      WhereTail(a, c, p);
      WhereSnoc(a + c, y, p);
    }
  }

  lemma {:induction false} SameWhere<T(!new)>(s: seq<T>, p: T -> bool, q: T -> bool)
    requires forall x :: p(x) == q(x)
    ensures Where(s, p) == Where(s, q)
  {
    if s != [] {
      SameWhere(s[..|s| - 1], p, q);
    }
  }

  lemma {:induction false} WhereSorted<T>(s: seq<T>, p: T -> bool, le: (T, T) -> bool)
    requires Sorted(s, le)
    ensures Sorted(Where(s, p), le)
  {
    if s != [] {
      var t, x := s[..|s| - 1], s[|s| - 1];
      WhereSorted(t, p, le);
      forall y | y in Where(t, p) ensures le(y, x) {
        WhereFacts(t, p, y);
      }
    }
  }

  lemma WhereSplits<T(!new)>(s: seq<T>, p: T -> bool, q: T -> bool)
    requires forall x :: q(x) == !p(x)
    ensures multiset(Where(s, p)) + multiset(Where(s, q)) == multiset(s)
  {
    forall x: T ensures (multiset(Where(s, p)) + multiset(Where(s, q)))[x] == multiset(s)[x] {
      WhereCount(s, p, x);
      WhereCount(s, q, x);
    }
  }

  lemma WherePermutes<T(!new)>(a: seq<T>, b: seq<T>, p: T -> bool)
    requires multiset(a) == multiset(b)
    ensures multiset(Where(a, p)) == multiset(Where(b, p))
  {
    forall x: T ensures multiset(Where(a, p))[x] == multiset(Where(b, p))[x] {
      WhereCount(a, p, x);
      WhereCount(b, p, x);
    }
  }

  /** The distinct keys in order of first appearance: the insertion order of the bucket dictionary. */
  function KeysOf<T, K(==)>(s: seq<T>, key: T -> K): seq<K> {
    if s == [] then []
    else
      var ks, k := KeysOf(s[..|s| - 1], key), key(s[|s| - 1]);
      if k in ks then ks else ks + [k]
  }

  /** The rows of one bucket, in arrival order. */
  function Members<T, K(==)>(s: seq<T>, key: T -> K, k: K): seq<T> {
    if s == [] then []
    else Members(s[..|s| - 1], key, k) + if key(s[|s| - 1]) == k then [s[|s| - 1]] else []
  }

  method Bucket<T, K(==)>(s: seq<T>, key: T -> K) returns (order: seq<K>, buckets: map<K, seq<T>>)
    ensures order == KeysOf(s, key)
    ensures forall k :: k in buckets <==> k in order
    ensures forall k :: k in buckets ==> buckets[k] == Members(s, key, k)
  {
    order, buckets := [], map[];
    for i := 0 to |s|
      invariant order == KeysOf(s[..i], key)
      invariant forall k :: k in buckets <==> k in order
      invariant forall k :: k in buckets ==> buckets[k] == Members(s[..i], key, k)
    {
      var k := key(s[i]);
      assert s[..i + 1][..i] == s[..i] && s[..i + 1][i] == s[i];
      if k in buckets {
        buckets := buckets[k := buckets[k] + [s[i]]];
      } else {
        NotAMember(s[..i], key, k);
        order := order + [k];
        buckets := buckets[k := [s[i]]];
      }
    }
    assert s[..|s|] == s;
  }

  lemma {:induction false} NotAMember<T, K>(s: seq<T>, key: T -> K, k: K)
    requires k !in KeysOf(s, key)
    ensures Members(s, key, k) == []
  {
    if s != [] {
      NotAMember(s[..|s| - 1], key, k);
    }
  }

  predicate Distinct<K(==)>(ks: seq<K>) {
    forall i, j :: 0 <= i < j < |ks| ==> ks[i] != ks[j]
  }

  lemma {:induction false} KeysFacts<T, K>(s: seq<T>, key: T -> K)
    ensures Distinct(KeysOf(s, key)) && forall x :: x in s ==> key(x) in KeysOf(s, key)
    ensures forall k :: k in KeysOf(s, key) ==> exists x :: x in s && key(x) == k
  {
    if s != [] {
      var t, x := s[..|s| - 1], s[|s| - 1];
      KeysFacts(t, key);
      assert s == t + [x];
      var ks := KeysOf(t, key);
      if key(x) !in ks {
        assert KeysOf(s, key)[|ks|] == key(x);
      }
      forall k | k in KeysOf(s, key) ensures exists y :: y in s && key(y) == k {
        if k in ks {
          var y :| y in t && key(y) == k;
          assert y in s;
        } else {
          assert x in s;
        }
      }
    }
  }

  lemma {:induction false} MembersFacts<T, K>(s: seq<T>, key: T -> K, k: K)
    ensures forall x :: x in Members(s, key, k) <==> x in s && key(x) == k
  {
    if s != [] {
      MembersFacts(s[..|s| - 1], key, k);
      assert s == s[..|s| - 1] + [s[|s| - 1]];
    }
  }

  lemma CountSnoc<T>(s: seq<T>, y: T, x: T)
    ensures multiset(s + [y])[x] == multiset(s)[x] + if x == y then 1 else 0
  {
  }

  lemma CountLast<T>(s: seq<T>, x: T)
    requires s != []
    ensures multiset(s)[x] == multiset(s[..|s| - 1])[x] + if x == s[|s| - 1] then 1 else 0
  {
    assert s == s[..|s| - 1] + [s[|s| - 1]];
    CountSnoc(s[..|s| - 1], s[|s| - 1], x);
  }

  /** A stretch of b is the same stretch of a + b, further on; a stretch at the front of a stays there. */
  lemma Stretch<T>(a: seq<T>, b: seq<T>, i: nat, n: nat)
    ensures i + n <= |b| ==> (a + b)[|a| + i..|a| + i + n] == b[i..i + n]
    ensures i + n <= |a| ==> (a + b)[i..i + n] == a[i..i + n]
  {
  }

  lemma {:induction false} MembersCount<T, K>(s: seq<T>, key: T -> K, k: K, x: T)
    ensures multiset(Members(s, key, k))[x] == if key(x) == k then multiset(s)[x] else 0
  {
    if s != [] {
      MembersCount(s[..|s| - 1], key, k, x);
      CountLast(s, x);
    }
  }

  lemma MembersPermute<T(!new), K>(a: seq<T>, b: seq<T>, key: T -> K, k: K)
    requires multiset(a) == multiset(b)
    ensures multiset(Members(a, key, k)) == multiset(Members(b, key, k))
  {
    forall x: T ensures multiset(Members(a, key, k))[x] == multiset(Members(b, key, k))[x] {
      MembersCount(a, key, k, x);
      MembersCount(b, key, k, x);
    }
  }

  function Groups<T, K(==)>(s: seq<T>, key: T -> K, ks: seq<K>): seq<seq<T>> {
    seq(|ks|, i requires 0 <= i < |ks| => Members(s, key, ks[i]))
  }

  lemma MembersSnoc<T, K>(s: seq<T>, x: T, key: T -> K, k: K)
    ensures Members(s + [x], key, k) == Members(s, key, k) + if key(x) == k then [x] else []
  {
  }

  /** One more row joins exactly one bucket. */
  lemma {:induction false} GroupsSnoc<T, K>(s: seq<T>, x: T, key: T -> K, ks: seq<K>)
    requires Distinct(ks)
    ensures multiset(Flatten(Groups(s + [x], key, ks)))
         == multiset(Flatten(Groups(s, key, ks))) + if key(x) in ks then multiset{x} else multiset{}
  {
    hide Members, Flatten, Groups;
    if ks == [] {
      NoGroups(s, key);
      NoGroups(s + [x], key);
    } else {
      GroupsSnoc(s, x, key, ks[1..]);
      GroupsCons(s, key, ks);
      GroupsCons(s + [x], key, ks);
      MembersSnoc(s, x, key, ks[0]);
      assert key(x) in ks <==> key(x) == ks[0] || key(x) in ks[1..];
      if key(x) == ks[0] {
        assert key(x) !in ks[1..];
      }
    }
  }

  lemma NoGroups<T, K>(s: seq<T>, key: T -> K)
    ensures Flatten(Groups(s, key, [])) == []
  {
  }

  lemma GroupsCons<T, K>(s: seq<T>, key: T -> K, ks: seq<K>)
    requires ks != []
    ensures Flatten(Groups(s, key, ks)) == Members(s, key, ks[0]) + Flatten(Groups(s, key, ks[1..]))
  {
    assert Groups(s, key, ks)[1..] == Groups(s, key, ks[1..]);
  }

  /** The buckets together hold every row once, whatever order the keys are listed in. */
  lemma {:induction false} GroupsPermute<T, K>(s: seq<T>, key: T -> K, ks: seq<K>)
    requires Distinct(ks) && forall x :: x in s ==> key(x) in ks
    ensures multiset(Flatten(Groups(s, key, ks))) == multiset(s)
  {
    if s == [] {
      EmptyGroups<T, K>(key, ks);
    } else {
      var t, x := s[..|s| - 1], s[|s| - 1];
      assert s == t + [x];
      GroupsPermute(t, key, ks);
      GroupsSnoc(t, x, key, ks);
    }
  }

  lemma {:induction false} EmptyGroups<T, K>(key: T -> K, ks: seq<K>)
    ensures Flatten(Groups([], key, ks)) == []
  {
    if ks != [] {
      GroupsCons([], key, ks);
      EmptyGroups(key, ks[1..]);
    }
  }

  // ------------------------------------------------------------------ slicing

  function Chunks<T>(s: seq<T>, max: nat): seq<seq<T>>
    requires max >= 1
  {
    if s == [] then [] else if |s| <= max then [s] else [s[..max]] + Chunks(s[max..], max)
  }

  method Slice<T>(s: seq<T>, max: nat) returns (out: seq<seq<T>>)
    requires max >= 1
    ensures out == Chunks(s, max)
  {
    out := [];
    var i := 0;
    assert s[0..] == s;
    while i < |s|
      invariant 0 <= i && (i <= |s| ==> out + Chunks(s[i..], max) == Chunks(s, max))
      invariant i > |s| ==> out == Chunks(s, max)
    {
      var stop := if i + max <= |s| then i + max else |s|;
      if i + max <= |s| {
        assert s[i..][..max] == s[i..stop] && s[i..][max..] == s[i + max..];
        if i + max == |s| {
          assert s[i..stop] == s[i..] && s[i + max..] == [];
        }
      } else {
        assert s[i..stop] == s[i..];
      }
      out := out + [s[i..stop]];
      i := i + max;
    }
  }

  /** Chunks are consecutive stretches: all but the last are exactly max long. */
  lemma {:induction false} ChunksFacts<T>(s: seq<T>, max: nat)
    requires max >= 1
    ensures var cs := Chunks(s, max);
      && Flatten(cs) == s
      && (forall c :: c in cs ==> 1 <= |c| <= max)
      && (forall i :: 0 <= i < |cs| - 1 ==> |cs[i]| == max)
  {
    if |s| > max {
      ChunksFacts(s[max..], max);
      assert s == s[..max] + s[max..];
    } else if s != [] {
      assert [s][1..] == [];
    }
  }

  // ------------------------------------------------------------------ packing

  /** Whole groups share a batch as long as they fit; a group longer than a batch is cut into chunks. */
  function Pack<T>(current: seq<T>, groups: seq<seq<T>>, max: nat): seq<seq<T>>
    requires max >= 1
    decreases |groups|, |current|
  {
    if groups == [] then (if current == [] then [] else [current])
    else if current != [] && |current| + |groups[0]| > max then [current] + Pack([], groups, max)
    else if |groups[0]| > max then Chunks(groups[0], max) + Pack(current, groups[1..], max)
    else Pack(current + groups[0], groups[1..], max)
  }

  lemma PackEnds<T>(current: seq<T>, max: nat)
    requires max >= 1
    ensures Pack(current, [], max) == if current == [] then [] else [current]
  {
  }

  lemma PackCloses<T>(current: seq<T>, groups: seq<seq<T>>, max: nat)
    requires max >= 1 && groups != [] && current != [] && |current| + |groups[0]| > max
    ensures Pack(current, groups, max) == [current] + Pack([], groups, max)
  {
  }

  lemma PackTakes<T>(current: seq<T>, groups: seq<seq<T>>, max: nat)
    requires max >= 1 && groups != [] && |groups[0]| <= max && (current != [] ==> |current| + |groups[0]| <= max)
    ensures Pack(current, groups, max) == Pack(current + groups[0], groups[1..], max)
  {
  }

  lemma PackCuts<T>(groups: seq<seq<T>>, max: nat)
    requires max >= 1 && groups != [] && |groups[0]| > max
    ensures Pack([], groups, max) == Chunks(groups[0], max) + Pack([], groups[1..], max)
  {
    hide Chunks;
  }

  method PackGroups<T>(groups: seq<seq<T>>, max: nat) returns (batches: seq<seq<T>>)
    requires max >= 1
    ensures batches == Pack([], groups, max)
  {
    hide Chunks, Pack;
    batches := [];
    var current: seq<T> := [];
    assert groups[0..] == groups;
    for i := 0 to |groups|
      invariant batches + Pack(current, groups[i..], max) == Pack([], groups, max)
      invariant |current| <= max
    {
      var g := groups[i];
      assert groups[i..][0] == g && groups[i..][1..] == groups[i + 1..];
      if current != [] && |current| + |g| > max {
        PackCloses(current, groups[i..], max);
        batches := batches + [current];
        current := [];
      }
      if |g| > max {
        PackCuts(groups[i..], max);
        var cut := Slice(g, max);
        batches := batches + cut;
        continue;
      }
      PackTakes(current, groups[i..], max);
      current := current + g;
    }
    assert groups[|groups|..] == [];
    PackEnds(current, max);
    if current != [] {
      batches := batches + [current];
    }
  }

  lemma {:induction false} PackFlattens<T>(current: seq<T>, groups: seq<seq<T>>, max: nat)
    requires max >= 1 && |current| <= max
    ensures Flatten(Pack(current, groups, max)) == current + Flatten(groups)
    decreases |groups|, |current|
  {
    hide Chunks;
    if groups == [] {
      assert current + [] == current;
      assert [current][1..] == [];
    } else if current != [] && |current| + |groups[0]| > max {
      PackFlattens([], groups, max);
      assert ([current] + Pack([], groups, max))[1..] == Pack([], groups, max);
      assert [] + Flatten(groups) == Flatten(groups);
    } else if |groups[0]| > max {
      PackFlattens(current, groups[1..], max);
      FlattenConcat(Chunks(groups[0], max), Pack(current, groups[1..], max));
      ChunksFacts(groups[0], max);
      assert groups[0] + ([] + Flatten(groups[1..])) == [] + (groups[0] + Flatten(groups[1..]));
    } else {
      PackFlattens(current + groups[0], groups[1..], max);
      assert current + groups[0] + Flatten(groups[1..]) == current + (groups[0] + Flatten(groups[1..]));
    }
  }

  lemma {:induction false} PackSizes<T>(current: seq<T>, groups: seq<seq<T>>, max: nat)
    requires max >= 1 && |current| <= max
    ensures forall b :: b in Pack(current, groups, max) ==> 1 <= |b| <= max
    decreases |groups|, |current|
  {
    if groups == [] {
    } else if current != [] && |current| + |groups[0]| > max {
      PackSizes([], groups, max);
    } else if |groups[0]| > max {
      PackSizes(current, groups[1..], max);
      ChunksFacts(groups[0], max);
    } else {
      PackSizes(current + groups[0], groups[1..], max);
    }
  }

  /** x stands in s as one stretch. */
  ghost predicate Within<T>(x: seq<T>, s: seq<T>) {
    exists i :: At(x, s, i)
  }

  ghost predicate At<T>(x: seq<T>, s: seq<T>, i: int) {
    0 <= i && i + |x| <= |s| && s[i..i + |x|] == x
  }

  ghost predicate InOneBatch<T>(x: seq<T>, batches: seq<seq<T>>) {
    exists b :: b in batches && Within(x, b)
  }

  lemma WithinGrows<T>(x: seq<T>, a: seq<T>, b: seq<T>)
    ensures Within(x, a) ==> Within(x, a + b)
    ensures Within(x, a + x)
  {
    if i :| At(x, a, i) {
      assert (a + b)[i..i + |x|] == a[i..i + |x|];
      assert At(x, a + b, i);
    }
    assert At(x, a + x, |a|);
  }

  /** A group that fits a batch is never split: it stands in one batch, in its own order. */
  lemma {:induction false} PackKeepsWhole<T>(current: seq<T>, groups: seq<seq<T>>, max: nat, x: seq<T>)
    requires max >= 1 && x != []
    requires Within(x, current) || (x in groups && |x| <= max)
    ensures InOneBatch(x, Pack(current, groups, max))
    decreases |groups|, |current|
  {
    if groups == [] {
      assert current in [current];
    } else if current != [] && |current| + |groups[0]| > max {
      var rest := Pack([], groups, max);
      if Within(x, current) {
        assert ([current] + rest)[0] == current;
      } else {
        PackKeepsWhole([], groups, max, x);
        var b :| b in rest && Within(x, b);
        assert b in [current] + rest;
      }
    } else if |groups[0]| > max {
      var cut, rest := Chunks(groups[0], max), Pack(current, groups[1..], max);
      PackKeepsWhole(current, groups[1..], max, x);
      var b :| b in rest && Within(x, b);
      assert b in cut + rest;
    } else {
      WithinGrows(x, current, groups[0]);
      PackKeepsWhole(current + groups[0], groups[1..], max, x);
    }
  }

  /** The batch under construction is the front of the first batch. */
  lemma {:induction false} PackFront<T>(current: seq<T>, groups: seq<seq<T>>, max: nat)
    requires max >= 1 && current != [] && forall g :: g in groups ==> |g| <= max
    ensures var p := Pack(current, groups, max); p != [] && current <= p[0]
    decreases |groups|
  {
    if groups != [] && |current| + |groups[0]| <= max {
      PackFront(current + groups[0], groups[1..], max);
    }
  }

  predicate Tight<T>(batches: seq<seq<T>>, max: nat) {
    forall i :: 0 <= i < |batches| - 1 ==> |batches[i]| + |batches[i + 1]| > max
  }

  /** Any two adjacent packed batches together exceed the batch size. */
  lemma {:induction false} PackTight<T>(current: seq<T>, groups: seq<seq<T>>, max: nat)
    requires max >= 1 && |current| <= max && forall g :: g in groups ==> 1 <= |g| <= max
    ensures Tight(Pack(current, groups, max), max)
    decreases |groups|, |current|
  {
    if groups == [] {
    } else if current != [] && |current| + |groups[0]| > max {
      PackTight([], groups, max);
      assert groups[0] in groups;
      assert [] + groups[0] == groups[0];
      PackFront(groups[0], groups[1..], max);
    } else {
      assert groups[0] in groups;
      PackTight(current + groups[0], groups[1..], max);
    }
  }

  /** So packing is at worst about twice the ideal: k batches hold at least (max + 1) rows per two batches. */
  lemma {:induction false} TightBound<T>(batches: seq<seq<T>>, max: nat)
    requires Tight(batches, max)
    ensures (|batches| / 2) * (max + 1) <= |Flatten(batches)|
  {
    if |batches| >= 2 {
      var rest := batches[2..];
      forall i | 0 <= i < |rest| - 1 ensures |rest[i]| + |rest[i + 1]| > max {
        assert rest[i] == batches[i + 2] && rest[i + 1] == batches[i + 3];
        assert |batches[i + 2]| + |batches[i + 2 + 1]| > max;
      }
      TightBound(rest, max);
      assert batches[1..][1..] == rest;
      assert |batches[0]| + |batches[0 + 1]| > max;
      assert |Flatten(batches)| == |batches[0]| + (|batches[1]| + |Flatten(rest)|);
      assert |batches| / 2 == |rest| / 2 + 1;
      assert (|rest| / 2 + 1) * (max + 1) == (|rest| / 2) * (max + 1) + (max + 1);
    }
  }

  /** What stands in front of a group longer than a batch is packed by itself, and so is what stands behind it. */
  lemma {:induction false} PackLong<T>(current: seq<T>, a: seq<seq<T>>, g: seq<T>, b: seq<seq<T>>, max: nat)
    requires 1 <= max < |g|
    ensures Pack(current, a + ([g] + b), max) == Pack(current, a, max) + (Chunks(g, max) + Pack([], b, max))
    decreases |a|, |current|
  {
    hide Chunks;
    var groups, rest := a + ([g] + b), Chunks(g, max) + Pack([], b, max);
    if a == [] {
      assert groups == [g] + b && groups[1..] == b;
      assert Pack([], groups, max) == rest;
      assert current == [] ==> Pack(current, a, max) + rest == rest;
    } else {
      assert groups[0] == a[0] && groups[1..] == a[1..] + ([g] + b);
      if current != [] && |current| + |a[0]| > max {
        PackLong([], a, g, b, max);
        assert [current] + (Pack([], a, max) + rest) == ([current] + Pack([], a, max)) + rest;
      } else if |a[0]| > max {
        PackLong(current, a[1..], g, b, max);
        assert Chunks(a[0], max) + (Pack(current, a[1..], max) + rest)
            == (Chunks(a[0], max) + Pack(current, a[1..], max)) + rest;
      } else {
        PackLong(current + a[0], a[1..], g, b, max);
      }
    }
  }

  /** Batch i is run i of the groups, taken whole. */
  ghost predicate InRuns<T>(runs: seq<seq<seq<T>>>, batches: seq<seq<T>>, max: nat) {
    |runs| == |batches|
    && forall i :: 0 <= i < |runs| ==> runs[i] != [] && batches[i] == Flatten(runs[i]) && |batches[i]| <= max
  }

  /** No batch had room for the group that opens the next. */
  ghost predicate Greedy<T>(runs: seq<seq<seq<T>>>, batches: seq<seq<T>>, max: nat) {
    InRuns(runs, batches, max)
    && forall i :: 0 < i < |runs| ==> |batches[i - 1]| + |runs[i][0]| > max
  }

  lemma RunInFront<T>(run: seq<seq<T>>, runs: seq<seq<seq<T>>>, batches: seq<seq<T>>, max: nat)
    requires InRuns(runs, batches, max) && run != [] && |Flatten(run)| <= max
    ensures InRuns([run] + runs, [Flatten(run)] + batches, max)
  {
    hide Flatten;
  }

  lemma GreedyMore<T>(run: seq<seq<T>>, runs: seq<seq<seq<T>>>, batches: seq<seq<T>>, max: nat)
    requires Greedy(runs, batches, max) && run != [] && |Flatten(run)| <= max
    requires runs != [] ==> |Flatten(run)| + |runs[0][0]| > max
    ensures Greedy([run] + runs, [Flatten(run)] + batches, max)
    ensures Flatten([run] + runs) == run + Flatten(runs)
  {
    RunInFront(run, runs, batches, max);
    hide InRuns;
    assert ([run] + runs)[1..] == runs;
    hide Flatten;
    var rs, bs := [run] + runs, [Flatten(run)] + batches;
    forall i | 0 < i < |rs| ensures |bs[i - 1]| + |rs[i][0]| > max {
      assert rs[i] == runs[i - 1];
      if i > 1 {
        assert bs[i - 1] == batches[i - 1 - 1];
      }
    }
  }

  /** Groups that fit are packed greedily; `run` lists the groups under construction. */
  lemma {:induction false} PackRuns<T>(run: seq<seq<T>>, groups: seq<seq<T>>, max: nat) returns (runs: seq<seq<seq<T>>>)
    requires max >= 1 && |Flatten(run)| <= max
    requires (run == [] || Flatten(run) != []) && forall g :: g in groups ==> 1 <= |g| <= max
    ensures Greedy(runs, Pack(Flatten(run), groups, max), max) && Flatten(runs) == run + groups
    ensures run != [] ==> runs != [] && runs[0][0] == run[0]
    ensures run == [] && groups != [] ==> runs != [] && runs[0][0] == groups[0]
    decreases |groups|, |run|
  {
    hide Greedy, Pack, Flatten;
    NoRuns<T>(max);
    var current := Flatten(run);
    if groups == [] {
      runs := [];
      PackEnds(current, max);
      if run != [] {
        GreedyMore(run, [], [], max);
        runs := [run];
        assert [current] + [] == [current] && [run] + [] == [run];
      }
      assert run + groups == run && run + [] == run;
    } else {
      assert groups[0] in groups;
      if run != [] && |current| + |groups[0]| > max {
        runs := PackRuns([], groups, max);
        PackCloses(current, groups, max);
        GreedyMore(run, runs, Pack([], groups, max), max);
        runs := [run] + runs;
        assert [] + groups == groups;
      } else {
        FlattenConcat(run, [groups[0]]);
        FlattenOne(groups[0]);
        PackTakes(current, groups, max);
        assert forall g :: g in groups[1..] ==> g in groups;
        runs := PackRuns(run + [groups[0]], groups[1..], max);
        assert run + [groups[0]] + groups[1..] == run + groups;
      }
    }
  }

  lemma NoRuns<T>(max: nat)
    ensures Greedy<T>([], [], max) && Flatten<seq<T>>([]) == [] && Flatten<T>([]) == []
  {
  }

  lemma FlattenOne<T>(g: seq<T>)
    ensures Flatten([g]) == g
  {
    assert [g][1..] == [];
  }

  /** Groups that fit a batch are packed greedily, in their order; with `PackLong` this says what packing does to any
      list of non-empty groups. */
  lemma PackGreedy<T>(groups: seq<seq<T>>, max: nat)
    requires max >= 1 && forall g :: g in groups ==> 1 <= |g| <= max
    ensures exists runs :: Flatten(runs) == groups && Greedy(runs, Pack([], groups, max), max)
  {
    NoRuns<T>(max);
    var runs := PackRuns([], groups, max);
    assert [] + groups == groups;
  }

  // ------------------------------------------------------------ string order

  /** Python's order on strings: by code point, a prefix first. */
  predicate StrLe(a: string, b: string) {
    a == [] || (b != [] && (a[0] < b[0] || (a[0] == b[0] && StrLe(a[1..], b[1..]))))
  }

  /** The first i characters agree, and then a ends or has the smaller character. */
  ghost predicate FirstDiffer(a: string, b: string, i: nat) {
    i <= |a| && i <= |b| && a[..i] == b[..i] && (i == |a| || (i < |b| && a[i] < b[i]))
  }

  lemma SameHead(a: string, b: string, i: nat)
    ensures FirstDiffer(a, b, i) && i > 0 ==> b != [] && a != [] && a[0] == b[0]
  {
    if FirstDiffer(a, b, i) && i > 0 {
      assert a[..i][0] == a[0] && b[..i][0] == b[0];
    }
  }

  lemma {:induction false} StrLeExact(a: string, b: string)
    ensures StrLe(a, b) <==> exists i: nat :: FirstDiffer(a, b, i)
  {
    if a == [] {
      assert FirstDiffer(a, b, 0);
    } else if b != [] && a[0] == b[0] {
      StrLeExact(a[1..], b[1..]);
      if i: nat :| FirstDiffer(a[1..], b[1..], i) {
        assert a[..i + 1] == [a[0]] + a[1..][..i] && b[..i + 1] == [b[0]] + b[1..][..i];
        assert FirstDiffer(a, b, i + 1);
      }
      if i: nat :| FirstDiffer(a, b, i) {
        if i > 0 {
          assert a[1..][..i - 1] == a[..i][1..] && b[1..][..i - 1] == b[..i][1..];
          assert FirstDiffer(a[1..], b[1..], i - 1);
        }
      }
    } else {
      forall i: nat ensures FirstDiffer(a, b, i) ==> i == 0 || (b != [] && a[0] == b[0]) {
        SameHead(a, b, i);
      }
      if b != [] && a[0] < b[0] {
        assert FirstDiffer(a, b, 0);
      }
    }
  }

  lemma {:induction false} StrTotal(a: string, b: string)
    ensures StrLe(a, b) || StrLe(b, a)
    ensures StrLe(a, b) && StrLe(b, a) ==> a == b
  {
    if a != [] && b != [] {
      StrTotal(a[1..], b[1..]);
      assert a == [a[0]] + a[1..] && b == [b[0]] + b[1..];
    }
  }

  lemma {:induction false} StrTransitive(a: string, b: string, c: string)
    requires StrLe(a, b) && StrLe(b, c)
    ensures StrLe(a, c)
  {
    if a != [] && a[0] == b[0] == c[0] {
      StrTransitive(a[1..], b[1..], c[1..]);
    }
  }

  lemma StrLeIsPreorder()
    ensures TotalPreorder(StrLe)
  {
    forall a, b ensures StrLe(a, b) || StrLe(b, a) {
      StrTotal(a, b);
    }
    forall a, b, c | StrLe(a, b) && StrLe(b, c) ensures StrLe(a, c) {
      StrTransitive(a, b, c);
    }
  }

  /** The sorted keys depend on the set of keys only. */
  lemma SortedKeys(a: seq<string>, b: seq<string>)
    requires Distinct(a) && Distinct(b) && forall k :: k in a <==> k in b
    ensures Sort(a, StrLe) == Sort(b, StrLe)
  {
    StrLeIsPreorder();
    SortSorts(a, StrLe);
    SortSorts(b, StrLe);
    DistinctMultiset(a, b);
    SameElements(a, Sort(a, StrLe));
    forall x, y | x in Sort(a, StrLe) && y in Sort(a, StrLe) && StrLe(x, y) && StrLe(y, x) ensures x == y {
      StrTotal(x, y);
    }
    SortedUnique(Sort(a, StrLe), Sort(b, StrLe), StrLe);
  }

  lemma {:induction false} DistinctOnce<K>(a: seq<K>, k: K)
    requires Distinct(a)
    ensures multiset(a)[k] == if k in a then 1 else 0
  {
    if a != [] {
      DistinctOnce(a[1..], k);
      assert a == [a[0]] + a[1..];
      assert a[0] !in a[1..];
    }
  }

  lemma DistinctMultiset<K(!new)>(a: seq<K>, b: seq<K>)
    requires Distinct(a) && Distinct(b) && forall k :: k in a <==> k in b
    ensures multiset(a) == multiset(b)
  {
    forall k: K ensures multiset(a)[k] == multiset(b)[k] {
      DistinctOnce(a, k);
      DistinctOnce(b, k);
    }
  }

  lemma SortKeepsDistinct(a: seq<string>)
    requires Distinct(a)
    ensures Distinct(Sort(a, StrLe)) && forall k :: k in Sort(a, StrLe) <==> k in a
  {
    StrLeIsPreorder();
    SortSorts(a, StrLe);
    SameElements(a, Sort(a, StrLe));
    var s := Sort(a, StrLe);
    forall i, j | 0 <= i < j < |s| ensures s[i] != s[j] {
      if s[i] == s[j] {
        TwiceIn(s, i, j);
        DistinctOnce(a, s[i]);
      }
    }
  }

  ghost predicate NamesAscend(names: seq<string>) {
    forall i, j :: 0 <= i < j < |names| ==> names[i] != names[j] && StrLe(names[i], names[j])
  }

  lemma SortedNamesAscend(keys: seq<string>)
    requires Distinct(keys)
    ensures NamesAscend(Sort(keys, StrLe))
  {
    StrLeIsPreorder();
    SortSorts(keys, StrLe);
    SortKeepsDistinct(keys);
  }

  lemma TwiceIn<K>(s: seq<K>, i: nat, j: nat)
    requires i < j < |s| && s[i] == s[j]
    ensures multiset(s)[s[i]] >= 2
  {
    assert s == s[..j] + ([s[j]] + s[j + 1..]);
    assert s[i] in s[..j] && s[i] in multiset(s[..j]);
  }
}
