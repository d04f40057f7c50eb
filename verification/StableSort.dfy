/** Python's `sorted`: a stable sort by a total preorder. */
module StableSort {

  ghost predicate TotalPreorder<T(!new)>(le: (T, T) -> bool) {
    && (forall x, y :: le(x, y) || le(y, x))
    && (forall x, y, z :: le(x, y) && le(y, z) ==> le(x, z))
  }

  ghost predicate Sorted<T>(s: seq<T>, le: (T, T) -> bool) {
    forall i, j :: 0 <= i < j < |s| ==> le(s[i], s[j])
  }

  /** x stood in front of s, so it goes in front of the elements equal to it. */
  function Insert<T>(x: T, s: seq<T>, le: (T, T) -> bool): seq<T> {
    if s == [] then [x] else if le(x, s[0]) then [x] + s else [s[0]] + Insert(x, s[1..], le)
  }

  function Sort<T>(s: seq<T>, le: (T, T) -> bool): seq<T> {
    if s == [] then [] else Insert(s[0], Sort(s[1..], le), le)
  }

  lemma {:induction false} InsertElements<T>(x: T, s: seq<T>, le: (T, T) -> bool)
    ensures multiset(Insert(x, s, le)) == multiset{x} + multiset(s)
  {
    if s != [] && !le(x, s[0]) {
      InsertElements(x, s[1..], le);
      assert s == [s[0]] + s[1..];
    }
  }

  lemma {:induction false} InsertSorted<T(!new)>(x: T, s: seq<T>, le: (T, T) -> bool)
    requires TotalPreorder(le) && Sorted(s, le)
    ensures Sorted(Insert(x, s, le), le)
  {
    if s == [] {
    } else if le(x, s[0]) {
      forall j | 0 <= j < |s| ensures le(x, s[j]) {
        assert j > 0 ==> le(s[0], s[j]);
      }
    } else {
      InsertSorted(x, s[1..], le);
      InsertElements(x, s[1..], le);
      var r := Insert(x, s[1..], le);
      forall j | 0 <= j < |r| ensures le(s[0], r[j]) {
        FromInsert(x, s[1..], r, r[j]);
      }
    }
  }

  lemma FromInsert<T>(x: T, s: seq<T>, r: seq<T>, y: T)
    requires multiset(r) == multiset{x} + multiset(s) && y in r
    ensures y == x || y in s
  {
    assert y in multiset(r);
    if y != x {
      assert y in multiset(s);
    }
  }

  lemma {:induction false} SortSorts<T(!new)>(s: seq<T>, le: (T, T) -> bool)
    requires TotalPreorder(le)
    ensures Sorted(Sort(s, le), le) && multiset(Sort(s, le)) == multiset(s)
    ensures |Sort(s, le)| == |s|
  {
    if s != [] {
      SortSorts(s[1..], le);
      InsertSorted(s[0], Sort(s[1..], le), le);
      InsertElements(s[0], Sort(s[1..], le), le);
      assert s == [s[0]] + s[1..];
    }
    assert |multiset(Sort(s, le))| == |multiset(s)|;
  }

  lemma SameElements<T>(a: seq<T>, b: seq<T>)
    requires multiset(a) == multiset(b)
    ensures |a| == |b| && forall x :: x in a <==> x in b
  {
    assert |multiset(a)| == |multiset(b)|;
    forall x ensures x in a <==> x in b {
      assert x in a <==> x in multiset(a);
      assert x in b <==> x in multiset(b);
    }
  }

  lemma Behead<T>(s: seq<T>)
    requires s != []
    ensures multiset(s[1..]) == multiset(s) - multiset{s[0]}
  {
    assert s == [s[0]] + s[1..];
  }

  /** Taking one occurrence of x out of s. */
  lemma TakeOut<T>(s: seq<T>, x: T) returns (i: nat)
    requires x in s
    ensures i < |s| && s[i] == x && s == s[..i] + ([x] + s[i + 1..])
    ensures multiset(s[..i] + s[i + 1..]) == multiset(s) - multiset{x}
  {
    i :| 0 <= i < |s| && s[i] == x;
    assert s == s[..i] + ([x] + s[i + 1..]);
    assert multiset(s) == multiset(s[..i]) + (multiset{x} + multiset(s[i + 1..]));
  }

  lemma HeadIsLeast<T>(a: seq<T>, le: (T, T) -> bool, x: T)
    requires Sorted(a, le) && x in a
    ensures x == a[0] || le(a[0], x)
  {
  }

  /** A sorted sequence is determined by its elements when ties are between equal elements only. */
  lemma {:induction false} SortedUnique<T>(a: seq<T>, b: seq<T>, le: (T, T) -> bool)
    requires Sorted(a, le) && Sorted(b, le) && multiset(a) == multiset(b)
    requires forall x, y :: x in a && y in a && le(x, y) && le(y, x) ==> x == y
    ensures a == b
  {
    SameElements(a, b);
    if a != [] {
      HeadIsLeast(a, le, b[0]);
      HeadIsLeast(b, le, a[0]);
      Behead(a);
      Behead(b);
      SortedUnique(a[1..], b[1..], le);
      assert a == [a[0]] + a[1..] && b == [b[0]] + b[1..];
    }
  }

  ghost predicate Pairwise<T>(s: seq<T>, r: (T, T) -> bool) {
    forall i, j :: 0 <= i < j < |s| ==> r(s[i], s[j])
  }

  /** a may stand in front of b in the sorted sequence: it is smaller, or as large and came in front. */
  ghost predicate Stably<T>(a: T, b: T, le: (T, T) -> bool, came: (T, T) -> bool) {
    le(a, b) && (le(b, a) ==> came(a, b))
  }

  ghost predicate StablySorted<T>(s: seq<T>, le: (T, T) -> bool, came: (T, T) -> bool) {
    forall i, j :: 0 <= i < j < |s| ==> Stably(s[i], s[j], le, came)
  }

  lemma {:induction false} InsertStable<T(!new)>(x: T, s: seq<T>, le: (T, T) -> bool, came: (T, T) -> bool)
    requires TotalPreorder(le) && StablySorted(s, le, came) && forall y :: y in s ==> came(x, y)
    ensures StablySorted(Insert(x, s, le), le, came)
  {
    if s == [] {
    } else if le(x, s[0]) {
      forall j | 0 <= j < |s| ensures Stably(x, s[j], le, came) {
        assert s[j] in s;
        assert j > 0 ==> Stably(s[0], s[j], le, came);
      }
    } else {
      var rest := s[1..];
      forall i, j | 0 <= i < j < |rest| ensures Stably(rest[i], rest[j], le, came) {
        assert rest[i] == s[i + 1] && rest[j] == s[j + 1];
      }
      InsertStable(x, rest, le, came);
      InsertElements(x, rest, le);
      var r := Insert(x, rest, le);
      forall j | 0 <= j < |r| ensures Stably(s[0], r[j], le, came) {
        FromInsert(x, rest, r, r[j]);
        if r[j] != x {
          var k :| 0 <= k < |rest| && rest[k] == r[j];
          assert Stably(s[0], s[k + 1], le, came);
        }
      }
    }
  }

  /** Python's `sorted` is stable: elements as large as each other keep the order they came in. */
  lemma {:induction false} SortStable<T(!new)>(s: seq<T>, le: (T, T) -> bool, came: (T, T) -> bool)
    requires TotalPreorder(le) && Pairwise(s, came)
    ensures StablySorted(Sort(s, le), le, came)
  {
    if s != [] {
      var rest := s[1..];
      forall i, j | 0 <= i < j < |rest| ensures came(rest[i], rest[j]) {
        assert rest[i] == s[i + 1] && rest[j] == s[j + 1];
      }
      SortStable(rest, le, came);
      SortSorts(rest, le);
      SameElements(rest, Sort(rest, le));
      InsertStable(s[0], Sort(rest, le), le, came);
    }
  }
}
