/** The report of a delivery read off its review rows: which list a row is in, which rows are applied and what a
    conflict says (po_patch.py `deliver_from_review`, `normalize_break_notation`). */
module DeliveryRows {
  import opened Text
  import opened Wrappers
  import opened Grouping
  import opened Delivery
  import BreakMarker

  // --------------------------------------------------------- typed line breaks

  /** The characters of a line break stand at i. */
  predicate TypedAt(s: string, i: nat) {
    i + 1 < |s| && s[i] == '\\' && s[i + 1] == 'n'
  }

  lemma {:induction false} NothingTyped(s: string)
    requires forall i: nat :: !TypedAt(s, i)
    ensures NormalizeBreaks(s) == s
  {
    if s != [] {
      forall i: nat ensures !TypedAt(s[1..], i) {
        assert !TypedAt(s, i + 1);
      }
      assert !TypedAt(s, 0) && !TypedAt(s, 2);
      NothingTyped(s[1..]);
      assert s == [s[0]] + s[1..];
    }
  }

  /** The text in front of a typed break, without the carriage return typed in front of it. */
  function BeforeTyped(a: string): string {
    var n := |a|;
    if n >= 2 && a[n - 2] == '\\' && a[n - 1] == 'r' then a[..n - 2] else a
  }

  lemma BeforeTypedCons(a: string)
    requires a != [] && a != [BS, 'r']
    ensures BeforeTyped(a) == [a[0]] + BeforeTyped(a[1..])
  {
    var t := a[1..];
    assert [a[0]] + t == a;
    if |a| >= 3 {
      assert [a[0]] + t[..|t| - 2] == a[..|a| - 2];
    } else if |a| == 2 {
      assert a == [a[0], a[1]];
    }
  }

  lemma NormalizeHead(c: char, rest: string)
    requires !([BS, 'r', BS, 'n'] <= [c] + rest) && !([BS, 'n'] <= [c] + rest)
    ensures NormalizeBreaks([c] + rest) == [c] + NormalizeBreaks(rest)
  {
    assert ([c] + rest)[1..] == rest;
  }

  lemma NormalizeTyped(rest: string)
    ensures NormalizeBreaks([BS, 'n'] + rest) == [LF] + NormalizeBreaks(rest)
    ensures NormalizeBreaks([BS, 'r', BS, 'n'] + rest) == [LF] + NormalizeBreaks(rest)
  {
    assert ([BS, 'n'] + rest)[2..] == rest && ([BS, 'r', BS, 'n'] + rest)[4..] == rest;
    assert ([BS, 'n'] + rest)[1] == 'n';
  }

  lemma TypedTail(a: string, b: string)
    requires a != []
    requires forall i: nat :: i < |a| ==> !TypedAt(a + "\\n" + b, i)
    ensures a + "\\n" + b == [a[0]] + (a[1..] + "\\n" + b)
    ensures forall i: nat :: i < |a[1..]| ==> !TypedAt(a[1..] + "\\n" + b, i)
  {
    var s, t := a + "\\n" + b, a[1..] + "\\n" + b;
    assert s == [a[0]] + t;
    forall i: nat | i < |a[1..]| ensures !TypedAt(t, i) {
      assert !TypedAt(s, i + 1);
    }
  }

  lemma NothingBefore(b: string)
    ensures BeforeTyped([]) == [] && BeforeTyped([BS, 'r']) == []
    ensures [] + "\\n" + b == [BS, 'n'] + b && [BS, 'r'] + "\\n" + b == [BS, 'r', BS, 'n'] + b
  {
  }

  /** The first typed break becomes a newline, with the typed carriage return in front of it if there is one; what
      stands before it stays, and what follows is treated alike. */
  lemma {:induction false} FirstTyped(a: string, b: string)
    requires forall i: nat :: i < |a| ==> !TypedAt(a + "\\n" + b, i)
    ensures NormalizeBreaks(a + "\\n" + b) == BeforeTyped(a) + ([LF] + NormalizeBreaks(b))
  {
    hide *;
    NormalizeTyped(b);
    NothingBefore(b);
    if a != [] && a != [BS, 'r'] {
      NotBoth(a, b);
      TypedTail(a, b);
      FirstTyped(a[1..], b);
      BeforeTypedCons(a);
      NormalizeHead(a[0], a[1..] + "\\n" + b);
    }
  }

  lemma NotBoth(a: string, b: string)
    requires a != [] && a != [BS, 'r']
    requires forall i: nat :: i < |a| ==> !TypedAt(a + "\\n" + b, i)
    ensures !([BS, 'r', BS, 'n'] <= a + "\\n" + b) && !([BS, 'n'] <= a + "\\n" + b)
  {
    var s := a + "\\n" + b;
    assert !TypedAt(s, 0) && forall k :: 0 <= k < |a| ==> s[k] == a[k];
    assert s[|a|] == BS && s[|a| + 1] == 'n';
    if |a| > 2 {
      assert !TypedAt(s, 2);
    } else if |a| == 2 {
      assert a == [a[0], a[1]];
    }
  }

  /** The text a row writes: what was typed, its breaks normalized and the blanks at its end cut, aligned with the
      current translation of the first key of the row; without one it stays as typed. An empty replacement stays empty.
      */
  lemma TextExact(row: Row, current: map<string, string>, typed: string, blanks: string)
    requires row.keys != [] && NormalizeBreaks(row.replacement) == typed + blanks
    requires (forall c :: c in blanks ==> IsSpace(c)) && (typed == [] || !IsSpace(typed[|typed| - 1]))
    ensures row.replacement == "" ==> TextOf(row, current) == ""
    ensures row.replacement != "" ==>
      TextOf(row, current)
      == if row.keys[0] in current then BreakMarker.Align(current[row.keys[0]], typed) else typed
  {
    hide NormalizeBreaks, IsSpace, RStrip;
    RStripKeeps(typed, blanks);
    assert BreakMarker.Align("", typed) == typed;
  }

  // -------------------------------------------------------------- the row lists

  function Deciding(d: Decision): Row -> bool {
    (row: Row) => row.decision == d
  }

  /** Two rows that are to be applied decide the key differently. */
  predicate Contested(rows: seq<Row>, current: map<string, string>, key: string) {
    exists r, q :: r in rows && q in rows && IsApplied(r) && IsApplied(q) && key in r.keys && key in q.keys
                   && TextOf(r, current) != TextOf(q, current)
  }

  function Matching(some: bool): Row -> bool {
    (row: Row) => row.decision == Apply && (row.keys != [] <==> some)
  }

  /** A row that is to be applied and names a key which is not contested. */
  function Lands(rows: seq<Row>, current: map<string, string>): Row -> bool {
    (row: Row) => row.decision == Apply && exists k :: k in row.keys && !Contested(rows, current, k)
  }

  lemma {:induction false} WhereTwice(s: seq<Row>, p: Row -> bool, q: Row -> bool, both: Row -> bool)
    requires forall r :: both(r) == (p(r) && q(r))
    ensures Where(Where(s, p), q) == Where(s, both)
  {
    if s != [] {
      var t, x := s[..|s| - 1], s[|s| - 1];
      WhereTwice(t, p, q, both);
      if p(x) {
        assert (Where(t, p) + [x])[..|Where(t, p)|] == Where(t, p);
      } else {
        assert Where(t, p) + [] == Where(t, p);
      }
    }
  }

  lemma ContestedIs(rows: seq<Row>, current: map<string, string>, key: string)
    ensures key in ClaimAll(Asked(rows, current)).conflicted <==> Contested(rows, current, key)
  {
    hide Asked, ClaimAll, TextOf, IsApplied;
    ConflictExact(rows, current, key);
    ClaimsTally(Asked(rows, current), key);
  }

  /** The four lists hold the rows in order: kept, undecided, to be applied without a key, and to be applied with a key
      that no other such row decides differently. */
  lemma ListsExact(rows: seq<Row>, current: map<string, string>)
    ensures var l := Decided(rows, current);
      && l.kept == Where(rows, Deciding(Keep)) && l.undecided == Where(rows, Deciding(Undecided))
      && l.unmatched == Where(rows, Matching(false)) && l.applied == Where(rows, Lands(rows, current))
  {
    hide Asked, ClaimAll, Where, Contested;
    var conflicted := ClaimAll(Asked(rows, current)).conflicted;
    SameWhere(rows, IsKept, Deciding(Keep));
    SameWhere(rows, IsUndecided, Deciding(Undecided));
    SameWhere(rows, IsUnmatched, Matching(false));
    forall key ensures key in conflicted <==> Contested(rows, current, key) {
      ContestedIs(rows, current, key);
    }
    forall r: Row ensures Lands(rows, current)(r) == (IsApplied(r) && Survives(conflicted)(r)) {
      if IsApplied(r) && Survives(conflicted)(r) {
        var i :| 0 <= i < |r.keys| && r.keys[i] !in conflicted;
        assert r.keys[i] in r.keys;
      }
    }
    WhereTwice(rows, IsApplied, Survives(conflicted), Lands(rows, current));
  }

  // ------------------------------------------------------------------ conflicts

  /** What the first ask for the key among the first n says. */
  function FirstText(asks: seq<Ask>, n: nat, key: string): Option<string>
    requires n <= |asks|
  {
    if n == 0 then None
    else if FirstText(asks, n - 1, key).Some? then FirstText(asks, n - 1, key)
    else if asks[n - 1].key == key then Some(asks[n - 1].text) else None
  }

  /** Who said so last among the first n. */
  function LastBug(asks: seq<Ask>, n: nat, key: string, text: string): string
    requires n <= |asks|
  {
    if n == 0 then ""
    else if asks[n - 1].key == key && asks[n - 1].text == text then asks[n - 1].bug
    else LastBug(asks, n - 1, key, text)
  }

  /** One conflict for every ask that says otherwise than the first one for its key: both texts, and who said which. */
  function ConflictLines(asks: seq<Ask>, n: nat): seq<Conflict>
    requires n <= |asks|
  {
    if n == 0 then []
    else
      var a := asks[n - 1];
      var first := FirstText(asks, n - 1, a.key);
      ConflictLines(asks, n - 1)
      + if first.Some? && first.value != a.text then
          [Conflict(a.key, (LastBug(asks, n - 1, a.key, first.value), a.bug), (first.value, a.text))]
        else []
  }

  ghost predicate ClaimsAre(c: Claims, asks: seq<Ask>, n: nat)
    requires n <= |asks| && Known(c)
  {
    && (forall k :: k in c.desired <==> FirstText(asks, n, k).Some?)
    && (forall k :: k in c.desired ==>
          FirstText(asks, n, k) == Some(c.desired[k]) && c.claimed[k] == LastBug(asks, n, k, c.desired[k]))
    && c.conflicts == ConflictLines(asks, n)
  }

  lemma ClaimIs(c: Claims, asks: seq<Ask>, n: nat)
    requires n < |asks| && Known(c) && ClaimsAre(c, asks, n)
    ensures ClaimsAre(Claim(c, asks[n]), asks, n + 1)
  {
    hide ConflictLines, FirstText, LastBug;
    var d, a := Claim(c, asks[n]), asks[n];
    Unfold(asks, n);
    forall k ensures k in d.desired <==> FirstText(asks, n + 1, k).Some? {
      UnfoldKey(asks, n, k, a.text);
    }
    forall k | k in d.desired
      ensures FirstText(asks, n + 1, k) == Some(d.desired[k])
      ensures d.claimed[k] == LastBug(asks, n + 1, k, d.desired[k]) {
      UnfoldKey(asks, n, k, d.desired[k]);
    }
  }

  lemma Unfold(asks: seq<Ask>, n: nat)
    requires n < |asks|
    ensures var a := asks[n]; var first := FirstText(asks, n, a.key);
      ConflictLines(asks, n + 1) == ConflictLines(asks, n)
        + if first.Some? && first.value != a.text then
            [Conflict(a.key, (LastBug(asks, n, a.key, first.value), a.bug), (first.value, a.text))]
          else []
  {
    hide FirstText, LastBug;
  }

  lemma UnfoldKey(asks: seq<Ask>, n: nat, key: string, text: string)
    requires n < |asks|
    ensures FirstText(asks, n + 1, key) == if FirstText(asks, n, key).Some? then FirstText(asks, n, key)
              else if asks[n].key == key then Some(asks[n].text) else None
    ensures LastBug(asks, n + 1, key, text)
         == if asks[n].key == key && asks[n].text == text then asks[n].bug else LastBug(asks, n, key, text)
  {
  }

  lemma {:induction false} ClaimsExact(asks: seq<Ask>, n: nat)
    requires n <= |asks|
    ensures ClaimsAre(ClaimAll(asks[..n]), asks, n)
  {
    hide Claim, ClaimsAre;
    if n == 0 {
      NoClaims(asks);
    } else {
      ClaimsExact(asks, n - 1);
      assert asks[..n][..n - 1] == asks[..n - 1] && asks[..n][n - 1] == asks[n - 1];
      ClaimIs(ClaimAll(asks[..n - 1]), asks, n - 1);
    }
  }

  lemma NoClaims(asks: seq<Ask>)
    ensures ClaimsAre(ClaimAll(asks[..0]), asks, 0)
  {
  }

  /** What the rows ask for: each applied row, in order, its text for each of its keys, in order. */
  function AsksBy(rows: seq<Row>, current: map<string, string>): seq<Ask> {
    if rows == [] then []
    else
      var row := rows[0];
      (if row.decision == Apply then AsksFor(row.keys, TextOf(row, current), row.bug) else [])
      + AsksBy(rows[1..], current)
  }

  function AsksFor(keys: seq<string>, text: string, bug: string): seq<Ask> {
    if keys == [] then [] else [Ask(keys[0], text, bug)] + AsksFor(keys[1..], text, bug)
  }

  lemma {:induction false} AsksForIs(row: Row, text: string, i: nat)
    requires i <= |row.keys|
    ensures AsksFor(row.keys[i..], text, row.bug) == AsksOf(row, text, |row.keys|)[i..]
    decreases |row.keys| - i
  {
    if i < |row.keys| {
      AsksForIs(row, text, i + 1);
      assert row.keys[i..][1..] == row.keys[i + 1..];
    }
  }

  lemma {:induction false} AsksByConcat(a: seq<Row>, b: seq<Row>, current: map<string, string>)
    ensures AsksBy(a + b, current) == AsksBy(a, current) + AsksBy(b, current)
  {
    hide AsksFor, TextOf;
    if a == [] {
      assert a + b == b;
    } else {
      assert (a + b)[1..] == a[1..] + b;
      AsksByConcat(a[1..], b, current);
    }
  }

  lemma {:induction false} AskedIs(rows: seq<Row>, current: map<string, string>)
    ensures Asked(rows, current) == AsksBy(rows, current)
  {
    hide TextOf;
    if rows != [] {
      var rest, row := rows[..|rows| - 1], rows[|rows| - 1];
      assert rows == rest + [row];
      AskedIs(rest, current);
      AsksByConcat(rest, [row], current);
      AsksForIs(row, TextOf(row, current), 0);
      assert row.keys[0..] == row.keys && [row][1..] == [];
      assert AsksBy([row], current)
          == if row.decision == Apply then AsksOf(row, TextOf(row, current), |row.keys|) else [];
    }
  }

  /** The conflicts on record, in order. */
  lemma ConflictsExact(rows: seq<Row>, current: map<string, string>)
    ensures var asks := AsksBy(rows, current);
      Decided(rows, current).conflicts == ConflictLines(asks, |asks|)
  {
    hide TextOf, ConflictLines, FirstText, LastBug, AsksBy, Asked;
    AskedIs(rows, current);
    var asks := AsksBy(rows, current);
    ClaimsExact(asks, |asks|);
    assert asks[..|asks|] == asks;
  }
}
