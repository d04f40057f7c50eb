/** From review decisions to patched files: the text a row writes, which replacement each key gets, and which msgstr
    lines that rewrites (po_patch.py `deliver_from_review`, `normalize_break_notation`). */
module Delivery {
  import opened Text
  import opened Wrappers
  import opened Grouping
  import opened PoEscape
  import opened RawStream
  import BreakMarker

  datatype Decision = Keep | Undecided | Apply

  /** A parsed review row; `keys` are the .po keys its location matches. */
  datatype Row = Row(bug: string, decision: Decision, replacement: string, keys: seq<string>)

  // --------------------------------------------------------- the text to write

  /** A line break the reviewer typed as characters becomes one. */
  function NormalizeBreaks(s: string): string {
    if s == [] then []
    else if [BS, 'r', BS, 'n'] <= s then [LF] + NormalizeBreaks(s[4..])
    else if [BS, 'n'] <= s then [LF] + NormalizeBreaks(s[2..])
    else [s[0]] + NormalizeBreaks(s[1..])
  }

  /** What the reviewer meant to type: breaks normalized, trailing blanks cut. */
  function Typed(row: Row): string {
    RStrip(NormalizeBreaks(row.replacement))
  }

  function CurrentOf(key: string, current: map<string, string>): string {
    if key in current then current[key] else ""
  }

  /** The current translation of the key uses the marker. */
  predicate Marks(key: string, current: map<string, string>) {
    BreakMarker.UsesMarker(CurrentOf(key, current))
  }

  /** The replacement as it is applied: as typed, with the marker of the current translation of its first key. */
  function TextOf(row: Row, current: map<string, string>): string {
    if row.replacement == "" || row.keys == [] then row.replacement
    else BreakMarker.Align(CurrentOf(row.keys[0], current), Typed(row))
  }

  /** A rewrite is to inherit the marker of the entry it replaces; a row of several keys takes the one of its first.
      Each key gets the text aligned with its own entry exactly when the text needs no alignment, or all its entries use
      the marker or none does. */
  lemma FirstMarkerExact(row: Row, current: map<string, string>)
    requires row.replacement != "" && row.keys != []
    ensures (forall k :: k in row.keys ==> TextOf(row, current) == BreakMarker.Align(CurrentOf(k, current), Typed(row)))
       <==> || (BreakMarker.NoLostBreak(Typed(row)) && BreakMarker.Marked(false, Typed(row)))
            || (forall k :: k in row.keys ==> Marks(k, current) == Marks(row.keys[0], current))
  {
    hide BreakMarker.NoLostBreak, BreakMarker.Marked, BreakMarker.UsesMarker;
    var text := Typed(row);
    assert row.keys[0] in row.keys;
    forall k ensures BreakMarker.Align(CurrentOf(k, current), text) == text
      <==> !Marks(k, current) || (BreakMarker.NoLostBreak(text) && BreakMarker.Marked(false, text)) {
      if BreakMarker.UsesMarker(CurrentOf(k, current)) {
        BreakMarker.AlignLeavesExact(CurrentOf(k, current), text);
      }
    }
  }

  // -------------------------------------------------------------------- claims

  /** One decided row naming one key. */
  datatype Ask = Ask(key: string, text: string, bug: string)

  datatype Conflict = Conflict(key: string, bugs: (string, string), texts: (string, string))

  datatype Claims = Claims(
    desired: map<string, string>, claimed: map<string, string>, conflicted: set<string>, conflicts: seq<Conflict>)

  predicate Known(c: Claims) {
    c.claimed.Keys == c.desired.Keys
  }

  function Claim(c: Claims, a: Ask): (d: Claims)
    requires Known(c)
    ensures Known(d)
  {
    if a.key in c.desired && c.desired[a.key] != a.text then
      c.(conflicted := c.conflicted + {a.key},
         conflicts := c.conflicts + [Conflict(a.key, (c.claimed[a.key], a.bug), (c.desired[a.key], a.text))])
    else c.(desired := c.desired[a.key := a.text], claimed := c.claimed[a.key := a.bug])
  }

  function ClaimAll(asks: seq<Ask>): (c: Claims)
    ensures Known(c)
  {
    if asks == [] then Claims(map[], map[], {}, []) else Claim(ClaimAll(asks[..|asks| - 1]), asks[|asks| - 1])
  }

  function AsksOf(row: Row, text: string, n: nat): (asks: seq<Ask>)
    requires n <= |row.keys|
    ensures |asks| == n && forall i :: 0 <= i < n ==> asks[i] == Ask(row.keys[i], text, row.bug)
  {
    seq(n, i requires 0 <= i < n => Ask(row.keys[i], text, row.bug))
  }

  predicate IsKept(row: Row) {
    row.decision.Keep?
  }

  predicate IsUndecided(row: Row) {
    row.decision.Undecided?
  }

  predicate IsUnmatched(row: Row) {
    row.decision.Apply? && row.keys == []
  }

  predicate IsApplied(row: Row) {
    row.decision.Apply? && row.keys != []
  }

  function Asked(rows: seq<Row>, current: map<string, string>): seq<Ask> {
    if rows == [] then []
    else
      var row := rows[|rows| - 1];
      Asked(rows[..|rows| - 1], current)
      + if IsApplied(row) then AsksOf(row, TextOf(row, current), |row.keys|) else []
  }

  /** What the decision loop leaves: the replacements, and every row in its list. */
  datatype Ledger = Ledger(
    desired: map<string, string>, conflicts: seq<Conflict>,
    kept: seq<Row>, undecided: seq<Row>, unmatched: seq<Row>, applied: seq<Row>)

  function Survives(conflicted: set<string>): Row -> bool {
    (row: Row) => exists i :: 0 <= i < |row.keys| && row.keys[i] !in conflicted
  }

  function Lost(conflicted: set<string>): Row -> bool {
    (row: Row) => !Survives(conflicted)(row)
  }

  function Decided(rows: seq<Row>, current: map<string, string>): Ledger {
    var c := ClaimAll(Asked(rows, current));
    Ledger(c.desired - c.conflicted, c.conflicts, Where(rows, IsKept), Where(rows, IsUndecided),
           Where(rows, IsUnmatched), Where(Where(rows, IsApplied), Survives(c.conflicted)))
  }

  /** The inner loop over the keys of a row. */
  method ClaimKeys(row: Row, text: string, start: Claims, ghost asks: seq<Ask>) returns (c: Claims)
    requires start == ClaimAll(asks)
    ensures c == ClaimAll(asks + AsksOf(row, text, |row.keys|))
  {
    hide Claim;
    c := start;
    assert asks + AsksOf(row, text, 0) == asks;
    for j := 0 to |row.keys|
      invariant c == ClaimAll(asks + AsksOf(row, text, j))
    {
      var a := Ask(row.keys[j], text, row.bug);
      var next := asks + AsksOf(row, text, j + 1);
      assert next[..|next| - 1] == asks + AsksOf(row, text, j) && next[|next| - 1] == a;
      c := Claim(c, a);
    }
  }

  /** The decision loop of `deliver_from_review`. */
  method DecideRows(rows: seq<Row>, current: map<string, string>) returns (l: Ledger)
    ensures l == Decided(rows, current)
  {
    hide Claim, ClaimAll, TextOf, Asked;
    var c := Claims(map[], map[], {}, []);
    var kept: seq<Row>, undecided: seq<Row>, unmatched: seq<Row>, applied: seq<Row> := [], [], [], [];
    NothingClaimed();
    for i := 0 to |rows|
      invariant c == ClaimAll(Asked(rows[..i], current))
      invariant kept == Where(rows[..i], IsKept) && undecided == Where(rows[..i], IsUndecided)
      invariant unmatched == Where(rows[..i], IsUnmatched) && applied == Where(rows[..i], IsApplied)
    {
      var row := rows[i];
      assert rows[..i + 1][..i] == rows[..i] && rows[..i + 1][i] == row;
      AskedNext(rows, i, current);
      if row.decision.Keep? {
        kept := kept + [row];
        continue;
      }
      if row.decision.Undecided? {
        undecided := undecided + [row];
        continue;
      }
      if row.keys == [] {
        unmatched := unmatched + [row];
        continue;
      }
      c := ClaimKeys(row, TextOf(row, current), c, Asked(rows[..i], current));
      applied := applied + [row];
    }
    assert rows[..|rows|] == rows;
    var surviving := KeepSurviving(applied, c.conflicted);
    l := Ledger(c.desired - c.conflicted, c.conflicts, kept, undecided, unmatched, surviving);
  }

  /** `report.applied` filtered to the rows with a key that is not in conflict. */
  method KeepSurviving(applied: seq<Row>, conflicted: set<string>) returns (surviving: seq<Row>)
    ensures surviving == Where(applied, Survives(conflicted))
  {
    ghost var none: seq<Row>;
    surviving, none := Separate(applied, Survives(conflicted), Lost(conflicted));
  }

  lemma AskedNext(rows: seq<Row>, i: nat, current: map<string, string>)
    requires i < |rows|
    ensures Asked(rows[..i + 1], current)
         == if IsApplied(rows[i]) then
              Asked(rows[..i], current) + AsksOf(rows[i], TextOf(rows[i], current), |rows[i].keys|)
            else Asked(rows[..i], current)
  {
    hide TextOf;
    assert rows[..i + 1][..i] == rows[..i] && rows[..i + 1][i] == rows[i];
    assert Asked(rows[..i], current) + [] == Asked(rows[..i], current);
  }

  lemma NothingClaimed()
    ensures ClaimAll([]) == Claims(map[], map[], {}, []) && forall current :: Asked([], current) == []
  {
  }

  // -------------------------------------------------- agreement decides, not order

  /** Row r asks for this text at this key. */
  predicate Asks(r: Row, current: map<string, string>, key: string, text: string) {
    IsApplied(r) && key in r.keys && TextOf(r, current) == text
  }

  /** Some row decides the key, and all rows that do decide it the same way. */
  ghost predicate Unanimous(rows: seq<Row>, current: map<string, string>, key: string, text: string) {
    && (exists r :: r in rows && Asks(r, current, key, text))
    && forall r :: r in rows && IsApplied(r) && key in r.keys ==> TextOf(r, current) == text
  }

  lemma {:induction false} AskedFrom(rows: seq<Row>, current: map<string, string>, a: Ask)
    requires a in Asked(rows, current)
    ensures exists r :: r in rows && Asks(r, current, a.key, a.text)
  {
    hide TextOf;
    var rest, row := rows[..|rows| - 1], rows[|rows| - 1];
    if a in Asked(rest, current) {
      AskedFrom(rest, current, a);
      var r :| r in rest && Asks(r, current, a.key, a.text);
      assert r in rows;
    } else {
      assert row in rows && Asks(row, current, a.key, a.text);
    }
  }

  lemma {:induction false} AskedTo(rows: seq<Row>, current: map<string, string>, r: Row, key: string)
    requires r in rows && IsApplied(r) && key in r.keys
    ensures Ask(key, TextOf(r, current), r.bug) in Asked(rows, current)
  {
    hide TextOf;
    var rest, row := rows[..|rows| - 1], rows[|rows| - 1];
    assert rows == rest + [row];
    if r in rest {
      AskedTo(rest, current, r, key);
    } else {
      var i :| 0 <= i < |r.keys| && r.keys[i] == key;
      assert AsksOf(r, TextOf(r, current), |r.keys|)[i] == Ask(key, TextOf(r, current), r.bug);
    }
  }

  /** The claims on one key: the first ask sets the text, a different one makes a conflict, on record. */
  ghost predicate Tallied(c: Claims, asks: seq<Ask>, key: string) {
    && (key in c.desired <==> exists a :: a in asks && a.key == key)
    && (key in c.desired ==> exists a :: a in asks && a.key == key && a.text == c.desired[key])
    && (key in c.desired && key !in c.conflicted ==> forall a :: a in asks && a.key == key ==> a.text == c.desired[key])
    && (key in c.conflicted ==> key in c.desired && exists a :: a in asks && a.key == key && a.text != c.desired[key])
    && (key in c.conflicted <==> exists x :: x in c.conflicts && x.key == key)
  }

  lemma ClaimTallies(c: Claims, asks: seq<Ask>, a: Ask, key: string)
    requires Known(c) && Tallied(c, asks, key)
    ensures Tallied(Claim(c, a), asks + [a], key)
  {
  }

  lemma {:induction false} ClaimsTally(asks: seq<Ask>, key: string)
    ensures Tallied(ClaimAll(asks), asks, key)
  {
    if asks != [] {
      hide Tallied, Claim;
      var rest, a := asks[..|asks| - 1], asks[|asks| - 1];
      ClaimsTally(rest, key);
      ClaimTallies(ClaimAll(rest), rest, a, key);
      assert asks == rest + [a];
    }
  }

  /** A key gets a replacement exactly when the rows that decide it agree; disagreement applies nothing. */
  lemma DesiredExact(rows: seq<Row>, current: map<string, string>, key: string, text: string)
    ensures key in Decided(rows, current).desired && Decided(rows, current).desired[key] == text
       <==> Unanimous(rows, current, key, text)
  {
    hide Asked, ClaimAll, TextOf, Where, IsApplied;
    var asks := Asked(rows, current);
    var c := ClaimAll(asks);
    ClaimsTally(asks, key);
    if key in c.desired && key !in c.conflicted && c.desired[key] == text {
      var a :| a in asks && a.key == key && a.text == text;
      AskedFrom(rows, current, a);
      forall r | r in rows && IsApplied(r) && key in r.keys ensures TextOf(r, current) == text {
        AskedTo(rows, current, r, key);
      }
    }
    if Unanimous(rows, current, key, text) {
      var r :| r in rows && Asks(r, current, key, text);
      AskedTo(rows, current, r, key);
      forall a | a in asks && a.key == key ensures a.text == text {
        AskedFrom(rows, current, a);
      }
    }
  }

  /** A key is in conflict, and on record as such, exactly when two rows decide it differently. */
  lemma ConflictExact(rows: seq<Row>, current: map<string, string>, key: string)
    ensures (exists x :: x in Decided(rows, current).conflicts && x.key == key)
       <==> exists r, q :: r in rows && q in rows && IsApplied(r) && IsApplied(q) && key in r.keys && key in q.keys
                           && TextOf(r, current) != TextOf(q, current)
  {
    hide Asked, ClaimAll, TextOf, Where, IsApplied;
    var asks := Asked(rows, current);
    var c := ClaimAll(asks);
    ClaimsTally(asks, key);
    if key in c.conflicted {
      var a :| a in asks && a.key == key && a.text == c.desired[key];
      var b :| b in asks && b.key == key && b.text != c.desired[key];
      AskedFrom(rows, current, a);
      AskedFrom(rows, current, b);
    }
    if r, q :| r in rows && q in rows && IsApplied(r) && IsApplied(q) && key in r.keys && key in q.keys
               && TextOf(r, current) != TextOf(q, current) {
      AskedTo(rows, current, r, key);
      AskedTo(rows, current, q, key);
    }
  }

  /** Reordering the rows changes no replacement. */
  lemma DesiredOrderFree(a: seq<Row>, b: seq<Row>, current: map<string, string>)
    requires forall r :: r in a <==> r in b
    ensures Decided(a, current).desired == Decided(b, current).desired
  {
    hide Decided, Unanimous;
    var x, y := Decided(a, current).desired, Decided(b, current).desired;
    forall k, t ensures Unanimous(a, current, k, t) <==> Unanimous(b, current, k, t) {
      SameRowsAgree(a, b, current, k, t);
    }
    forall k | k in x ensures k in y && y[k] == x[k] {
      DesiredExact(a, current, k, x[k]);
      DesiredExact(b, current, k, x[k]);
    }
    forall k | k in y ensures k in x {
      DesiredExact(a, current, k, y[k]);
      DesiredExact(b, current, k, y[k]);
    }
  }

  lemma SameRowsAgree(a: seq<Row>, b: seq<Row>, current: map<string, string>, key: string, text: string)
    requires forall r :: r in a <==> r in b
    ensures Unanimous(a, current, key, text) <==> Unanimous(b, current, key, text)
  {
  }

  /** Every row is in exactly one list, but for the decided rows all of whose keys are in conflict. */
  lemma RowsPartitioned(rows: seq<Row>, current: map<string, string>)
    ensures var l := Decided(rows, current);
      var lost := Where(Where(rows, IsApplied), Lost(ClaimAll(Asked(rows, current)).conflicted));
      multiset(l.kept) + multiset(l.undecided) + multiset(l.unmatched) + multiset(l.applied) + multiset(lost)
      == multiset(rows)
  {
    hide Where, ClaimAll, Asked;
    var conflicted := ClaimAll(Asked(rows, current)).conflicted;
    WhereSplits(Where(rows, IsApplied), Survives(conflicted), Lost(conflicted));
    forall r
      ensures (multiset(Where(rows, IsKept)) + multiset(Where(rows, IsUndecided)) + multiset(Where(rows, IsUnmatched))
               + multiset(Where(rows, IsApplied)))[r] == multiset(rows)[r] {
      WhereCount(rows, IsKept, r);
      WhereCount(rows, IsUndecided, r);
      WhereCount(rows, IsUnmatched, r);
      WhereCount(rows, IsApplied, r);
    }
  }

  // ------------------------------------------------------- what is delivered

  /** The replacements of one file, in the bytes of its newline style. */
  function Wanted(desired: map<string, string>, fileKeys: set<string>, crlf: bool): map<string, string> {
    map k | k in desired && k in fileKeys :: EscapeLine(desired[k], crlf)
  }

  method DeliverFile(lines: seq<string>, desired: map<string, string>, fileKeys: set<string>, crlf: bool)
    returns (out: seq<string>, applied: seq<string>)
    ensures out == Patched(lines, DecodedKey, Wanted(desired, fileKeys, crlf))
    ensures applied == Applied(lines, DecodedKey, Wanted(desired, fileKeys, crlf))
  {
    hide EscapeLine, Patched, Applied;
    var wanted := map k | k in desired && k in fileKeys :: desired[k];
    assert Wanted(desired, fileKeys, crlf) == map k | k in wanted :: EscapeLine(wanted[k], crlf);
    out, applied := PatchPoLines(lines, wanted, crlf);
  }

  /** A delivered file differs from its source in the msgstr blocks whose key the reviewers decided, all alike,
      and each of those holds exactly that decision; every other line is forwarded as it was. */
  lemma DeliveredBlocks(lines: seq<string>, rows: seq<Row>, current: map<string, string>, fileKeys: set<string>,
                        crlf: bool, i: nat)
    requires i < |lines|
    ensures var raws := Wanted(Decided(rows, current).desired, fileKeys, crlf);
      && Patched(lines, DecodedKey, raws) == Expected(lines, DecodedKey, raws, 0)
      && (Rewritten(lines, DecodedKey, raws, i)
          <==> Classify(lines[i]).Str? && LastKey(lines, DecodedKey, i).Some?
               && LastKey(lines, DecodedKey, i).value in fileKeys
               && exists t :: Unanimous(rows, current, LastKey(lines, DecodedKey, i).value, t))
      && (forall k, t :: k in fileKeys && Unanimous(rows, current, k, t) ==>
            k in raws && raws[k] == EscapeLine(t, crlf))
  {
    hide Decided, Unanimous, EscapeLine, Classify, LastKey, Patched, Expected;
    var desired := Decided(rows, current).desired;
    PatchIsLocal(lines, DecodedKey, Wanted(desired, fileKeys, crlf));
    forall k, t ensures k in desired && desired[k] == t <==> Unanimous(rows, current, k, t) {
      DesiredExact(rows, current, k, t);
    }
    forall k | k in desired ensures Unanimous(rows, current, k, desired[k]) {
      DesiredExact(rows, current, k, desired[k]);
    }
  }
}
