/** What the alignment of a rewrite does to each part of it (po_patch.py `align_break_marker`). */
module MarkerUnits {
  import opened Text
  import opened BreakMarker

  /** The parts of a replacement, read from the left. */
  datatype Unit =
    | Escaped(c: char) // an escape pair
    | MarkedBreak // backslash and newline
    | LostMarker // a backslash in front of something else
    | Newline(crlf: bool)
    | Plain(c: char)

  function UnitText(u: Unit): string {
    match u
    case Escaped(c) => ['\\', c]
    case MarkedBreak => ['\\', '\n']
    case LostMarker => ['\\']
    case Newline(crlf) => if crlf then ['\r', '\n'] else ['\n']
    case Plain(c) => [c]
  }

  function Spell(us: seq<Unit>): string {
    if us == [] then [] else UnitText(us[0]) + Spell(us[1..])
  }

  predicate IsEscape(c: char) {
    c == '\\' || c == 'n' || c == 'r' || c == 't' || c == '\"' || c == '\''
  }

  /** The part is read as what it is, in front of that text. */
  predicate ReadAs(u: Unit, rest: string) {
    match u
    case Escaped(c) => IsEscape(c)
    case MarkedBreak => true
    case LostMarker => rest != [] && rest[0] != '\n' && !IsEscape(rest[0])
    case Newline(_) => true
    case Plain(c) =>
      && c != '\n' && (c == '\\' ==> rest == [])
      && !(c == '\r' && rest != [] && rest[0] == '\n')
  }

  predicate Proper(us: seq<Unit>) {
    us == [] || (ReadAs(us[0], Spell(us[1..])) && Proper(us[1..]))
  }

  /** What becomes of a part: lost and missing markers are put in, everything else stays. Only right behind an escaped
      backslash a newline counts as marked. */
  function UnitAligned(u: Unit, behindBackslash: bool): string {
    match u
    case LostMarker => ['\\', '\n']
    case Newline(crlf) =>
      if !behindBackslash then ['\\', '\n'] else if crlf then ['\r', '\\', '\n'] else ['\n']
    case _ => UnitText(u)
  }

  function Aligned(us: seq<Unit>, behindBackslash: bool): string
    decreases |us|
  {
    if us == [] then []
    else UnitAligned(us[0], behindBackslash) + Aligned(us[1..], us[0] == Escaped('\\'))
  }

  lemma SpellCons(u: Unit, us: seq<Unit>)
    ensures Spell([u] + us) == UnitText(u) + Spell(us)
    ensures Proper([u] + us) <==> ReadAs(u, Spell(us)) && Proper(us)
  {
    assert ([u] + us)[1..] == us;
  }

  /** Every text is read in parts. */
  lemma {:induction false} EveryTextRead(s: string) returns (us: seq<Unit>)
    ensures Proper(us) && Spell(us) == s
    decreases |s|
  {
    if s == [] {
      us := [];
    } else {
      hide Spell, Proper;
      var u := if s[0] == '\\' && |s| >= 2 && IsEscape(s[1]) then Escaped(s[1])
               else if s[0] == '\\' && |s| >= 2 && s[1] == '\n' then MarkedBreak
               else if s[0] == '\\' && |s| >= 2 then LostMarker
               else if s[0] == '\r' && |s| >= 2 && s[1] == '\n' then Newline(true)
               else if s[0] == '\n' then Newline(false)
               else Plain(s[0]);
      var rest := s[|UnitText(u)|..];
      assert s == UnitText(u) + rest;
      var more := EveryTextRead(rest);
      us := [u] + more;
      SpellCons(u, more);
    }
  }

  lemma PairIs(c: char, rest: string)
    ensures Pair(['\\', c] + rest) <==> IsEscape(c)
  {
  }

  /** One part, in front of a text. */
  lemma AlignUnit(after: bool, u: Unit, rest: string)
    requires ReadAs(u, rest)
    ensures Mark(after, Restore(UnitText(u) + rest))
         == UnitAligned(u, after) + Mark(u == Escaped('\\'), Restore(rest))
  {
    hide Mark, Restore;
    var s := UnitText(u) + rest;
    match u
    case Escaped(c) =>
      PairIs(c, rest);
      AlignHead(after, s);
      assert s[..2] == ['\\', c] && s[2..] == rest;
    case MarkedBreak =>
      AlignHead(after, s);
      assert s[2..] == rest;
    case LostMarker =>
      AlignHead(after, s);
      assert s[1..] == rest && s == ['\\', rest[0]] + rest[1..];
      PairIs(rest[0], rest[1..]);
    case Newline(crlf) =>
      if crlf {
        AlignCrlf(after, rest);
      } else {
        AlignHead(after, s);
        assert s[1..] == rest;
      }
    case Plain(c) =>
      if c == '\\' {
        assert s == [BS];
        AlignHead(after, s);
        MarkEmpty();
        assert [BS] + [] == [BS];
      } else if c == '\r' {
        AlignCr(after, rest);
      } else {
        AlignHead(after, s);
        assert s[1..] == rest;
      }
  }

  lemma AlignCrlf(after: bool, rest: string)
    ensures Mark(after, Restore([CR, LF] + rest))
         == (if after then [CR, BS, LF] else [BS, LF]) + Mark(false, Restore(rest))
  {
    hide Restore;
    var s := [CR, LF] + rest;
    RestoreStep(s);
    assert s[1..] == [LF] + rest;
    RestorePlain(LF, rest);
    var r := Restore(rest);
    MarkNewline(false, r);
    assert ([CR] + ([LF] + r))[1..] == [LF] + r && ([CR] + ([LF] + r))[2..] == r;
    assert [CR] + ([BS, LF] + Mark(false, r)) == [CR, BS, LF] + Mark(false, r);
  }

  lemma AlignCr(after: bool, rest: string)
    requires !(rest != [] && rest[0] == LF)
    ensures Mark(after, Restore([CR] + rest)) == [CR] + Mark(false, Restore(rest))
  {
    hide Restore, Mark;
    RestoreStep([CR] + rest);
    assert ([CR] + rest)[1..] == rest;
    if rest != [] {
      RestoreStep(rest);
    } else {
      RestoreNone();
    }
    MarkCons(after, CR, Restore(rest));
  }

  lemma {:induction false} AlignUnits(after: bool, us: seq<Unit>)
    requires Proper(us)
    ensures Mark(after, Restore(Spell(us))) == Aligned(us, after)
    decreases |us|
  {
    hide Mark, Restore, UnitAligned, UnitText, ReadAs;
    if us == [] {
      MarkEmpty();
    } else {
      AlignUnit(after, us[0], Spell(us[1..]));
      AlignUnits(us[0] == Escaped('\\'), us[1..]);
    }
  }

  /** Position i of the entry begins a marker: a backslash, carriage returns, a newline. */
  predicate MarkerAt(original: string, i: nat, j: nat) {
    i < j < |original| && original[i] == '\\' && original[j] == '\n' && forall k :: i < k < j ==> original[k] == '\r'
  }

  // --------------------------------------------------- the marker of an entry

  function NoCr(s: string): string {
    ReplaceChar(s, CR, [])
  }

  /** A newline stands at j, behind carriage returns only. */
  predicate NewlineAhead(s: string, j: nat) {
    j < |s| && s[j] == '\n' && forall k :: 0 <= k < j ==> s[k] == '\r'
  }

  lemma {:induction false} NoCrHead(s: string)
    ensures NoCr(s) != [] && NoCr(s)[0] == LF <==> exists j: nat :: NewlineAhead(s, j)
  {
    if s != [] && s[0] == CR {
      NoCrHead(s[1..]);
      assert NoCr(s) == [] + NoCr(s[1..]);
      if j: nat :| NewlineAhead(s[1..], j) {
        assert NewlineAhead(s, j + 1);
      }
      if j: nat :| NewlineAhead(s, j) {
        assert NewlineAhead(s[1..], j - 1);
      }
    } else if s != [] {
      if s[0] == LF {
        assert NewlineAhead(s, 0);
      }
      forall j: nat ensures NewlineAhead(s, j) ==> j == 0 {
      }
    }
  }

  lemma HasMarkerCons(c: char, t: string)
    ensures HasMarker([c] + t) <==> (c == BS && t != [] && t[0] == LF) || HasMarker(t)
  {
    var s := [c] + t;
    if i :| 0 < i < |t| && t[i - 1] == BS && t[i] == LF {
      assert s[i + 1 - 1] == BS && s[i + 1] == LF;
    }
    if c == BS && t != [] && t[0] == LF {
      assert s[1 - 1] == BS && s[1] == LF;
    }
    if i :| 0 < i < |s| && s[i - 1] == BS && s[i] == LF {
      if i > 1 {
        assert t[i - 1 - 1] == BS && t[i - 1] == LF;
      }
    }
  }

  lemma MarkerCons(c: char, t: string, i: nat, j: nat)
    ensures MarkerAt([c] + t, 0, j + 1) <==> c == BS && NewlineAhead(t, j)
    ensures MarkerAt([c] + t, i + 1, j + 1) <==> MarkerAt(t, i, j)
  {
    var s := [c] + t;
    assert forall k :: 0 <= k < |t| ==> t[k] == s[k + 1];
    assert forall k :: 0 < k < |s| ==> s[k] == t[k - 1];
  }

  lemma {:induction false} UsesMarkerExact(original: string)
    ensures UsesMarker(original) <==> exists i: nat, j: nat :: MarkerAt(original, i, j)
  {
    hide HasMarker, MarkerAt;
    if original == [] {
      NoMarker();
    } else {
      hide ReplaceChar, NewlineAhead;
      var c, t := original[0], original[1..];
      assert original == [c] + t;
      UsesMarkerExact(t);
      NoCrHead(t);
      NoCrCons(c, t);
      if c != CR {
        HasMarkerCons(c, NoCr(t));
      }
      MarkersShift(c, t);
    }
  }

  lemma NoMarker()
    ensures !HasMarker(NoCr([])) && forall i: nat, j: nat :: !MarkerAt([], i, j)
  {
  }

  lemma NoCrCons(c: char, t: string)
    ensures NoCr([c] + t) == if c == CR then NoCr(t) else [c] + NoCr(t)
  {
    assert ([c] + t)[1..] == t && [] + NoCr(t) == NoCr(t);
  }

  lemma MarkersShift(c: char, t: string)
    ensures (exists i: nat, j: nat :: MarkerAt([c] + t, i, j))
       <==> (c == BS && exists j: nat :: NewlineAhead(t, j)) || exists i: nat, j: nat :: MarkerAt(t, i, j)
  {
    hide NewlineAhead;
    if i: nat, j: nat :| MarkerAt(t, i, j) {
      MarkerCons(c, t, i, j);
    }
    if c == BS {
      if j: nat :| NewlineAhead(t, j) {
        MarkerCons(c, t, 0, j);
      }
    }
    if i: nat, j: nat :| MarkerAt([c] + t, i, j) {
      if i == 0 {
        MarkerCons(c, t, 0, j - 1);
      } else {
        MarkerCons(c, t, i - 1, j - 1);
      }
    }
  }

  // --------------------------------------------------------------- main result

  /** The whole alignment, part by part: a text stays as it is when the entry has no marker; otherwise each part becomes
      what it is to become. */
  lemma AlignExact(original: string, us: seq<Unit>)
    requires Proper(us)
    ensures Align(original, Spell(us))
         == if exists i: nat, j: nat :: MarkerAt(original, i, j) then Aligned(us, false) else Spell(us)
  {
    hide Mark, Restore, Spell;
    UsesMarkerExact(original);
    AlignUnits(false, us);
    if UsesMarker(original) {
      AlignIsMark(original, Spell(us));
    }
  }
}
