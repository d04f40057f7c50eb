/** Giving a rewrite the break marker (a backslash right before the newline) of the entry it replaces
    (po_patch.py `align_break_marker`). */
module BreakMarker {
  import opened Text

  /** A backslash pair the alignment treats as one escape. */
  predicate Pair(s: string) {
    |s| >= 2 && s[0] == BS && s[1] in {BS, 'n', 'r', 't', QUOTE, '\''}
  }

  /** A backslash in front of anything but a newline that is no escape pair: a break that was lost. */
  predicate LostBreak(s: string) {
    |s| >= 2 && s[0] == BS && s[1] != LF && !Pair(s)
  }

  /** First substitution: escape pairs are consumed whole, each lost break gets its newline back. */
  function Restore(s: string): string {
    if s == [] then []
    else if Pair(s) then s[..2] + Restore(s[2..])
    else if LostBreak(s) then [BS, LF] + Restore(s[1..])
    else [s[0]] + Restore(s[1..])
  }

  /** Second substitution: a newline, or CRLF, not directly after a backslash becomes marker and newline.
      `after` says whether the character before s is a backslash. */
  function Mark(after: bool, s: string): string
    decreases |s|
  {
    if s == [] then []
    else if !after && |s| >= 2 && s[0] == CR && s[1] == LF then [BS, LF] + Mark(false, s[2..])
    else if !after && s[0] == LF then [BS, LF] + Mark(false, s[1..])
    else [s[0]] + Mark(s[0] == BS, s[1..])
  }

  predicate HasMarker(s: string) {
    exists i :: 0 < i < |s| && s[i - 1] == BS && s[i] == LF
  }

  /** The entry that is replaced uses the marker, carriage returns aside. */
  predicate UsesMarker(original: string) {
    HasMarker(ReplaceChar(original, CR, []))
  }

  function Align(original: string, replacement: string): string {
    if replacement == [] || !UsesMarker(original) then replacement
    else
      var out := Restore(replacement);
      if LF !in out then out else Mark(false, out)
  }

  // ------------------------------------------------- every newline is marked

  /** Every newline directly follows a backslash. */
  predicate Marked(after: bool, s: string)
    decreases |s|
  {
    s != [] ==> (s[0] == LF ==> after) && Marked(s[0] == BS, s[1..])
  }

  lemma {:induction false} MarkedAt(after: bool, s: string, i: nat)
    requires Marked(after, s) && i < |s| && s[i] == LF
    ensures if i == 0 then after else s[i - 1] == BS
    decreases |s|
  {
    if i > 0 {
      MarkedAt(s[0] == BS, s[1..], i - 1);
    }
  }

  lemma MarkedCons(after: bool, c: char, s: string)
    ensures Marked(after, [c] + s) <==> (c == LF ==> after) && Marked(c == BS, s)
  {
  }

  lemma {:induction false} MarkMarks(after: bool, s: string)
    ensures Marked(after, Mark(after, s))
    decreases |s|
  {
    if s == [] {
    } else if !after && |s| >= 2 && s[0] == CR && s[1] == LF {
      MarkMarks(false, s[2..]);
      MarkedBreak(after, Mark(false, s[2..]));
    } else if !after && s[0] == LF {
      MarkMarks(false, s[1..]);
      MarkedBreak(after, Mark(false, s[1..]));
    } else {
      MarkMarks(s[0] == BS, s[1..]);
      MarkedCons(after, s[0], Mark(s[0] == BS, s[1..]));
    }
  }

  lemma MarkedBreak(after: bool, s: string)
    requires Marked(false, s)
    ensures Marked(after, [BS, LF] + s)
  {
  }

  lemma {:induction false} MarkFixpoint(after: bool, s: string)
    requires Marked(after, s)
    ensures Mark(after, s) == s
    decreases |s|
  {
    if s != [] {
      MarkFixpoint(s[0] == BS, s[1..]);
      if |s| >= 2 {
        assert s[1..][0] == s[1];
      }
    }
  }

  lemma {:induction false} MarkedWithoutNewline(after: bool, s: string)
    requires LF !in s
    ensures Marked(after, s)
    decreases |s|
  {
    if s != [] {
      assert s[0] in s;
      MarkedWithoutNewline(s[0] == BS, s[1..]);
    }
  }

  lemma AlignIsMark(original: string, replacement: string)
    requires UsesMarker(original)
    ensures Align(original, replacement) == Mark(false, Restore(replacement))
  {
    if LF !in Restore(replacement) {
      MarkedWithoutNewline(false, Restore(replacement));
      MarkFixpoint(false, Restore(replacement));
    }
  }

  /** A rewrite of a marked entry has every newline directly behind a backslash, whatever was typed. */
  lemma AlignMarksEveryBreak(original: string, replacement: string, i: nat)
    requires UsesMarker(original)
    requires i < |Align(original, replacement)| && Align(original, replacement)[i] == LF
    ensures i > 0 && Align(original, replacement)[i - 1] == BS
  {
    AlignIsMark(original, replacement);
    MarkMarks(false, Restore(replacement));
    MarkedAt(false, Align(original, replacement), i);
  }

  // ------------------------------------------------------------ idempotence

  /** No lost break is left. */
  predicate NoLostBreak(s: string) {
    s == [] || (if Pair(s) then NoLostBreak(s[2..]) else !LostBreak(s) && NoLostBreak(s[1..]))
  }

  lemma {:induction false} RestoreFixpoint(s: string)
    requires NoLostBreak(s)
    ensures Restore(s) == s
    decreases |s|
  {
    if s == [] {
    } else if Pair(s) {
      RestoreFixpoint(s[2..]);
      assert s == s[..2] + s[2..];
    } else {
      RestoreFixpoint(s[1..]);
    }
  }

  lemma NoLostChar(c: char, s: string)
    requires c != BS && NoLostBreak(s)
    ensures NoLostBreak([c] + s)
  {
  }

  lemma NoLostAtBreak(s: string)
    requires NoLostBreak(s)
    ensures NoLostBreak([BS, LF] + s)
  {
  }

  lemma NoLostPair(x: char, s: string)
    requires NoLostBreak(s) && Pair([BS, x])
    ensures NoLostBreak([BS, x] + s)
  {
  }

  lemma MarkCons(after: bool, c: char, s: string)
    requires c != LF && !(c == CR && s != [] && s[0] == LF)
    ensures Mark(after, [c] + s) == [c] + Mark(c == BS, s)
  {
  }

  lemma MarkNewline(after: bool, s: string)
    ensures Mark(after, [LF] + s) == (if after then [LF] else [BS, LF]) + Mark(false, s)
  {
  }

  lemma MarkPair(after: bool, x: char, s: string)
    requires Pair([BS, x])
    ensures Mark(after, [BS, x] + s) == [BS, x] + Mark(x == BS, s)
  {
    assert [BS, x] + s == [BS] + ([x] + s);
    MarkCons(true, x, s);
    MarkCons(after, BS, [x] + s);
  }

  lemma MarkBreak(after: bool, s: string)
    ensures Mark(after, [BS, LF] + s) == [BS, LF] + Mark(false, s)
  {
    assert [BS, LF] + s == [BS] + ([LF] + s);
    MarkNewline(true, s);
    MarkCons(after, BS, [LF] + s);
  }

  lemma MarkEmpty()
    ensures Mark(true, []) == [] && Mark(false, []) == [] && Restore([]) == []
  {
  }

  /** The five shapes a text can start with, and what both substitutions make of them together. */
  lemma RestoreStep(s: string)
    requires s != []
    ensures Restore(s) == if Pair(s) then s[..2] + Restore(s[2..]) else if LostBreak(s) then [BS, LF] + Restore(s[1..])
                          else [s[0]] + Restore(s[1..])
  {
    hide Pair, LostBreak;
  }

  lemma RestorePlain(c: char, rest: string)
    requires c == LF || (c == BS && rest != [] && rest[0] == LF)
    ensures Restore([c] + rest) == [c] + Restore(rest)
  {
    hide Restore;
    RestoreStep([c] + rest);
    assert ([c] + rest)[1..] == rest;
  }

  lemma RestoreMarked(rest: string)
    ensures Restore([BS] + ([LF] + rest)) == [BS] + ([LF] + Restore(rest))
  {
    hide *;
    RestorePlain(LF, rest);
    RestorePlain(BS, [LF] + rest);
  }

  lemma AlignHead(after: bool, s: string)
    requires s != []
    ensures Pair(s) ==> Mark(after, Restore(s)) == s[..2] + Mark(s[1] == BS, Restore(s[2..]))
    ensures LostBreak(s) ==> Mark(after, Restore(s)) == [BS, LF] + Mark(false, Restore(s[1..]))
    ensures s[0] == BS && |s| >= 2 && s[1] == LF ==> Mark(after, Restore(s)) == [BS, LF] + Mark(false, Restore(s[2..]))
    ensures s[0] == LF ==> Mark(after, Restore(s)) == (if after then [LF] else [BS, LF]) + Mark(false, Restore(s[1..]))
    ensures s[0] !in {BS, LF, CR} ==> Mark(after, Restore(s)) == [s[0]] + Mark(false, Restore(s[1..]))
    ensures s == [BS] ==> Mark(after, Restore(s)) == [BS]
  {
    hide Mark, Restore;
    RestoreStep(s);
    if Pair(s) {
      assert s[..2] == [BS, s[1]];
      MarkPair(after, s[1], Restore(s[2..]));
    } else if LostBreak(s) {
      MarkBreak(after, Restore(s[1..]));
    } else if s[0] == LF {
      MarkNewline(after, Restore(s[1..]));
    } else if s[0] == BS && |s| >= 2 {
      RestoreMarked(s[2..]);
      assert s == [BS] + ([LF] + s[2..]) && [BS] + ([LF] + Restore(s[2..])) == [BS, LF] + Restore(s[2..]);
      MarkBreak(after, Restore(s[2..]));
    } else if s == [BS] {
      RestoreNone();
      assert s[1..] == [];
      MarkCons(after, BS, []);
      MarkEmpty();
    } else if s[0] != CR {
      MarkCons(after, s[0], Restore(s[1..]));
    }
  }

  lemma RestoreNone()
    ensures Restore([]) == []
  {
  }

  lemma {:induction false} AlignSettles(after: bool, s: string)
    ensures NoLostBreak(Mark(after, Restore(s)))
    decreases |s|
  {
    if s == [] {
      return;
    }
    AlignHead(after, s);
    hide Mark, Restore, NoLostBreak;
    if Pair(s) {
      AlignSettles(s[1] == BS, s[2..]);
      assert s[..2] == [BS, s[1]];
      NoLostPair(s[1], Mark(s[1] == BS, Restore(s[2..])));
    } else if LostBreak(s) {
      AlignSettles(false, s[1..]);
      NoLostAtBreak(Mark(false, Restore(s[1..])));
    } else if s == [BS] {
      NoLostLone();
    } else if s[0] == BS {
      AlignSettles(false, s[2..]);
      NoLostAtBreak(Mark(false, Restore(s[2..])));
    } else if s[0] == CR {
      AlignSettlesCR(after, s);
    } else {
      AlignSettles(false, s[1..]);
      NoLostAtBreak(Mark(false, Restore(s[1..])));
      NoLostChar(s[0], Mark(false, Restore(s[1..])));
    }
  }

  lemma NoLostLone()
    ensures NoLostBreak([BS])
  {
  }

  lemma {:induction false} AlignSettlesCR(after: bool, s: string)
    requires s != [] && s[0] == CR
    ensures NoLostBreak(Mark(after, Restore(s)))
    decreases |s|, 0
  {
    assert Restore(s) == [CR] + Restore(s[1..]);
    AlignSettles(false, s[1..]);
    if |s| >= 2 && s[1] == LF {
      assert s[1..][1..] == s[2..];
      var rest := Restore(s[2..]);
      assert Restore(s[1..]) == [LF] + rest;
      AlignSettles(false, s[2..]);
      if after {
        MarkNewline(false, rest);
        assert ([CR] + ([LF] + rest))[1..] == [LF] + rest;
        NoLostChar(CR, Mark(false, Restore(s[1..])));
      } else {
        assert ([CR] + ([LF] + rest))[2..] == rest;
        NoLostAtBreak(Mark(false, rest));
      }
    } else {
      assert Restore(s[1..]) == [] || Restore(s[1..])[0] != LF;
      MarkCons(after, CR, Restore(s[1..]));
      NoLostChar(CR, Mark(false, Restore(s[1..])));
    }
  }

  /** A second alignment against the same entry changes nothing. */
  lemma AlignIdempotent(original: string, replacement: string)
    ensures Align(original, Align(original, replacement)) == Align(original, replacement)
  {
    if UsesMarker(original) {
      var out := Align(original, replacement);
      AlignIsMark(original, replacement);
      AlignIsMark(original, out);
      AlignSettles(false, replacement);
      RestoreFixpoint(out);
      MarkMarks(false, Restore(replacement));
      MarkFixpoint(false, out);
    }
  }

  /** Alignment against an entry that uses the marker leaves a text alone exactly when it has no lost break and every
      newline directly follows a backslash. */
  lemma AlignLeavesExact(original: string, replacement: string)
    requires UsesMarker(original)
    ensures Align(original, replacement) == replacement <==> NoLostBreak(replacement) && Marked(false, replacement)
  {
    AlignIsMark(original, replacement);
    if NoLostBreak(replacement) && Marked(false, replacement) {
      RestoreFixpoint(replacement);
      MarkFixpoint(false, replacement);
    }
    AlignSettles(false, replacement);
    MarkMarks(false, Restore(replacement));
  }

  // ---------------------------------------------------- content is untouched

  /** The text without its breaks: escape pairs and plain characters, no newline and no break backslash. */
  function Content(s: string): string {
    if s == [] then []
    else if Pair(s) then s[..2] + Content(s[2..])
    else if s[0] == LF || (s[0] == BS && |s| >= 2) then Content(s[1..])
    else [s[0]] + Content(s[1..])
  }

  lemma ContentBreak(s: string)
    ensures Content([BS, LF] + s) == Content(s) && Content([LF] + s) == Content(s)
  {
  }

  lemma ContentChar(c: char, s: string)
    requires c !in {BS, LF}
    ensures Content([c] + s) == [c] + Content(s)
  {
  }

  lemma ContentPair(x: char, s: string)
    requires Pair([BS, x])
    ensures Content([BS, x] + s) == [BS, x] + Content(s)
  {
  }

  /** Alignment moves breaks only: on CR-free text every escape pair and every other character survives,
      in order. */
  lemma {:induction false} ContentKept(after: bool, s: string)
    requires CR !in s
    ensures Content(Mark(after, Restore(s))) == Content(s)
    decreases |s|
  {
    if s == [] {
      return;
    }
    AlignHead(after, s);
    assert s[0] in s;
    hide Mark, Restore;
    if Pair(s) {
      ContentKept(s[1] == BS, s[2..]);
      assert s[..2] == [BS, s[1]];
      ContentPair(s[1], Mark(s[1] == BS, Restore(s[2..])));
    } else if LostBreak(s) {
      ContentKept(false, s[1..]);
      ContentBreak(Mark(false, Restore(s[1..])));
    } else if s == [BS] {
    } else if s[0] == BS {
      ContentKept(false, s[2..]);
      ContentBreak(Mark(false, Restore(s[2..])));
      assert s[1..][1..] == s[2..];
    } else if s[0] == LF {
      ContentKept(false, s[1..]);
      ContentBreak(Mark(false, Restore(s[1..])));
    } else {
      ContentKept(false, s[1..]);
      ContentChar(s[0], Mark(false, Restore(s[1..])));
    }
  }

  lemma AlignKeepsContent(original: string, replacement: string)
    requires CR !in replacement
    ensures Content(Align(original, replacement)) == Content(replacement)
  {
    if UsesMarker(original) {
      AlignIsMark(original, replacement);
      ContentKept(false, replacement);
    }
  }
}
