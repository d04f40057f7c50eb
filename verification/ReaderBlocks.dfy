/** What the decoded reader finds in a file written as blocks (exports.py `read_po_entries`). */
module ReaderBlocks {
  import opened Text
  import opened Wrappers
  import opened PoEscape
  import opened RawStream
  import opened PoReader

  // ------------------------------------------------------------------- blocks

  /** A line the reader takes no text from: it starts with none of the three keywords and with no quote. */
  predicate Aside(s: string) {
    !("msgctxt " <= s) && !("msgid " <= s) && !("msgstr " <= s) && (s == [] || s[0] != '\"')
  }

  /** What stands together in a file: other lines, a msgctxt line, and two strings in pieces, each piece on a line of
      its own, the first behind the keyword. */
  datatype Block = Block(asides: seq<string>, key: string, id: seq<string>, str: seq<string>)

  predicate GoodBlock(b: Block) {
    forall s :: s in b.asides ==> Aside(s)
  }

  function Between(piece: string): string {
    ['\"'] + piece + ['\"']
  }

  function More(pieces: seq<string>): seq<string> {
    if pieces == [] then [] else [Between(pieces[0])] + More(pieces[1..])
  }

  function Part(word: string, pieces: seq<string>): seq<string> {
    if pieces == [] then [] else [word + Between(pieces[0])] + More(pieces[1..])
  }

  function Strings(b: Block): seq<string> {
    Part("msgid ", b.id) + Part("msgstr ", b.str)
  }

  /** The stripped lines of the blocks; `keyed` says whether the first has its msgctxt line. */
  function FileLines(bs: seq<Block>, keyed: bool): seq<string> {
    if bs == [] then []
    else
      bs[0].asides + ((if keyed then ["msgctxt " + Between(bs[0].key)] else [])
      + (Strings(bs[0]) + FileLines(bs[1..], true)))
  }

  // ------------------------------------------------------------- what is found

  /** The pieces put together, each without the quotes at its ends. */
  function Said(pieces: seq<string>): string {
    if pieces == [] then [] else StripQuotes(Between(pieces[0])) + Said(pieces[1..])
  }

  /** The text of the last reference line; "" when there is none. */
  function Reference(asides: seq<string>): string {
    if asides == [] then []
    else
      var s := asides[|asides| - 1];
      if "#:" <= s then Strip(s[2..]) else Reference(asides[..|asides| - 1])
  }

  /** The entries: every block with a source text, decoded; without a key, or with an empty one, its number. */
  function Found(bs: seq<Block>, keyed: bool, n: nat): seq<PoText> {
    if bs == [] then []
    else
      var b := bs[0];
      var key := if keyed then UnescapeChain(StripQuotes(Between(b.key))) else "";
      var source := UnescapeChain(Said(b.id));
      var entry := PoText(if key != "" then key else "po:" + Decimal(n), source, UnescapeChain(Said(b.str)),
                          Reference(b.asides));
      if source == "" then Found(bs[1..], true, n) else [entry] + Found(bs[1..], true, n + 1)
  }

  // ----------------------------------------------------------- feeding a block

  predicate NoCtxt(ls: seq<string>) {
    forall l :: l in ls ==> !Classify(l).Ctxt?
  }

  function FeedAll(h: Held, ls: seq<string>): Held
    decreases |ls|
  {
    if ls == [] then h else FeedAll(Feed(h, ls[0]), ls[1..])
  }

  lemma {:induction false} FeedConcat(h: Held, a: seq<string>, b: seq<string>)
    ensures FeedAll(h, a + b) == FeedAll(FeedAll(h, a), b)
    decreases |a|
  {
    hide Feed;
    if a == [] {
      assert a + b == b;
    } else {
      assert (a + b)[1..] == a[1..] + b;
      FeedConcat(Feed(h, a[0]), a[1..], b);
    }
  }

  lemma {:induction false} SegmentsSkip(ls: seq<string>, rest: seq<string>, h: Held)
    requires NoCtxt(ls)
    ensures SegmentsFrom(ls + rest, h) == SegmentsFrom(rest, FeedAll(h, ls))
    decreases |ls|
  {
    hide Feed, Classify;
    if ls == [] {
      assert ls + rest == rest;
    } else {
      assert ls[0] in ls && (ls + rest)[1..] == ls[1..] + rest;
      SegmentsSkip(ls[1..], rest, Feed(h, ls[0]));
    }
  }

  lemma BetweenTrimmed(piece: string)
    ensures IsTrimmed(Between(piece)) && Strip(Between(piece)) == Between(piece)
  {
    StripTrimmed(Between(piece));
  }

  lemma ClassifyWord(word: string, piece: string)
    requires word in ["msgctxt ", "msgid ", "msgstr "]
    ensures Classify(word + Between(piece)) == if word == "msgctxt " then Ctxt(Between(piece))
              else if word == "msgid " then Id(Between(piece)) else Str(Between(piece))
  {
    hide Strip;
    var q := Between(piece);
    var s := word + q;
    assert s[0] == 'm' && s[|s| - 1] == QUOTE;
    StripTrimmed(s);
    assert s[|word|..] == q;
    assert STR[3] == 's' && CTXT[3] == 'c' && ID[3] == 'i';
  }

  lemma ClassifyMore(piece: string)
    ensures Classify(Between(piece)) == Quoted
  {
    hide Strip;
    BetweenTrimmed(piece);
    assert CTXT[0] == 'm' && ID[0] == 'm' && STR[0] == 'm';
  }

  lemma ClassifyAside(s: string)
    requires Aside(s) && IsTrimmed(s)
    ensures Classify(s) == Other
  {
    StripTrimmed(s);
  }

  /** What the reader holds, but for what the model adds. */
  ghost predicate Holds(h: Held, key: Option<string>, id: string, str: string, location: string, next: string) {
    h.key == key && h.id == id && h.str == str && h.location == location && h.nextLocation == next
  }

  lemma {:induction false} FeedMore(h: Held, pieces: seq<string>)
    requires h.mode.IdMode? || h.mode.StrMode?
    ensures var g := FeedAll(h, More(pieces));
      && g.mode == h.mode && NoCtxt(More(pieces))
      && if h.mode.IdMode? then Holds(g, h.key, h.id + Said(pieces), h.str, h.location, h.nextLocation)
         else Holds(g, h.key, h.id, h.str + Said(pieces), h.location, h.nextLocation)
    decreases |pieces|
  {
    hide Classify, Strip, StripQuotes, Between;
    if pieces == [] {
      assert h.id + [] == h.id && h.str + [] == h.str;
    } else {
      var p, rest := pieces[0], pieces[1..];
      ClassifyMore(p);
      BetweenTrimmed(p);
      var g := Feed(h, Between(p));
      FeedMore(g, rest);
      var t := StripQuotes(Between(p));
      assert h.id + t + Said(rest) == h.id + (t + Said(rest)) && h.str + t + Said(rest) == h.str + (t + Said(rest));
      assert More(pieces)[1..] == More(rest);
    }
  }

  lemma FeedId(h: Held, pieces: seq<string>)
    requires pieces != []
    ensures NoCtxt(Part("msgid ", pieces))
    ensures var g := FeedAll(h, Part("msgid ", pieces));
      if h.key.None? then Holds(g, None, Said(pieces), h.str, h.nextLocation, [])
      else Holds(g, h.key, Said(pieces), h.str, h.location, h.nextLocation)
  {
    hide Classify, Strip, StripQuotes, Between;
    ClassifyWord("msgid ", pieces[0]);
    BetweenTrimmed(pieces[0]);
    var first := "msgid " + Between(pieces[0]);
    var g := Feed(h, first);
    FeedMore(g, pieces[1..]);
    assert Part("msgid ", pieces)[0] == first && Part("msgid ", pieces)[1..] == More(pieces[1..]);
  }

  lemma FeedStr(h: Held, pieces: seq<string>)
    requires pieces != []
    ensures NoCtxt(Part("msgstr ", pieces))
    ensures Holds(FeedAll(h, Part("msgstr ", pieces)), h.key, h.id, Said(pieces), h.location, h.nextLocation)
  {
    hide Classify, Strip, StripQuotes, Between;
    ClassifyWord("msgstr ", pieces[0]);
    BetweenTrimmed(pieces[0]);
    var first := "msgstr " + Between(pieces[0]);
    var g := Feed(h, first);
    FeedMore(g, pieces[1..]);
    assert Part("msgstr ", pieces)[0] == first && Part("msgstr ", pieces)[1..] == More(pieces[1..]);
  }

  lemma FeedStrings(h: Held, b: Block)
    requires h.id == [] && h.str == [] && (h.key.None? ==> b.id != [])
    ensures NoCtxt(Strings(b))
    ensures var g := FeedAll(h, Strings(b));
      if h.key.None? then Holds(g, None, Said(b.id), Said(b.str), h.nextLocation, [])
      else Holds(g, h.key, Said(b.id), Said(b.str), h.location, h.nextLocation)
  {
    hide Classify, Feed, Part, FeedAll;
    FeedConcat(h, Part("msgid ", b.id), Part("msgstr ", b.str));
    NothingSaid(h);
    if b.id != [] {
      FeedId(h, b.id);
    }
    var g := FeedAll(h, Part("msgid ", b.id));
    NothingSaid(g);
    if b.str != [] {
      FeedStr(g, b.str);
    }
  }

  lemma NothingSaid(h: Held)
    ensures Said([]) == [] && Part("msgid ", []) == [] && Part("msgstr ", []) == [] && FeedAll(h, []) == h
  {
  }

  lemma {:induction false} FeedAsides(h: Held, asides: seq<string>)
    requires h.nextLocation == [] && forall s :: s in asides ==> Aside(s) && IsTrimmed(s)
    ensures NoCtxt(asides)
    ensures Holds(FeedAll(h, asides), h.key, h.id, h.str, h.location, Reference(asides))
  {
    hide Classify, Aside, IsTrimmed, Feed;
    if asides == [] {
      NothingSaid(h);
    } else {
      var rest, s := asides[..|asides| - 1], asides[|asides| - 1];
      assert asides == rest + [s] && s in asides && forall x :: x in rest ==> x in asides;
      FeedAsides(h, rest);
      ClassifyAside(s);
      FeedConcat(h, rest, [s]);
      FeedOne(FeedAll(h, rest), s);
    }
  }

  lemma FeedOne(h: Held, s: string)
    requires Aside(s) && IsTrimmed(s)
    ensures FeedAll(h, [s]) == Feed(h, s)
    ensures Holds(Feed(h, s), h.key, h.id, h.str, h.location, if "#:" <= s then Strip(s[2..]) else h.nextLocation)
  {
    ClassifyAside(s);
    StripTrimmed(s);
    hide Classify, Strip;
    assert [s][1..] == [];
  }

  // ------------------------------------------------------------- whole files

  /** The segment of a block, but for what the model adds. */
  ghost predicate IsSegment(s: Segment, b: Block, key: Option<string>) {
    s.key == key && s.id == Said(b.id) && s.str == Said(b.str) && s.location == Reference(b.asides)
  }

  function KeyText(b: Block): Option<string> {
    Some(UnescapeChain(StripQuotes(Between(b.key))))
  }

  lemma OpenKeyed(h: Held, b: Block, rest: seq<string>)
    ensures SegmentsFrom(["msgctxt " + Between(b.key)] + rest, h)
         == [SegmentOf(h)] + SegmentsFrom(rest, Open(h, KeyText(b).value))
  {
    hide Classify, Strip, StripQuotes, UnescapeChain;
    ClassifyWord("msgctxt ", b.key);
    BetweenTrimmed(b.key);
    SegmentsCons("msgctxt " + Between(b.key), rest, h);
  }

  ghost predicate AreSegments(segs: seq<Segment>, bs: seq<Block>, keyed: bool) {
    |segs| == |bs| && forall i :: 0 <= i < |bs| ==>
      IsSegment(segs[i], bs[i], if keyed || i > 0 then KeyText(bs[i]) else None)
  }

  ghost predicate Trimmed(bs: seq<Block>) {
    forall b :: b in bs ==> GoodBlock(b) && forall s :: s in b.asides ==> IsTrimmed(s)
  }

  /** The segment that ends where the blocks begin, and those of the blocks. */
  lemma {:induction false} FileSegments(bs: seq<Block>, h: Held) returns (first: Segment, segs: seq<Segment>)
    requires h.nextLocation == [] && Trimmed(bs)
    ensures SegmentsFrom(FileLines(bs, true), h) == [first] + segs && AreSegments(segs, bs, true)
    ensures first.key == h.key && first.id == h.id && first.str == h.str && first.location == h.location
    decreases |bs|
  {
    hide SegmentsFrom, FeedAll, Strings, Between, KeyText, Said, Reference, Aside, IsTrimmed, Classify, NoCtxt;
    if bs == [] {
      first, segs := SegmentOf(h), [];
      NoLinesLeft(h);
    } else {
      var b, rest := bs[0], bs[1..];
      assert b in bs && forall x :: x in rest ==> x in bs;
      var tail := Strings(b) + FileLines(rest, true);
      FeedAsides(h, b.asides);
      var h1 := FeedAll(h, b.asides);
      SegmentsSkip(b.asides, ["msgctxt " + Between(b.key)] + tail, h);
      OpenKeyed(h1, b, tail);
      KeySome(b);
      var h2 := Open(h1, KeyText(b).value);
      FeedStrings(h2, b);
      SegmentsSkip(Strings(b), FileLines(rest, true), h2);
      var next, more := FileSegments(rest, FeedAll(h2, Strings(b)));
      first, segs := SegmentOf(h1), [next] + more;
    }
  }

  lemma KeySome(b: Block)
    ensures KeyText(b).Some?
  {
  }

  lemma NoLinesLeft(h: Held)
    ensures SegmentsFrom(FileLines([], true), h) == [SegmentOf(h)] + []
  {
  }

  lemma EntriesSnoc(segs: seq<Segment>, s: Segment)
    ensures Entries(segs + [s]) == if UnescapeChain(s.id) == "" then Entries(segs) else Entries(segs) + [s]
  {
    hide UnescapeChain;
    assert (segs + [s])[..|segs|] == segs;
  }

  lemma NumberedSnoc(segs: seq<Segment>, s: Segment)
    ensures Numbered(segs + [s]) == Numbered(segs) + [AsText(s, |segs|)]
  {
    hide AsText;
  }

  /** The segment of the first block is its entry, unless it is the header or has no source. */
  lemma FoundCons(s: Segment, bs: seq<Block>, keyed: bool, n: nat)
    requires bs != [] && IsSegment(s, bs[0], if keyed then KeyText(bs[0]) else None)
    ensures Found(bs, keyed, n)
         == if UnescapeChain(s.id) == "" then Found(bs[1..], true, n)
            else [AsText(s, n)] + Found(bs[1..], true, n + 1)
  {
    hide UnescapeChain, StripQuotes, Between, Said, Reference, Decimal;
  }

  lemma RestAreSegments(segs: seq<Segment>, bs: seq<Block>, keyed: bool)
    requires AreSegments(segs, bs, keyed) && bs != []
    ensures segs != [] && IsSegment(segs[0], bs[0], if keyed then KeyText(bs[0]) else None)
    ensures AreSegments(segs[1..], bs[1..], true)
  {
    hide IsSegment, KeyText;
  }

  lemma {:induction false} FoundIs(done: seq<Segment>, segs: seq<Segment>, bs: seq<Block>, keyed: bool)
    requires AreSegments(segs, bs, keyed)
    ensures Numbered(Entries(done + segs)) == Numbered(Entries(done)) + Found(bs, keyed, |Entries(done)|)
    decreases |bs|
  {
    hide UnescapeChain, Numbered, Entries, Found, AsText, IsSegment, KeyText;
    if bs == [] {
      FoundNothing(keyed, |Entries(done)|);
      assert done + segs == done && Numbered(Entries(done)) + [] == Numbered(Entries(done));
    } else {
      var s, rest := segs[0], segs[1..];
      assert segs == [s] + rest && done + segs == (done + [s]) + rest;
      RestAreSegments(segs, bs, keyed);
      hide AreSegments;
      FoundCons(s, bs, keyed, |Entries(done)|);
      EntriesSnoc(done, s);
      NumberedSnoc(Entries(done), s);
      FoundIs(done + [s], rest, bs[1..], true);
      var n := |Entries(done)|;
      if UnescapeChain(s.id) != "" {
        assert Numbered(Entries(done)) + [AsText(s, n)] + Found(bs[1..], true, n + 1)
            == Numbered(Entries(done)) + ([AsText(s, n)] + Found(bs[1..], true, n + 1));
      }
    }
  }

  lemma FoundNothing(keyed: bool, n: nat)
    ensures Found([], keyed, n) == []
  {
  }

  /** The lines of a file as they stand, blanks around them and all. */
  ghost predicate StandFor(lines: seq<string>, stripped: seq<string>) {
    |lines| == |stripped| && forall i :: 0 <= i < |lines| ==> Strip(lines[i]) == stripped[i]
  }

  lemma FeedStripped(h: Held, line: string)
    ensures Classify(Strip(line)) == Classify(line) && Feed(h, Strip(line)) == Feed(h, line)
  {
    StripIsTrim(line);
    StripTrimmed(Strip(line));
  }

  lemma {:induction false} SegmentsStripped(lines: seq<string>, stripped: seq<string>, h: Held)
    requires StandFor(lines, stripped)
    ensures SegmentsFrom(lines, h) == SegmentsFrom(stripped, h)
    decreases |lines|
  {
    hide Strip, Classify, Feed;
    if lines != [] {
      var rest := lines[1..];
      assert StandFor(rest, stripped[1..]);
      FeedStripped(h, lines[0]);
      if Classify(lines[0]).Ctxt? {
        SegmentsStripped(rest, stripped[1..], Open(h, KeyOf(DecodedKey, Classify(lines[0]).field)));
      } else {
        SegmentsStripped(rest, stripped[1..], Feed(h, lines[0]));
      }
    }
  }

  lemma AsidesAreLines(bs: seq<Block>, keyed: bool, b: Block, s: string)
    requires b in bs && s in b.asides
    ensures s in FileLines(bs, keyed)
    decreases |bs|
  {
    hide Strings, Between;
    if bs[0] != b {
      AsidesAreLines(bs[1..], true, b, s);
    }
  }

  lemma AllTrimmed(bs: seq<Block>, keyed: bool, lines: seq<string>)
    requires StandFor(lines, FileLines(bs, keyed)) && forall b :: b in bs ==> GoodBlock(b)
    ensures Trimmed(bs)
  {
    hide FileLines, Strip;
    forall b, s | b in bs && s in b.asides ensures IsTrimmed(s) {
      AsidesAreLines(bs, keyed, b, s);
      var i :| 0 <= i < |lines| && FileLines(bs, keyed)[i] == s;
      StripIsTrim(lines[i]);
    }
  }

  lemma FirstKeyless(bs: seq<Block>) returns (segs: seq<Segment>)
    requires bs != [] && bs[0].id != [] && Trimmed(bs)
    ensures SegmentsFrom(FileLines(bs, false), PoReader.START) == segs && AreSegments(segs, bs, false)
  {
    hide SegmentsFrom, FeedAll, Strings, Between, KeyText, Said, Reference, Aside, IsTrimmed, Classify, NoCtxt;
    var b, rest := bs[0], bs[1..];
    assert b in bs && forall x :: x in rest ==> x in bs;
    FeedAsides(PoReader.START, b.asides);
    var h1 := FeedAll(PoReader.START, b.asides);
    var tail := Strings(b) + FileLines(rest, true);
    assert [] + tail == tail;
    SegmentsSkip(b.asides, tail, PoReader.START);
    FeedStrings(h1, b);
    SegmentsSkip(Strings(b), FileLines(rest, true), h1);
    var first, more := FileSegments(rest, FeedAll(h1, Strings(b)));
    segs := [first] + more;
  }

  /** Every file written in blocks, its lines indented in any way: the decoded reader finds the blocks with a source
      text, in order, each string the pieces it was cut into read one after the other and decoded, with the last
      reference line in front of it as its location. */
  lemma ReadBlocks(bs: seq<Block>, keyed: bool, lines: seq<string>)
    requires StandFor(lines, FileLines(bs, keyed)) && forall b :: b in bs ==> GoodBlock(b)
    requires keyed || (bs != [] && bs[0].id != [])
    ensures Numbered(ReadEntries(lines)) == Found(bs, keyed, 0)
  {
    hide SegmentsFrom, FileLines, StandFor, Found, Numbered, GoodBlock, AreSegments, Trimmed, UnescapeChain;
    AllTrimmed(bs, keyed, lines);
    SegmentsStripped(lines, FileLines(bs, keyed), PoReader.START);
    assert Numbered(Entries([])) == [] by {
      NothingRead();
    }
    if keyed {
      var first, segs := FileSegments(bs, PoReader.START);
      NothingDecoded();
      EntriesSnoc([], first);
      assert [] + [first] == [first];
      FoundIs([first], segs, bs, true);
      assert [] + Found(bs, true, 0) == Found(bs, true, 0);
    } else {
      var segs := FirstKeyless(bs);
      FoundIs([], segs, bs, false);
      assert [] + segs == segs && [] + Found(bs, false, 0) == Found(bs, false, 0);
    }
  }

  lemma NothingDecoded()
    ensures UnescapeChain([]) == "" && Entries([]) == []
  {
  }

  /** A piece without quotes at its ends is read as it is. */
  lemma PlainPiece(piece: string)
    requires piece == [] || (piece[0] != QUOTE && piece[|piece| - 1] != QUOTE)
    ensures StripQuotes(Between(piece)) == piece
  {
    StripBoth(piece);
    StripNothing(piece);
  }
}
