/** What the patchers and the raw reader make of a file written as blocks, each line with its own blanks and line end
    (po_patch.py `read_raw_entries`, `patch_po_raw_lines`, `patch_po_lines`). */
module RawBlocks {
  import opened Text
  import opened Wrappers
  import opened PoEscape
  import opened Separators
  import opened RawStream
  import opened ReaderBlocks

  /** A line of a file: blanks, its text, blanks, and its end. */
  datatype Line = Line(indent: string, text: string, blanks: string, end: string)

  predicate IsEnd(c: char) {
    c == '\r' || c == '\n'
  }

  predicate GoodLine(l: Line) {
    && l.text != [] && IsTrimmed(l.text)
    && (forall c :: c in l.indent + l.blanks ==> IsSpace(c) && !IsEnd(c))
    && forall c :: c in l.end ==> IsEnd(c)
  }

  function Physical(l: Line): string {
    l.indent + (l.text + (l.blanks + l.end))
  }

  function AllPhysical(ls: seq<Line>): seq<string> {
    if ls == [] then [] else [Physical(ls[0])] + AllPhysical(ls[1..])
  }

  /** A msgctxt line, the lines of msgid, a msgstr line with its continuation lines, and what is aside in front. */
  datatype RawBlock = RawBlock(asides: seq<Line>, ctxt: Line, key: string, id: Line, src: string, idMore: seq<Line>,
                               str: Line, tgt: string, strMore: seq<Line>)

  predicate IsMore(l: Line) {
    GoodLine(l) && l.text[0] == '\"'
  }

  predicate GoodRaw(b: RawBlock) {
    && (forall l :: l in b.asides ==> GoodLine(l) && Aside(l.text))
    && GoodLine(b.ctxt) && b.ctxt.text == "msgctxt " + ReaderBlocks.Between(b.key)
    && GoodLine(b.id) && b.id.text == "msgid " + ReaderBlocks.Between(b.src)
    && GoodLine(b.str) && b.str.text == "msgstr " + ReaderBlocks.Between(b.tgt)
    && (forall l :: l in b.idMore ==> IsMore(l)) && forall l :: l in b.strMore ==> IsMore(l)
  }

  /** The lines of a block in front of its msgstr. */
  function Front(b: RawBlock): seq<string> {
    AllPhysical(b.asides) + ([Physical(b.ctxt)] + ([Physical(b.id)] + AllPhysical(b.idMore)))
  }

  function FileOf(bs: seq<RawBlock>): seq<string> {
    if bs == [] then []
    else Front(bs[0]) + ([Physical(bs[0].str)] + (AllPhysical(bs[0].strMore) + FileOf(bs[1..])))
  }

  /** The key a patcher knows a block by. */
  function KeyFor(r: KeyReader, key: string): string {
    if r.RawKey? then key else UnescapeChain(StripQuotes(ReaderBlocks.Between(key)))
  }

  /** The msgstr line a block gets: on one line, with the end of the line it replaces. */
  function NewLine(raw: string, end: string): string {
    "msgstr \"" + raw + "\"" + if end == "" then "\n" else end
  }

  /** The file with the msgstr of every block that has a replacement on one line, and nothing else changed. */
  function PatchedFile(bs: seq<RawBlock>, r: KeyReader, raws: map<string, string>): seq<string> {
    if bs == [] then []
    else
      var b := bs[0];
      var key := KeyFor(r, b.key);
      Front(b) + ((if key in raws then [NewLine(raws[key], b.str.end)] else [Physical(b.str)] + AllPhysical(b.strMore))
                  + PatchedFile(bs[1..], r, raws))
  }

  function KeysMet(bs: seq<RawBlock>, r: KeyReader, raws: map<string, string>): seq<string> {
    if bs == [] then []
    else (if KeyFor(r, bs[0].key) in raws then [KeyFor(r, bs[0].key)] else []) + KeysMet(bs[1..], r, raws)
  }

  // -------------------------------------------------------------------- lines

  lemma {:induction false} LStripGoes(indent: string, t: string)
    requires (forall c :: c in indent ==> IsSpace(c)) && (t == [] || !IsSpace(t[0]))
    ensures LStrip(indent + t) == t
  {
    if indent == [] {
      assert indent + t == t;
    } else {
      assert indent[0] in indent && (indent + t)[1..] == indent[1..] + t;
      LStripGoes(indent[1..], t);
    }
  }

  lemma StripPhysical(l: Line)
    requires GoodLine(l)
    ensures Strip(Physical(l)) == l.text
  {
    var tail := l.blanks + l.end;
    forall c | c in tail ensures IsSpace(c) {
      assert c in l.blanks ==> c in l.indent + l.blanks;
    }
    assert forall c :: c in l.indent ==> c in l.indent + l.blanks;
    LStripGoes(l.indent, l.text + tail);
    RStripKeeps(l.text, tail);
  }

  lemma {:induction false} EolSuffixOf(body: string, end: string)
    requires (forall c :: c in end ==> IsEnd(c)) && (body != [] ==> !IsEnd(body[|body| - 1]))
    ensures EolSuffix(body + end) == end
  {
    if end == [] {
      assert body + end == body;
    } else {
      var e := end[..|end| - 1];
      assert end[|end| - 1] in end && (body + end)[..|body + end| - 1] == body + e;
      EolSuffixOf(body, e);
      assert e + [end[|end| - 1]] == end;
    }
  }

  lemma EolPhysical(l: Line)
    requires GoodLine(l)
    ensures Eol(Physical(l)) == if l.end == "" then "\n" else l.end
  {
    hide EolSuffix;
    var body := l.indent + (l.text + l.blanks);
    assert Physical(l) == body + l.end;
    assert body[|body| - 1] == if l.blanks != [] then l.blanks[|l.blanks| - 1] else l.text[|l.text| - 1];
    if l.blanks != [] {
      assert l.blanks[|l.blanks| - 1] in l.indent + l.blanks;
    } else {
      EndIsSpace(l.text[|l.text| - 1]);
    }
    EolSuffixOf(body, l.end);
  }

  lemma EndIsSpace(c: char)
    ensures IsEnd(c) ==> IsSpace(c)
  {
  }

  lemma ClassifyPhysical(l: Line)
    requires GoodLine(l)
    ensures Classify(Physical(l)) == Classify(l.text)
  {
    hide Strip;
    StripPhysical(l);
    StripTrimmed(l.text);
  }

  lemma NewLineIs(l: Line, raw: string)
    requires GoodLine(l)
    ensures MsgstrLine(raw, Physical(l)) == NewLine(raw, l.end)
  {
    hide Eol, GoodLine;
    EolPhysical(l);
    assert "msgstr \"" == STR + [QUOTE];
    assert "\"" == [QUOTE];
  }

  // --------------------------------------------------------------- runs of lines

  /** The patcher over some lines: what it yields, applies and carries on. */
  function PatchRun(ls: seq<string>, r: KeyReader, raws: map<string, string>, st: State): Step
    decreases |ls|
  {
    if ls == [] then Step([], [], st)
    else
      var s := PatchStep(ls[0], r, raws, st);
      var t := PatchRun(ls[1..], r, raws, s.next);
      Step(s.out + t.out, s.applied + t.applied, t.next)
  }

  lemma {:induction false} PatchThrough(a: seq<string>, b: seq<string>, r: KeyReader, raws: map<string, string>,
                                        st: State)
    ensures var s := PatchRun(a, r, raws, st);
      var t := PatchFrom(b, r, raws, s.next);
      PatchFrom(a + b, r, raws, st) == (s.out + t.0, s.applied + t.1)
    decreases |a|
  {
    hide PatchStep;
    if a == [] {
      assert a + b == b;
      var t := PatchFrom(b, r, raws, st);
      assert [] + t.0 == t.0 && [] + t.1 == t.1;
    } else {
      assert (a + b)[0] == a[0] && (a + b)[1..] == a[1..] + b;
      var s := PatchStep(a[0], r, raws, st);
      PatchThrough(a[1..], b, r, raws, s.next);
      var u := PatchRun(a[1..], r, raws, s.next);
      var t := PatchFrom(b, r, raws, u.next);
      assert s.out + (u.out + t.0) == (s.out + u.out) + t.0;
      assert s.applied + (u.applied + t.1) == (s.applied + u.applied) + t.1;
    }
  }

  lemma AsideLine(l: Line, r: KeyReader, raws: map<string, string>, st: State)
    requires GoodLine(l) && Aside(l.text)
    ensures PatchStep(Physical(l), r, raws, st) == Step([Physical(l)], [], State(st.key, false))
  {
    hide Classify, GoodLine, Aside, MsgstrLine, Physical;
    AsideIsOther(l);
  }

  /** Lines that are no msgctxt and no msgstr line are forwarded, but for continuation lines while skipping. */
  lemma {:induction false} ForwardAsides(ls: seq<Line>, r: KeyReader, raws: map<string, string>, st: State)
    requires forall l :: l in ls ==> GoodLine(l) && Aside(l.text)
    ensures PatchRun(AllPhysical(ls), r, raws, st)
         == Step(AllPhysical(ls), [], State(st.key, if ls == [] then st.skipping else false))
    decreases |ls|
  {
    hide PatchStep, GoodLine, Aside, Physical;
    if ls != [] {
      assert ls[0] in ls && forall l :: l in ls[1..] ==> l in ls;
      AsideLine(ls[0], r, raws, st);
      ForwardAsides(ls[1..], r, raws, State(st.key, false));
      assert AllPhysical(ls)[1..] == AllPhysical(ls[1..]);
    }
  }

  lemma AsideIsOther(l: Line)
    requires GoodLine(l) && Aside(l.text)
    ensures Classify(Physical(l)) == Other
  {
    hide Classify, Physical;
    ClassifyPhysical(l);
    ClassifyAside(l.text);
  }

  lemma MoreIsQuoted(l: Line)
    requires IsMore(l)
    ensures Classify(Physical(l)) == Quoted
  {
    hide Physical, Strip;
    ClassifyPhysical(l);
    StripTrimmed(l.text);
    assert CTXT[0] == 'm' && ID[0] == 'm' && STR[0] == 'm';
  }

  lemma MoreLine(l: Line, r: KeyReader, raws: map<string, string>, st: State)
    requires IsMore(l)
    ensures PatchStep(Physical(l), r, raws, st)
         == if st.skipping then Step([], [], st) else Step([Physical(l)], [], st)
  {
    hide Classify, IsMore, MsgstrLine, Physical;
    MoreIsQuoted(l);
  }

  lemma {:induction false} MoreLines(ls: seq<Line>, r: KeyReader, raws: map<string, string>, st: State)
    requires forall l :: l in ls ==> IsMore(l)
    ensures PatchRun(AllPhysical(ls), r, raws, st)
         == if st.skipping then Step([], [], st) else Step(AllPhysical(ls), [], st)
    decreases |ls|
  {
    hide PatchStep, IsMore, Physical;
    if ls != [] {
      assert ls[0] in ls && forall l :: l in ls[1..] ==> l in ls;
      MoreLine(ls[0], r, raws, st);
      MoreLines(ls[1..], r, raws, st);
      assert AllPhysical(ls)[1..] == AllPhysical(ls[1..]);
    }
  }

  lemma KeyOfBetween(r: KeyReader, key: string)
    ensures KeyOf(r, ReaderBlocks.Between(key)) == KeyFor(r, key)
  {
    hide UnescapeChain, StripQuotes, Strip;
    BetweenTrimmed(key);
    assert ReaderBlocks.Between(key)[1..|key| + 1] == key;
  }

  lemma OneLine(line: string, r: KeyReader, raws: map<string, string>, st: State)
    ensures PatchRun([line], r, raws, st) == PatchStep(line, r, raws, st)
  {
    hide PatchStep;
    var s := PatchStep(line, r, raws, st);
    assert [line][1..] == [] && s.out + [] == s.out && s.applied + [] == s.applied;
  }

  lemma CtxtLine(b: RawBlock, r: KeyReader, raws: map<string, string>, st: State)
    requires GoodRaw(b)
    ensures PatchRun([Physical(b.ctxt)], r, raws, st)
         == Step([Physical(b.ctxt)], [], State(Some(KeyFor(r, b.key)), false))
  {
    hide Classify, Physical, MsgstrLine, GoodLine, KeyOf;
    ClassifyPhysical(b.ctxt);
    ClassifyWord("msgctxt ", b.key);
    KeyOfBetween(r, b.key);
    OneLine(Physical(b.ctxt), r, raws, st);
  }

  lemma IdLine(b: RawBlock, r: KeyReader, raws: map<string, string>, st: State)
    requires GoodRaw(b) && !st.skipping
    ensures PatchRun([Physical(b.id)], r, raws, st) == Step([Physical(b.id)], [], st)
  {
    hide Classify, Physical, MsgstrLine, GoodLine;
    ClassifyPhysical(b.id);
    ClassifyWord("msgid ", b.src);
    OneLine(Physical(b.id), r, raws, st);
  }

  lemma StrLine(b: RawBlock, r: KeyReader, raws: map<string, string>, st: State)
    requires GoodRaw(b) && !st.skipping && st.key.Some?
    ensures PatchRun([Physical(b.str)], r, raws, st)
         == if st.key.value in raws then
              Step([NewLine(raws[st.key.value], b.str.end)], [st.key.value], State(st.key, true))
            else Step([Physical(b.str)], [], st)
  {
    hide Classify, Physical, MsgstrLine, GoodLine, NewLine;
    ClassifyPhysical(b.str);
    ClassifyWord("msgstr ", b.tgt);
    if st.key.value in raws {
      NewLineIs(b.str, raws[st.key.value]);
    }
    OneLine(Physical(b.str), r, raws, st);
  }

  lemma {:induction false} RunConcat(a: seq<string>, b: seq<string>, r: KeyReader, raws: map<string, string>, st: State)
    ensures var s := PatchRun(a, r, raws, st);
      var t := PatchRun(b, r, raws, s.next);
      PatchRun(a + b, r, raws, st) == Step(s.out + t.out, s.applied + t.applied, t.next)
    decreases |a|
  {
    hide PatchStep;
    if a == [] {
      assert a + b == b;
      var t := PatchRun(b, r, raws, st);
      assert [] + t.out == t.out && [] + t.applied == t.applied;
    } else {
      assert (a + b)[0] == a[0] && (a + b)[1..] == a[1..] + b;
      var s := PatchStep(a[0], r, raws, st);
      RunConcat(a[1..], b, r, raws, s.next);
      var u := PatchRun(a[1..], r, raws, s.next);
      var t := PatchRun(b, r, raws, u.next);
      assert s.out + (u.out + t.out) == (s.out + u.out) + t.out;
      assert s.applied + (u.applied + t.applied) == (s.applied + u.applied) + t.applied;
    }
  }

  lemma FrontPatched(b: RawBlock, r: KeyReader, raws: map<string, string>, st: State)
    requires GoodRaw(b)
    ensures PatchRun(Front(b), r, raws, st) == Step(Front(b), [], State(Some(KeyFor(r, b.key)), false))
  {
    hide PatchRun, Physical, AllPhysical, GoodLine, Aside, IsMore, KeyFor;
    var st1 := State(st.key, if b.asides == [] then st.skipping else false);
    var st2 := State(Some(KeyFor(r, b.key)), false);
    var idLines := [Physical(b.id)] + AllPhysical(b.idMore);
    ForwardAsides(b.asides, r, raws, st);
    CtxtLine(b, r, raws, st1);
    IdLine(b, r, raws, st2);
    MoreLines(b.idMore, r, raws, st2);
    RunConcat([Physical(b.id)], AllPhysical(b.idMore), r, raws, st2);
    RunConcat([Physical(b.ctxt)], idLines, r, raws, st1);
    RunConcat(AllPhysical(b.asides), [Physical(b.ctxt)] + idLines, r, raws, st);
  }

  lemma {:induction false} FilePatched(bs: seq<RawBlock>, r: KeyReader, raws: map<string, string>, st: State)
    requires forall b :: b in bs ==> GoodRaw(b)
    ensures PatchFrom(FileOf(bs), r, raws, st) == (PatchedFile(bs, r, raws), KeysMet(bs, r, raws))
    decreases |bs|
  {
    hide PatchRun, PatchStep, Front, Physical, AllPhysical, GoodRaw, KeyFor, NewLine, IsMore;
    if bs != [] {
      var b, rest := bs[0], bs[1..];
      assert b in bs && forall x :: x in rest ==> x in bs;
      MoreOf(b);
      var key := KeyFor(r, b.key);
      var st1 := State(Some(key), false);
      var st2 := State(Some(key), key in raws);
      FrontPatched(b, r, raws, st);
      StrLine(b, r, raws, st1);
      MoreLines(b.strMore, r, raws, st2);
      FilePatched(rest, r, raws, st2);
      PatchThrough(AllPhysical(b.strMore), FileOf(rest), r, raws, st2);
      PatchThrough([Physical(b.str)], AllPhysical(b.strMore) + FileOf(rest), r, raws, st1);
      PatchThrough(Front(b), [Physical(b.str)] + (AllPhysical(b.strMore) + FileOf(rest)), r, raws, st);
      var more := PatchedFile(rest, r, raws);
      if key in raws {
        Glue(Front(b), [NewLine(raws[key], b.str.end)], [], more);
        Glue([], [key], [], KeysMet(rest, r, raws));
      } else {
        Glue(Front(b), [Physical(b.str)], AllPhysical(b.strMore), more);
        Glue([], [], [], KeysMet(rest, r, raws));
      }
    }
  }

  lemma Glue(a: seq<string>, b: seq<string>, c: seq<string>, d: seq<string>)
    ensures a + (b + (c + d)) == a + ((b + c) + d)
    ensures c == [] ==> a + (b + (c + d)) == a + (b + d)
    ensures a == [] && c == [] ==> a + (b + (c + d)) == b + d
  {
    assert b + (c + d) == (b + c) + d;
  }

  lemma MoreOf(b: RawBlock)
    requires GoodRaw(b)
    ensures forall l :: l in b.strMore ==> IsMore(l)
  {
  }

  /** Every file written in blocks: both patchers put each replacement on one line, with the end of the msgstr line it
      replaces, drop that line's continuations, leave every other line as it is, and report the keys in file order. */
  lemma PatchBlocks(bs: seq<RawBlock>, r: KeyReader, raws: map<string, string>)
    requires forall b :: b in bs ==> GoodRaw(b)
    ensures Patched(FileOf(bs), r, raws) == PatchedFile(bs, r, raws)
    ensures Applied(FileOf(bs), r, raws) == KeysMet(bs, r, raws)
  {
    FilePatched(bs, r, raws, State(None, false));
  }

  // -------------------------------------------------------------- the raw reader

  /** What the raw reader holds after some lines it reports nothing from. */
  lemma {:induction false} ReadOver(ls: seq<string>, rest: seq<string>, key: Option<string>, src: Option<string>)
    requires forall l :: l in ls ==> Classify(l) == Other || Classify(l) == Quoted
    ensures ReadFrom(ls + rest, key, src) == ReadFrom(rest, key, src)
    decreases |ls|
  {
    hide Classify;
    if ls == [] {
      assert ls + rest == rest;
    } else {
      assert ls[0] in ls && (ls + rest)[0] == ls[0] && (ls + rest)[1..] == ls[1..] + rest;
      ReadOver(ls[1..], rest, key, src);
    }
  }

  lemma {:induction false} AsidesOver(ls: seq<Line>)
    requires forall l :: l in ls ==> GoodLine(l) && (Aside(l.text) || IsMore(l))
    ensures forall x :: x in AllPhysical(ls) ==> Classify(x) == Other || Classify(x) == Quoted
  {
    hide Classify, GoodLine, Aside, IsMore, Physical;
    if ls != [] {
      var l := ls[0];
      assert l in ls;
      AsidesOver(ls[1..]);
      if Aside(l.text) {
        AsideIsOther(l);
      } else {
        MoreIsQuoted(l);
      }
    }
  }

  function EntriesIn(bs: seq<RawBlock>): seq<Entry> {
    if bs == [] then [] else [Entry(bs[0].key, bs[0].src, bs[0].tgt)] + EntriesIn(bs[1..])
  }

  lemma MoreGood(b: RawBlock)
    requires GoodRaw(b)
    ensures forall l :: l in b.asides + b.idMore + b.strMore ==> GoodLine(l) && (Aside(l.text) || IsMore(l))
  {
    hide Aside;
  }

  lemma UnquoteBetween(piece: string)
    ensures Unquote(ReaderBlocks.Between(piece)) == piece
  {
    hide Strip;
    BetweenTrimmed(piece);
  }

  lemma ReadStr(b: RawBlock, rest: seq<string>)
    requires GoodRaw(b)
    ensures ReadFrom([Physical(b.str)] + (AllPhysical(b.strMore) + rest), Some(b.key), Some(b.src))
         == [Entry(b.key, b.src, b.tgt)] + ReadFrom(rest, None, None)
  {
    MoreGood(b);
    hide Classify, Physical, AllPhysical, GoodLine, Aside, IsMore, ReadFrom, Unquote, ReaderBlocks.Between;
    AsidesOver(b.strMore);
    ClassifyPhysical(b.str);
    ClassifyWord("msgstr ", b.tgt);
    UnquoteBetween(b.tgt);
    ReadCons(Physical(b.str), AllPhysical(b.strMore) + rest, Some(b.key), Some(b.src));
    ReadOver(AllPhysical(b.strMore), rest, None, None);
  }

  lemma ReadId(b: RawBlock, rest: seq<string>, src: Option<string>)
    requires GoodRaw(b)
    ensures ReadFrom([Physical(b.id)] + (AllPhysical(b.idMore) + rest), Some(b.key), src)
         == ReadFrom(rest, Some(b.key), Some(b.src))
  {
    MoreGood(b);
    hide Classify, Physical, AllPhysical, GoodLine, Aside, IsMore, ReadFrom, Unquote, ReaderBlocks.Between;
    AsidesOver(b.idMore);
    ClassifyPhysical(b.id);
    ClassifyWord("msgid ", b.src);
    UnquoteBetween(b.src);
    ReadCons(Physical(b.id), AllPhysical(b.idMore) + rest, Some(b.key), src);
    ReadOver(AllPhysical(b.idMore), rest, Some(b.key), Some(b.src));
    NoneBefore(ReadFrom(AllPhysical(b.idMore) + rest, Some(b.key), Some(b.src)));
  }

  lemma ReadCtxt(b: RawBlock, rest: seq<string>, src: Option<string>)
    requires GoodRaw(b)
    ensures ReadFrom(AllPhysical(b.asides) + ([Physical(b.ctxt)] + rest), None, src) == ReadFrom(rest, Some(b.key), src)
  {
    MoreGood(b);
    hide Classify, Physical, AllPhysical, GoodLine, Aside, IsMore, ReadFrom, Unquote, ReaderBlocks.Between;
    AsidesOver(b.asides);
    ClassifyPhysical(b.ctxt);
    ClassifyWord("msgctxt ", b.key);
    UnquoteBetween(b.key);
    ReadOver(AllPhysical(b.asides), [Physical(b.ctxt)] + rest, None, src);
    ReadCons(Physical(b.ctxt), rest, None, src);
    NoneBefore(ReadFrom(rest, Some(b.key), src));
  }

  lemma NoneBefore(es: seq<Entry>)
    ensures [] + es == es
  {
  }

  lemma FrontThen(b: RawBlock, rest: seq<string>)
    ensures Front(b) + rest
         == AllPhysical(b.asides) + ([Physical(b.ctxt)] + ([Physical(b.id)] + (AllPhysical(b.idMore) + rest)))
  {
    hide Physical, AllPhysical;
    var id := [Physical(b.id)] + AllPhysical(b.idMore);
    assert id + rest == [Physical(b.id)] + (AllPhysical(b.idMore) + rest);
    assert ([Physical(b.ctxt)] + id) + rest == [Physical(b.ctxt)] + (id + rest);
  }

  lemma ReadBlock(b: RawBlock, rest: seq<string>, src: Option<string>)
    requires GoodRaw(b)
    ensures ReadFrom(Front(b) + ([Physical(b.str)] + (AllPhysical(b.strMore) + rest)), None, src)
         == [Entry(b.key, b.src, b.tgt)] + ReadFrom(rest, None, None)
  {
    hide *;
    var str := [Physical(b.str)] + (AllPhysical(b.strMore) + rest);
    FrontThen(b, str);
    ReadCtxt(b, [Physical(b.id)] + (AllPhysical(b.idMore) + str), src);
    ReadId(b, str, src);
    ReadStr(b, rest);
  }

  /** And the raw reader reports one entry a block: the bytes between the quotes of its msgctxt, msgid and msgstr lines.
      */
  lemma {:induction false} ReadBlocks(bs: seq<RawBlock>, src: Option<string>)
    requires forall b :: b in bs ==> GoodRaw(b)
    ensures ReadFrom(FileOf(bs), None, src) == EntriesIn(bs)
    decreases |bs|
  {
    hide ReadFrom, Front, Physical, AllPhysical, GoodRaw;
    if bs == [] {
      NothingHere(src);
    } else {
      assert bs[0] in bs && forall x :: x in bs[1..] ==> x in bs;
      ReadBlock(bs[0], FileOf(bs[1..]), src);
      ReadBlocks(bs[1..], None);
    }
  }

  lemma NothingHere(src: Option<string>)
    ensures ReadFrom([], None, src) == []
  {
  }
}
