/** The decoded reader of .po files, and what it finds in a delivered one (exports.py `read_po_entries`, `_unescape`;
    po_patch.py `patch_po_lines`). */
module PoReader {
  import opened Text
  import opened Wrappers
  import opened PoEscape
  import opened RawStream
  import Delivery

  // ------------------------------------------------------------------ reader

  datatype Mode = NoMode | CtxtMode | IdMode | StrMode

  /** What the reader holds between two lines. The last three say more than the program keeps: whether the entry has a
      msgstr line, whether another line has interrupted it, and the msgstr text that came after the interruption. */
  datatype Held = Held(
    key: Option<string>, id: string, str: string, mode: Mode, location: string, nextLocation: string,
    seen: bool, gap: bool, late: string)

  const START := Held(None, [], [], NoMode, [], [], false, false, [])

  /** What a flush hands over, still escaped. */
  datatype Segment = Segment(key: Option<string>, id: string, str: string, location: string, seen: bool, late: string)

  datatype PoText = PoText(key: string, source: string, target: string, location: string)

  const REFERENCE := "#:"

  function SegmentOf(h: Held): Segment {
    Segment(h.key, h.id, h.str, h.location, h.seen, h.late)
  }

  function Unquoted(field: string): string {
    StripQuotes(Strip(field))
  }

  /** A line that starts no entry. */
  function Feed(h: Held, line: string): Held {
    match Classify(line)
    case Ctxt(_) => h
    case Id(f) =>
      var g := h.(id := Unquoted(f), mode := IdMode);
      if h.key.None? then g.(location := h.nextLocation, nextLocation := []) else g
    case Str(f) => h.(str := Unquoted(f), mode := StrMode, seen := true, gap := false, late := [])
    case Quoted =>
      if h.mode.IdMode? then h.(id := h.id + Unquoted(line))
      else if h.mode.StrMode? then
        h.(str := h.str + Unquoted(line), late := if h.gap then h.late + Unquoted(line) else h.late)
      else h
    case Other =>
      if REFERENCE <= Strip(line) then h.(nextLocation := Strip(Strip(line)[2..]), gap := true) else h.(gap := true)
  }

  /** A msgctxt line: everything is reset but the location that is waiting. */
  function Open(h: Held, key: string): Held {
    Held(Some(key), [], [], CtxtMode, h.nextLocation, [], false, false, [])
  }

  function SegmentsFrom(lines: seq<string>, h: Held): seq<Segment> {
    if lines == [] then [SegmentOf(h)]
    else if Classify(lines[0]).Ctxt? then
      [SegmentOf(h)] + SegmentsFrom(lines[1..], Open(h, KeyOf(DecodedKey, Classify(lines[0]).field)))
    else SegmentsFrom(lines[1..], Feed(h, lines[0]))
  }

  /** Segments without a source text are no entries: the header, and what comes before the first msgctxt. */
  function Entries(segs: seq<Segment>): seq<Segment> {
    if segs == [] then []
    else Entries(segs[..|segs| - 1]) + if UnescapeChain(segs[|segs| - 1].id) == "" then [] else [segs[|segs| - 1]]
  }

  /** Entry i as it is reported; without a key, or with an empty one, it is numbered. */
  function AsText(s: Segment, i: nat): PoText {
    PoText(if s.key.Some? && s.key.value != "" then s.key.value else "po:" + Decimal(i),
           UnescapeChain(s.id), UnescapeChain(s.str), s.location)
  }

  function Numbered(segs: seq<Segment>): (ps: seq<PoText>)
    ensures |ps| == |segs| && forall i :: 0 <= i < |ps| ==> ps[i] == AsText(segs[i], i)
  {
    seq(|segs|, i requires 0 <= i < |segs| => AsText(segs[i], i))
  }

  function ReadEntries(lines: seq<string>): seq<Segment> {
    Entries(SegmentsFrom(lines, START))
  }

  /** `flush`. */
  method FlushEntry(entries: seq<PoText>, held: Held, ghost done: seq<Segment>) returns (more: seq<PoText>)
    requires entries == Numbered(Entries(done))
    ensures more == Numbered(Entries(done + [SegmentOf(held)]))
  {
    hide UnescapeChain, Decimal;
    assert (done + [SegmentOf(held)])[..|done|] == done;
    more := entries;
    if UnescapeChain(held.id) != "" {
      more := more + [AsText(SegmentOf(held), |entries|)];
    }
  }

  /** `read_po_entries` over the lines of a file. */
  method ReadPoEntries(lines: seq<string>) returns (entries: seq<PoText>)
    ensures entries == Numbered(ReadEntries(lines))
  {
    hide Classify, Feed, Open, KeyOf, Numbered, Entries;
    var held := START;
    entries := [];
    ghost var done: seq<Segment> := [];
    NothingRead();
    assert lines[0..] == lines && [] + SegmentsFrom(lines, START) == SegmentsFrom(lines, START);
    for i := 0 to |lines|
      invariant entries == Numbered(Entries(done))
      invariant done + SegmentsFrom(lines[i..], held) == SegmentsFrom(lines, START)
    {
      var line := lines[i];
      assert lines[i..][0] == line && lines[i..][1..] == lines[i + 1..];
      if Classify(line).Ctxt? {
        entries := FlushEntry(entries, held, done);
        done := done + [SegmentOf(held)];
        held := Open(held, KeyOf(DecodedKey, Classify(line).field));
      } else {
        held := Feed(held, line);
      }
    }
    assert lines[|lines|..] == [];
    entries := FlushEntry(entries, held, done);
  }

  lemma NothingRead()
    ensures Numbered(Entries([])) == []
  {
  }

  // ------------------------------------------------ a delivered file read back

  function Body(raw: string): string {
    StripQuotes([QUOTE] + raw + [QUOTE])
  }

  predicate Replaced(key: Option<string>, seen: bool, raws: map<string, string>) {
    key.Some? && key.value in raws && seen
  }

  /** The segment with its msgstr replaced; text that came behind an interruption stays. */
  function Rewrite(s: Segment, raws: map<string, string>): Segment {
    if Replaced(s.key, s.seen, raws) then s.(str := Body(raws[s.key.value]) + s.late) else s
  }

  function RewriteHeld(h: Held, raws: map<string, string>): Held {
    if Replaced(h.key, h.seen, raws) then h.(str := Body(raws[h.key.value]) + h.late) else h
  }

  function RewriteAll(segs: seq<Segment>, raws: map<string, string>): (r: seq<Segment>)
    ensures |r| == |segs| && forall i :: 0 <= i < |r| ==> r[i] == Rewrite(segs[i], raws)
  {
    seq(|segs|, i requires 0 <= i < |segs| => Rewrite(segs[i], raws))
  }

  /** Where patcher and reader stand at the same line: the patcher skips exactly while the reader extends a msgstr that
      is replaced and has not been interrupted. */
  ghost predicate InStep(st: State, h: Held, raws: map<string, string>) {
    && st.key == h.key && (h.mode.StrMode? ==> h.seen)
    && (st.skipping <==> Replaced(h.key, h.seen, raws) && h.mode.StrMode? && !h.gap)
  }

  lemma FieldOfPatched(raw: string, line: string)
    ensures Classify(MsgstrLine(raw, line)).Str?
    ensures Strip(Classify(MsgstrLine(raw, line)).field) == [QUOTE] + raw + [QUOTE]
  {
    hide Strip, MsgstrLine, IsTrimmed;
    var q := [QUOTE] + raw + [QUOTE];
    var s := STR + q;
    StripPatched(raw, line);
    assert s[|STR|..] == q;
    assert s[3] == 's' && CTXT[3] == 'c' && ID[3] == 'i';
    QuotedIsTrim(raw);
    StripTrimmed(q);
  }

  lemma QuotedIsTrim(raw: string)
    ensures IsTrimmed([QUOTE] + raw + [QUOTE])
  {
  }

  lemma StripBoth(raw: string)
    requires raw == [] || raw[0] != QUOTE
    ensures StripQuotes([QUOTE] + raw + [QUOTE]) == StripQuotes(raw)
  {
    var q := [QUOTE] + raw + [QUOTE];
    assert q[1..] == raw + [QUOTE];
    assert (raw + [QUOTE])[..|raw|] == raw;
    if raw == [] {
      assert (raw + [QUOTE])[1..] == raw;
    }
  }

  lemma EncodeEnds(n: string)
    ensures Encode(n) == [] <==> n == []
    ensures n != [] ==> Encode(n)[0] != QUOTE
    ensures n != [] && n[|n| - 1] != QUOTE ==> Encode(n)[|Encode(n)| - 1] != QUOTE
    ensures n != [] && n[|n| - 1] == QUOTE ==> Encode(n) == Encode(n[..|n| - 1]) + [BS, QUOTE]
  {
    if n != [] {
      var u, c := n[..|n| - 1], n[|n| - 1];
      assert n == u + [c];
      EncodeConcat(u, [c]);
      assert [c][1..] == [];
      assert Encode([c]) == EncodeChar(c) + Encode([]);
      assert EncodeChar(c) + [] == EncodeChar(c);
    }
  }

  lemma {:induction false} LastBackslash(s: string, c: char, rep: string)
    requires s != [] && s[|s| - 1] == BS && (c == BS ==> rep != [] && rep[|rep| - 1] == BS)
    ensures var r := ReplacePair(s, BS, c, rep); r != [] && r[|r| - 1] == BS
  {
    if |s| >= 2 && s[0] == BS && s[1] == c {
      if |s| > 2 {
        LastBackslash(s[2..], c, rep);
      }
    } else if |s| >= 2 {
      LastBackslash(s[1..], c, rep);
    }
  }

  /** A trailing lone backslash survives the chained decoder. */
  lemma ChainEndsInBackslash(s: string)
    requires s != [] && s[|s| - 1] == BS
    ensures UnescapeChain(s) != [] && UnescapeChain(s)[|UnescapeChain(s)| - 1] == BS
  {
    hide ReplacePair;
    var cr := ReplacePair(s, BS, 'r', [CR]);
    LastBackslash(s, 'r', [CR]);
    LastBackslash(cr, 'n', [LF]);
    var lf := ReplacePair(cr, BS, 'n', [LF]);
    LastBackslash(lf, 't', [TAB]);
    LastBackslash(ReplacePair(lf, BS, 't', [TAB]), QUOTE, [QUOTE]);
    LastBackslash(ReplacePair(ReplacePair(lf, BS, 't', [TAB]), BS, QUOTE, [QUOTE]), BS, [BS]);
  }

  lemma PatchedStr(h: Held, line: string, raws: map<string, string>)
    requires Classify(line).Str? && h.key.Some? && h.key.value in raws
    ensures var out := MsgstrLine(raws[h.key.value], line);
      Classify(out).Str? && Feed(RewriteHeld(h, raws), out) == RewriteHeld(Feed(h, line), raws)
  {
    hide Classify, MsgstrLine, Strip, StripQuotes;
    var out := MsgstrLine(raws[h.key.value], line);
    FieldOfPatched(raws[h.key.value], line);
    assert Body(raws[h.key.value]) + [] == Body(raws[h.key.value]);
  }

  /** A line the patcher forwards is read alike in both files. */
  lemma ForwardedLine(h: Held, line: string, raws: map<string, string>, st: State)
    requires InStep(st, h, raws) && !Classify(line).Ctxt?
    requires !(st.skipping && Classify(line).Quoted?)
    requires Classify(line).Str? ==> !(h.key.Some? && h.key.value in raws)
    ensures Feed(RewriteHeld(h, raws), line) == RewriteHeld(Feed(h, line), raws)
  {
    hide Classify, Strip, StripQuotes;
    if Classify(line).Quoted? && h.mode.StrMode? && Replaced(h.key, h.seen, raws) {
      assert Body(raws[h.key.value]) + h.late + Unquoted(line) == Body(raws[h.key.value]) + (h.late + Unquoted(line));
    }
  }

  /** A line the patcher drops changes nothing that is kept. */
  lemma DroppedLine(h: Held, line: string, raws: map<string, string>, st: State)
    requires InStep(st, h, raws) && st.skipping && Classify(line).Quoted?
    ensures RewriteHeld(Feed(h, line), raws) == RewriteHeld(h, raws)
  {
    hide Classify, Strip, StripQuotes;
  }

  lemma StaysInStep(st: State, h: Held, line: string, raws: map<string, string>)
    requires InStep(st, h, raws)
    ensures var next := PatchStep(line, DecodedKey, raws, st).next;
      if Classify(line).Ctxt? then InStep(next, Open(h, KeyOf(DecodedKey, Classify(line).field)), raws)
      else InStep(next, Feed(h, line), raws)
  {
    hide Classify, Strip, StripQuotes, KeyOf, MsgstrLine;
  }

  lemma SegmentsCons(line: string, rest: seq<string>, h: Held)
    ensures SegmentsFrom([line] + rest, h)
         == if Classify(line).Ctxt? then
              [SegmentOf(h)] + SegmentsFrom(rest, Open(h, KeyOf(DecodedKey, Classify(line).field)))
            else SegmentsFrom(rest, Feed(h, line))
  {
    assert ([line] + rest)[1..] == rest;
  }

  lemma RewriteCons(s: Segment, segs: seq<Segment>, raws: map<string, string>)
    ensures RewriteAll([s] + segs, raws) == [Rewrite(s, raws)] + RewriteAll(segs, raws)
  {
  }

  lemma OpenRewritten(h: Held, key: string, raws: map<string, string>)
    ensures Open(RewriteHeld(h, raws), key) == RewriteHeld(Open(h, key), raws)
    ensures SegmentOf(RewriteHeld(h, raws)) == Rewrite(SegmentOf(h), raws)
  {
  }

  lemma PatchCons(line: string, rest: seq<string>, raws: map<string, string>, st: State)
    ensures PatchFrom([line] + rest, DecodedKey, raws, st).0
         == var s := PatchStep(line, DecodedKey, raws, st); s.out + PatchFrom(rest, DecodedKey, raws, s.next).0
  {
    hide PatchStep;
    assert ([line] + rest)[1..] == rest;
  }

  lemma StepOut(line: string, raws: map<string, string>, st: State)
    ensures var out := PatchStep(line, DecodedKey, raws, st).out;
      out == if st.skipping && Classify(line).Quoted? then []
             else if Classify(line).Str? && st.key.Some? && st.key.value in raws then
               [MsgstrLine(raws[st.key.value], line)]
             else [line]
  {
    hide Classify, MsgstrLine, KeyOf;
  }

  lemma {:induction false} PatchedSegmentsFrom(lines: seq<string>, raws: map<string, string>, st: State, h: Held)
    requires InStep(st, h, raws)
    ensures SegmentsFrom(PatchFrom(lines, DecodedKey, raws, st).0, RewriteHeld(h, raws))
         == RewriteAll(SegmentsFrom(lines, h), raws)
  {
    hide *;
    if lines == [] {
      NoLines(raws, st, h);
    } else {
      var line, rest := lines[0], lines[1..];
      var next := PatchStep(line, DecodedKey, raws, st).next;
      var rest' := PatchFrom(rest, DecodedKey, raws, next).0;
      assert lines == [line] + rest;
      PatchCons(line, rest, raws, st);
      StepOut(line, raws, st);
      SegmentsCons(line, rest, h);
      StaysInStep(st, h, line, raws);
      KeysAgree(st, h, raws);
      if Classify(line).Ctxt? {
        var key := KeyOf(DecodedKey, Classify(line).field);
        PatchedSegmentsFrom(rest, raws, next, Open(h, key));
        OpenRewritten(h, key, raws);
        SegmentsCons(line, rest', RewriteHeld(h, raws));
        RewriteCons(SegmentOf(h), SegmentsFrom(rest, Open(h, key)), raws);
      } else {
        PatchedSegmentsFrom(rest, raws, next, Feed(h, line));
        if st.skipping && Classify(line).Quoted? {
          DroppedLine(h, line, raws, st);
          assert [] + rest' == rest';
        } else if Classify(line).Str? && st.key.Some? && st.key.value in raws {
          PatchedStr(h, line, raws);
          SegmentsCons(MsgstrLine(raws[st.key.value], line), rest', RewriteHeld(h, raws));
        } else {
          ForwardedLine(h, line, raws, st);
          SegmentsCons(line, rest', RewriteHeld(h, raws));
        }
      }
    }
  }

  lemma KeysAgree(st: State, h: Held, raws: map<string, string>)
    requires InStep(st, h, raws)
    ensures st.key == h.key
  {
  }

  lemma NoLines(raws: map<string, string>, st: State, h: Held)
    ensures SegmentsFrom(PatchFrom([], DecodedKey, raws, st).0, RewriteHeld(h, raws))
        == RewriteAll(SegmentsFrom([], h), raws)
  {
    OpenRewritten(h, [], raws);
  }

  lemma {:induction false} EntriesRewritten(segs: seq<Segment>, raws: map<string, string>)
    ensures Entries(RewriteAll(segs, raws)) == RewriteAll(Entries(segs), raws)
  {
    hide UnescapeChain;
    if segs != [] {
      var t, s := segs[..|segs| - 1], segs[|segs| - 1];
      EntriesRewritten(t, raws);
      assert RewriteAll(segs, raws)[..|segs| - 1] == RewriteAll(t, raws);
    }
  }

  /** The decoded reader on a patched file, for every file and every set of replacements: the same entries, in order,
      with the msgstr of the replaced keys replaced; what stood behind an interruption of that msgstr is still read. */
  lemma ReadPatchedDecoded(lines: seq<string>, raws: map<string, string>)
    ensures ReadEntries(Patched(lines, DecodedKey, raws)) == RewriteAll(ReadEntries(lines), raws)
  {
    hide PatchFrom, SegmentsFrom, Entries, RewriteAll;
    PatchedSegmentsFrom(lines, raws, State(None, false), START);
    EntriesRewritten(SegmentsFrom(lines, START), raws);
  }

  // --------------------------------------------------- when the text comes back

  predicate NoFinalQuote(s: string) {
    s == [] || s[|s| - 1] != QUOTE
  }

  lemma StripNothing(s: string)
    requires s == [] || (s[0] != QUOTE && s[|s| - 1] != QUOTE)
    ensures StripQuotes(s) == s
  {
  }

  lemma StripTail(u: string)
    requires u == [] || u[0] != QUOTE
    ensures StripQuotes(u + [BS, QUOTE]) == u + [BS]
  {
  }

  /** A text that is delivered decodes to itself, newlines in the file's style, exactly when it holds no backslash
      before n, r or t and does not end in a double quote. */
  lemma BodyExact(text: string, crlf: bool)
    ensures var n := Newlines(text, FileNewline(crlf));
      UnescapeChain(Body(EscapeLine(text, crlf))) == n <==> !HasBackslashLetter(n) && NoFinalQuote(n)
  {
    hide Newlines, EscapeLine, UnescapeChain, HasBackslashLetter, Encode, EscapeRaw, StripQuotes;
    var n := Newlines(text, FileNewline(crlf));
    var raw := EscapeLine(text, crlf);
    EscapeLineIsEncode(text, crlf);
    EscapeRawIsPerCharacter(n);
    EncodeEnds(n);
    StripBoth(raw);
    if NoFinalQuote(n) {
      StripNothing(raw);
      ChainedDecodeExact(n);
    } else {
      var u := Encode(n[..|n| - 1]);
      StripTail(u);
      ChainEndsInBackslash(u + [BS]);
    }
  }

  // ------------------------------------------- text behind an interrupted msgstr

  /** The letters of the chained decoder, in the order in which it replaces them. */
  const LETTERS: seq<char> := ['r', 'n', 't', QUOTE, BS]

  /** The replacements from the k-th on. */
  function ChainFrom(s: string, k: nat): string
    requires k <= 5
    decreases 5 - k
  {
    if k == 5 then s else ChainFrom(ReplacePair(s, BS, LETTERS[k], [DecodeLetter(LETTERS[k])]), k + 1)
  }

  lemma ChainIs(s: string)
    ensures UnescapeChain(s) == ChainFrom(s, 0)
  {
    hide ReplacePair;
    var r := ReplacePair(s, BS, 'r', [CR]);
    var n := ReplacePair(r, BS, 'n', [LF]);
    var t := ReplacePair(n, BS, 't', [TAB]);
    var q := ReplacePair(t, BS, QUOTE, [QUOTE]);
    assert ChainFrom(s, 0) == ChainFrom(r, 1) == ChainFrom(n, 2) == ChainFrom(t, 3) == ChainFrom(q, 4);
    assert ChainFrom(q, 4) == ChainFrom(ReplacePair(q, BS, BS, [BS]), 5);
  }

  lemma {:induction false} ChainPlain(c: char, rest: string, k: nat)
    requires k <= 5 && c != BS
    ensures ChainFrom([c] + rest, k) == [c] + ChainFrom(rest, k)
    decreases 5 - k
  {
    hide ReplacePair;
    if k < 5 {
      ReplacePairSkip(c, rest, BS, LETTERS[k], [DecodeLetter(LETTERS[k])]);
      ChainPlain(c, ReplacePair(rest, BS, LETTERS[k], [DecodeLetter(LETTERS[k])]), k + 1);
    }
  }

  /** A backslash in front of a character that is no letter from here on. */
  lemma {:induction false} ChainUnpaired(c: char, rest: string, k: nat)
    requires k <= 5 && c != BS && c !in LETTERS[k..]
    ensures ChainFrom([BS, c] + rest, k) == [BS, c] + ChainFrom(rest, k)
    decreases 5 - k
  {
    hide ReplacePair;
    if k < 5 {
      assert LETTERS[k] in LETTERS[k..] && LETTERS[k + 1..] == LETTERS[k..][1..];
      SkipTwo(BS, c, rest, LETTERS[k], [DecodeLetter(LETTERS[k])]);
      ChainUnpaired(c, ReplacePair(rest, BS, LETTERS[k], [DecodeLetter(LETTERS[k])]), k + 1);
    }
  }

  lemma {:induction false} ChainPair(c: char, rest: string, k: nat)
    requires k <= 5 && c != BS && c in LETTERS[k..]
    ensures ChainFrom([BS, c] + rest, k) == [DecodeLetter(c)] + ChainFrom(rest, k)
    decreases 5 - k
  {
    hide ReplacePair;
    var rest' := ReplacePair(rest, BS, LETTERS[k], [DecodeLetter(LETTERS[k])]);
    if LETTERS[k] == c {
      ReplacePairHit(rest, BS, c, [DecodeLetter(c)]);
      ChainPlain(DecodeLetter(c), rest', k + 1);
    } else {
      assert LETTERS[k..] == [LETTERS[k]] + LETTERS[k + 1..];
      SkipTwo(BS, c, rest, LETTERS[k], [DecodeLetter(LETTERS[k])]);
      ChainPair(c, rest', k + 1);
    }
  }

  /** An escaped backslash counts for one character, whatever is behind it. */
  lemma {:induction false} ChainBackslash(rest: string, k: nat)
    requires k <= 4
    ensures |ChainFrom([BS, BS] + rest, k)| == 1 + |ChainFrom(rest, k)|
    decreases 5 - k
  {
    hide ReplacePair;
    var y := LETTERS[k];
    var rep := [DecodeLetter(y)];
    if k == 4 {
      ReplacePairHit(rest, BS, BS, rep);
    } else if rest != [] && rest[0] == y {
      var tail := rest[1..];
      assert rest == [y] + tail && [BS, BS] + rest == [BS] + ([BS, y] + tail);
      ReplacePairSkip(BS, [BS, y] + tail, BS, y, rep);
      ReplacePairHit(tail, BS, y, rep);
      ReplacePairSkip(y, tail, BS, y, rep);
      var tail' := ReplacePair(tail, BS, y, rep);
      assert [BS] + (rep + tail') == [BS, DecodeLetter(y)] + tail';
      ChainUnpaired(DecodeLetter(y), tail', k + 1);
      ChainPlain(y, tail', k + 1);
    } else {
      assert [BS, BS] + rest == [BS] + ([BS] + rest);
      ReplacePairSkip(BS, [BS] + rest, BS, y, rep);
      ReplacePairSkip(BS, rest, BS, y, rep);
      var rest' := ReplacePair(rest, BS, y, rep);
      assert [BS] + ([BS] + rest') == [BS, BS] + rest';
      ChainBackslash(rest', k + 1);
    }
  }

  lemma ChainHead(c: char, rest: string)
    ensures |ChainFrom(EncodeChar(c) + rest, 0)| == 1 + |ChainFrom(rest, 0)|
  {
    hide ChainFrom;
    if c == BS {
      ChainBackslash(rest, 0);
    } else if |EncodeChar(c)| == 1 {
      ChainPlain(c, rest, 0);
    } else {
      ChainPair(EncodeChar(c)[1], rest, 0);
    }
  }

  /** Whatever follows an escaped text, the decoder makes as many characters of the text as it has. */
  lemma {:induction false} ChainLength(n: string, late: string)
    ensures |UnescapeChain(Encode(n) + late)| == |n| + |UnescapeChain(late)|
  {
    hide UnescapeChain, EncodeChar, ChainFrom;
    if n == [] {
      assert Encode(n) + late == late;
    } else {
      assert Encode(n) + late == EncodeChar(n[0]) + (Encode(n[1..]) + late);
      ChainLength(n[1..], late);
      ChainHead(n[0], Encode(n[1..]) + late);
      ChainIs(Encode(n) + late);
      ChainIs(Encode(n[1..]) + late);
    }
  }

  /** The decoder makes a final double quote only of one. */
  lemma {:induction false} ReplaceEnds(s: string, c: char)
    requires s != [] && s[|s| - 1] != QUOTE
    ensures var r := ReplacePair(s, BS, c, [DecodeLetter(c)]); r != [] && r[|r| - 1] != QUOTE
  {
    if |s| >= 2 && s[0] == BS && s[1] == c {
      if |s| > 2 {
        ReplaceEnds(s[2..], c);
      }
    } else if |s| >= 2 {
      ReplaceEnds(s[1..], c);
    }
  }

  lemma {:induction false} ChainEnds(s: string, k: nat)
    requires k <= 5 && s != [] && s[|s| - 1] != QUOTE
    ensures var r := ChainFrom(s, k); r != [] && r[|r| - 1] != QUOTE
    decreases 5 - k
  {
    hide ReplacePair;
    if k < 5 {
      ReplaceEnds(s, LETTERS[k]);
      ChainEnds(ReplacePair(s, BS, LETTERS[k], [DecodeLetter(LETTERS[k])]), k + 1);
    }
  }

  /** A text with something behind it never reads as the text alone. */
  lemma LateShows(text: string, crlf: bool, late: string)
    requires late != [] && NoFinalQuote(late)
    ensures UnescapeChain(Body(EscapeLine(text, crlf)) + late) != Newlines(text, FileNewline(crlf))
  {
    hide Newlines, EscapeLine, UnescapeChain, Encode, EscapeRaw, StripQuotes, ChainFrom;
    var n := Newlines(text, FileNewline(crlf));
    var raw := EscapeLine(text, crlf);
    EscapeLineIsEncode(text, crlf);
    EscapeRawIsPerCharacter(n);
    EncodeEnds(n);
    StripBoth(raw);
    if NoFinalQuote(n) {
      StripNothing(raw);
      ChainLength(n, late);
      ChainIs(late);
      ChainEnds(late, 0);
    } else {
      var whole := Body(raw) + late;
      assert whole[|whole| - 1] == late[|late| - 1];
      ChainIs(whole);
      ChainEnds(whole, 0);
    }
  }

  lemma {:induction false} StrippedEnds(s: string)
    ensures NoFinalQuote(StripQuotes(s))
    decreases |s|
  {
    if s != [] && s[0] == QUOTE {
      StrippedEnds(s[1..]);
    } else if s != [] && s[|s| - 1] == QUOTE {
      StrippedEnds(s[..|s| - 1]);
    }
  }

  lemma LateFed(h: Held, line: string)
    requires NoFinalQuote(h.late)
    ensures NoFinalQuote(Feed(h, line).late)
  {
    hide Classify, Strip, StripQuotes;
    StrippedEnds(Strip(line));
  }

  lemma {:induction false} LateSegments(lines: seq<string>, h: Held, s: Segment)
    requires NoFinalQuote(h.late) && s in SegmentsFrom(lines, h)
    ensures NoFinalQuote(s.late)
  {
    hide Classify, Feed, KeyOf;
    if lines == [] {
    } else if Classify(lines[0]).Ctxt? {
      var g := Open(h, KeyOf(DecodedKey, Classify(lines[0]).field));
      if s in SegmentsFrom(lines[1..], g) {
        LateSegments(lines[1..], g, s);
      }
    } else {
      LateFed(h, lines[0]);
      LateSegments(lines[1..], Feed(h, lines[0]), s);
    }
  }

  lemma {:induction false} EntriesAmong(segs: seq<Segment>, s: Segment)
    requires s in Entries(segs)
    ensures s in segs
  {
    hide UnescapeChain;
    if s !in segs {
      EntriesAmong(segs[..|segs| - 1], s);
    }
  }

  lemma LateOf(lines: seq<string>, i: nat)
    requires i < |ReadEntries(lines)|
    ensures NoFinalQuote(ReadEntries(lines)[i].late)
  {
    hide SegmentsFrom, Entries;
    var s := ReadEntries(lines)[i];
    EntriesAmong(SegmentsFrom(lines, START), s);
    LateSegments(lines, START, s);
  }

  /** A delivered file read back: key, source and location of every entry are as before, and so is the target of an
      entry nothing was decided for. A decided entry reads as the decision, newlines in the file's style, exactly when
      its msgstr was not interrupted before more of it came, and that text holds no backslash before n, r or t and does
      not end in a double quote. */
  lemma ReadBackExact(lines: seq<string>, desired: map<string, string>, fileKeys: set<string>, crlf: bool, i: nat)
    requires i < |ReadEntries(lines)|
    ensures var raws := Delivery.Wanted(desired, fileKeys, crlf);
      var before, after := Numbered(ReadEntries(lines)), Numbered(ReadEntries(Patched(lines, DecodedKey, raws)));
      var s := ReadEntries(lines)[i];
      && |after| == |before|
      && after[i].key == before[i].key && after[i].source == before[i].source && after[i].location == before[i].location
      && (!Replaced(s.key, s.seen, raws) ==> after[i].target == before[i].target)
      && (Replaced(s.key, s.seen, raws) ==>
            var n := Newlines(desired[s.key.value], FileNewline(crlf));
            (after[i].target == n <==> s.late == [] && !HasBackslashLetter(n) && NoFinalQuote(n)))
  {
    hide ReadEntries, Patched, UnescapeChain, Newlines, EscapeLine, HasBackslashLetter, Decimal, Body;
    var raws := Delivery.Wanted(desired, fileKeys, crlf);
    var s := ReadEntries(lines)[i];
    ReadPatchedDecoded(lines, raws);
    if Replaced(s.key, s.seen, raws) {
      BodyExact(desired[s.key.value], crlf);
      assert Body(raws[s.key.value]) + [] == Body(raws[s.key.value]);
      LateOf(lines, i);
      if s.late != [] {
        LateShows(desired[s.key.value], crlf, s.late);
      }
    }
  }
}
