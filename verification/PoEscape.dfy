/** The two escape decoders of the PO tooling and the one encoder they answer to
    (po_patch.py `po_escape_raw`, `po_unescape_raw`, `_po_escape`, `_po_unescape`; exports.py `_unescape`). */
module PoEscape {
  import opened Text

  // ---------------------------------------------------------------- encoders

  /** `po_escape_raw`, written as the source writes it: five replacements in a row. */
  function EscapeRaw(text: string): string {
    var slashes := ReplaceChar(text, BS, [BS, BS]);
    var quotes := ReplaceChar(slashes, QUOTE, [BS, QUOTE]);
    ReplaceChar(ReplaceChar(ReplaceChar(quotes, CR, [BS, 'r']), LF, [BS, 'n']), TAB, [BS, 't'])
  }

  /** The escape one character becomes; the reference the replacement chain is measured against. */
  function EncodeChar(c: char): string {
    if c == BS then [BS, BS] else if c == QUOTE then [BS, QUOTE] else if c == CR then [BS, 'r']
    else if c == LF then [BS, 'n'] else if c == TAB then [BS, 't'] else [c]
  }

  function Encode(text: string): string {
    if text == [] then [] else EncodeChar(text[0]) + Encode(text[1..])
  }

  lemma EscapeRawConcat(a: string, b: string)
    ensures EscapeRaw(a + b) == EscapeRaw(a) + EscapeRaw(b)
  {
    ReplaceCharConcat(a, b, BS, [BS, BS]);
    var a1, b1 := ReplaceChar(a, BS, [BS, BS]), ReplaceChar(b, BS, [BS, BS]);
    ReplaceCharConcat(a1, b1, QUOTE, [BS, QUOTE]);
    var a2, b2 := ReplaceChar(a1, QUOTE, [BS, QUOTE]), ReplaceChar(b1, QUOTE, [BS, QUOTE]);
    ReplaceCharConcat(a2, b2, CR, [BS, 'r']);
    var a3, b3 := ReplaceChar(a2, CR, [BS, 'r']), ReplaceChar(b2, CR, [BS, 'r']);
    ReplaceCharConcat(a3, b3, LF, [BS, 'n']);
    ReplaceCharConcat(ReplaceChar(a3, LF, [BS, 'n']), ReplaceChar(b3, LF, [BS, 'n']), TAB, [BS, 't']);
  }

  lemma ReplaceOne(c: char, d: char, rep: string)
    ensures ReplaceChar([c], d, rep) == if c == d then rep else [c]
  {
  }

  lemma ReplaceTwo(b: char, c: char, d: char, rep: string)
    requires b != d && c != d
    ensures ReplaceChar([b, c], d, rep) == [b, c]
  {
    assert [b, c][1..] == [c];
    ReplaceOne(c, d, rep);
  }

  lemma EscapeRawChar(c: char)
    ensures EscapeRaw([c]) == EncodeChar(c)
  {
    ReplaceOne(c, BS, [BS, BS]);
    if c == BS {
      ReplaceTwo(BS, BS, QUOTE, [BS, QUOTE]);
      ReplaceTwo(BS, BS, CR, [BS, 'r']);
      ReplaceTwo(BS, BS, LF, [BS, 'n']);
      ReplaceTwo(BS, BS, TAB, [BS, 't']);
    } else {
      ReplaceOne(c, QUOTE, [BS, QUOTE]);
      ReplaceTwo(BS, QUOTE, CR, [BS, 'r']);
      ReplaceTwo(BS, QUOTE, LF, [BS, 'n']);
      ReplaceTwo(BS, QUOTE, TAB, [BS, 't']);
      ReplaceOne(c, CR, [BS, 'r']);
      ReplaceTwo(BS, 'r', LF, [BS, 'n']);
      ReplaceTwo(BS, 'r', TAB, [BS, 't']);
      ReplaceOne(c, LF, [BS, 'n']);
      ReplaceTwo(BS, 'n', TAB, [BS, 't']);
      ReplaceOne(c, TAB, [BS, 't']);
    }
  }

  /** No replacement of the chain re-reads the output of an earlier one. */
  lemma {:induction false} EscapeRawIsPerCharacter(text: string)
    ensures EscapeRaw(text) == Encode(text)
  {
    if text != [] {
      assert text == [text[0]] + text[1..];
      EscapeRawConcat([text[0]], text[1..]);
      EscapeRawChar(text[0]);
      EscapeRawIsPerCharacter(text[1..]);
    }
  }

  lemma {:induction false} EncodeConcat(a: string, b: string)
    ensures Encode(a + b) == Encode(a) + Encode(b)
  {
    if a == [] {
      assert a + b == b;
    } else {
      assert (a + b)[1..] == a[1..] + b;
      EncodeConcat(a[1..], b);
    }
  }

  // ------------------------------------------------------- one-level decoder

  function DecodeLetter(c: char): char {
    if c == 'n' then LF else if c == 'r' then CR else if c == 't' then TAB else c
  }

  /** `po_unescape_raw`: each backslash pair is consumed once, left to right. The regex dot does not
      match a newline, so a backslash before a real newline (or at the end) stays. */
  function UnescapeRaw(raw: string): string {
    if raw == [] then []
    else if raw[0] == BS && |raw| >= 2 && raw[1] != LF then [DecodeLetter(raw[1])] + UnescapeRaw(raw[2..])
    else [raw[0]] + UnescapeRaw(raw[1..])
  }

  lemma DecodeHead(c: char, rest: string)
    ensures UnescapeRaw(EncodeChar(c) + rest) == [c] + UnescapeRaw(rest)
  {
    var e := EncodeChar(c);
    assert if |e| == 1 then (e + rest)[1..] == rest else (e + rest)[2..] == rest;
  }

  lemma {:induction false} DecodeEncode(text: string)
    ensures UnescapeRaw(Encode(text)) == text
  {
    if text != [] {
      DecodeHead(text[0], Encode(text[1..]));
      DecodeEncode(text[1..]);
    }
  }

  /** One-level decoding inverts the encoder on every text. */
  lemma DecodeAfterEncode(text: string)
    ensures UnescapeRaw(EscapeRaw(text)) == text
  {
    EscapeRawIsPerCharacter(text);
    DecodeEncode(text);
  }

  /** Raw text in which every backslash opens one of the five escapes the encoder emits and no quote,
      CR, LF or TAB stands bare. */
  predicate Canonical(raw: string) {
    raw == []
    || (raw[0] == BS && |raw| >= 2 && raw[1] in {BS, QUOTE, 'r', 'n', 't'} && Canonical(raw[2..]))
    || (raw[0] !in {BS, QUOTE, CR, LF, TAB} && Canonical(raw[1..]))
  }

  lemma {:induction false} EncodeIsCanonical(text: string)
    ensures Canonical(Encode(text))
    ensures forall c :: c in Encode(text) ==> c !in {CR, LF, TAB}
  {
    if text != [] {
      EncodeIsCanonical(text[1..]);
      var e := EncodeChar(text[0]);
      assert Encode(text)[|e|..] == Encode(text[1..]);
    }
  }

  lemma {:induction false} CanonicalRoundTrips(raw: string)
    requires Canonical(raw)
    ensures Encode(UnescapeRaw(raw)) == raw
  {
    if raw == [] {
    } else if raw[0] == BS {
      CanonicalRoundTrips(raw[2..]);
      assert UnescapeRaw(raw)[1..] == UnescapeRaw(raw[2..]);
      assert raw == raw[..2] + raw[2..];
    } else {
      CanonicalRoundTrips(raw[1..]);
      assert UnescapeRaw(raw)[1..] == UnescapeRaw(raw[1..]);
      assert raw == raw[..1] + raw[1..];
    }
  }

  /** An untouched entry round-trips byte-identically exactly when its bytes are canonical. */
  lemma EncodeAfterDecode(raw: string)
    ensures EscapeRaw(UnescapeRaw(raw)) == raw <==> Canonical(raw)
  {
    EscapeRawIsPerCharacter(UnescapeRaw(raw));
    EncodeIsCanonical(UnescapeRaw(raw));
    if Canonical(raw) {
      CanonicalRoundTrips(raw);
    }
  }

  // --------------------------------------------------------- chained decoder

  /** `_po_unescape` and exports.py `_unescape`: five two-character replacements in a row. */
  function UnescapeChain(text: string): string {
    var cr := ReplacePair(text, BS, 'r', [CR]);
    var lf := ReplacePair(cr, BS, 'n', [LF]);
    ReplacePair(ReplacePair(ReplacePair(lf, BS, 't', [TAB]), BS, QUOTE, [QUOTE]), BS, BS, [BS])
  }

  predicate Letter(c: char) {
    c == 'r' || c == 'n' || c == 't'
  }

  /** The text with every n, r, t that directly follows a backslash turned into the control character. */
  function Misread(t: string): (m: string)
    ensures |m| == |t|
  {
    seq(|t|, i requires 0 <= i < |t| => if i > 0 && t[i - 1] == BS && Letter(t[i]) then DecodeLetter(t[i]) else t[i])
  }

  predicate HasBackslashLetter(t: string) {
    exists i :: 0 < i < |t| && t[i - 1] == BS && Letter(t[i])
  }

  /** Encoded text after the escapes named in `done` have been replaced. A backslash of the text is two
      backslashes here; when the next text character is a decoded letter, the second one has been eaten. */
  function Stage(t: string, done: set<char>): string {
    if t == [] then []
    else if Eaten(t, done) then [BS, DecodeLetter(t[1])] + Stage(t[2..], done)
    else Head(t[0], done) + Stage(t[1..], done)
  }

  lemma StageEmpty(done: set<char>)
    ensures Stage([], done) == []
  {
  }

  lemma {:induction false} StageNone(t: string)
    ensures Stage(t, {}) == Encode(t)
  {
    if t != [] {
      StageNone(t[1..]);
    }
  }

  lemma SkipTwo(p: char, q: char, rest: string, x: char, rep: string)
    requires !(p == BS && q == x) && !(q == BS && rest != [] && rest[0] == x)
    ensures ReplacePair([p, q] + rest, BS, x, rep) == [p, q] + ReplacePair(rest, BS, x, rep)
  {
  }

  /** A backslash of the text followed by a letter this stage decodes. */
  predicate Eaten(t: string, done: set<char>) {
    |t| >= 2 && t[0] == BS && Letter(t[1]) && t[1] in done
  }

  lemma StageEaten(t: string, done: set<char>)
    requires Eaten(t, done)
    ensures Stage(t, done) == [BS, DecodeLetter(t[1])] + Stage(t[2..], done)
  {
  }

  lemma StagePlain(t: string, done: set<char>)
    requires t != [] && !Eaten(t, done)
    ensures Stage(t, done) == Head(t[0], done) + Stage(t[1..], done)
  {
  }

  function Head(c: char, done: set<char>): string {
    var e := EncodeChar(c);
    if |e| == 2 && c != BS && e[1] in done then [c] else e
  }

  lemma HeadStep(c: char, rest: string, done: set<char>, x: char)
    requires x in {'r', 'n', 't', QUOTE} && x !in done && done <= {'r', 'n', 't'}
    requires rest == [] || rest[0] != x || c != BS
    requires rest == [] || rest[0] != QUOTE
    ensures ReplacePair(Head(c, done) + rest, BS, x, [DecodeLetter(x)])
         == Head(c, done + {x}) + ReplacePair(rest, BS, x, [DecodeLetter(x)])
  {
    hide ReplacePair;
    var rep := [DecodeLetter(x)];
    var e := Head(c, done);
    if |e| == 1 {
      ReplacePairSkip(c, rest, BS, x, rep);
    } else if e[1] == x {
      ReplacePairHit(rest, BS, x, rep);
    } else {
      SkipTwo(BS, e[1], rest, x, rep);
    }
  }

  /** Replacing one more escape moves the whole text to the next stage. */
  lemma {:induction false} StageStep(t: string, done: set<char>, x: char)
    requires x in {'r', 'n', 't', QUOTE} && x !in done && done <= {'r', 'n', 't'}
    ensures ReplacePair(Stage(t, done), BS, x, [DecodeLetter(x)]) == Stage(t, done + {x})
    decreases |t|
  {
    hide Stage, ReplacePair;
    var rep := [DecodeLetter(x)];
    if t == [] {
      StageEmpty(done);
      StageEmpty(done + {x});
      ReplacePairEmpty(BS, x, rep);
    } else if Eaten(t, done) {
      StageEaten(t, done);
      StageEaten(t, done + {x});
      StageStep(t[2..], done, x);
      SkipTwo(BS, DecodeLetter(t[1]), Stage(t[2..], done), x, rep);
    } else if Eaten(t, done + {x}) {
      StageEaten(t, done + {x});
      StageStep(t[2..], done, x);
      EatStep(t, done);
      var rest := Stage(t[2..], done);
      ReplacePairHit(rest, BS, x, rep);
      ReplacePairSkip(BS, [BS, x] + rest, BS, x, rep);
    } else {
      StagePlain(t, done);
      StagePlain(t, done + {x});
      StageStep(t[1..], done, x);
      StageHead(t[1..], done, x);
      StageHead(t[1..], done, QUOTE);
      assert |t| >= 2 ==> t[1..][0] == t[1];
      HeadStep(t[0], Stage(t[1..], done), done, x);
    }
  }

  lemma EatStep(t: string, done: set<char>)
    requires |t| >= 2 && t[0] == BS && Letter(t[1]) && t[1] !in done
    ensures Stage(t, done) == [BS] + ([BS, t[1]] + Stage(t[2..], done))
  {
  }

  /** A staged text starts with a given letter only when the text itself does, never with a bare quote. */
  lemma StageHead(t: string, done: set<char>, x: char)
    requires x in {'r', 'n', 't', QUOTE} && done <= {'r', 'n', 't'}
    ensures Stage(t, done) != [] && Stage(t, done)[0] == x ==> x != QUOTE && t != [] && t[0] == x
  {
  }

  lemma MisreadTail(t: string)
    ensures t != [] && !(t[0] == BS && |t| >= 2 && Letter(t[1])) ==> Misread(t) == [t[0]] + Misread(t[1..])
    ensures |t| >= 2 && t[0] == BS && Letter(t[1]) ==> Misread(t) == [BS, DecodeLetter(t[1])] + Misread(t[2..])
  {
  }

  lemma {:induction false} LastStage(t: string)
    ensures ReplacePair(Stage(t, {'r', 'n', 't', QUOTE}), BS, BS, [BS]) == Misread(t)
    decreases |t|
  {
    var done := {'r', 'n', 't', QUOTE};
    var s := Stage(t, done);
    MisreadTail(t);
    if t == [] {
    } else if t[0] == BS && |t| >= 2 && Letter(t[1]) {
      LastStage(t[2..]);
      var rest := Stage(t[2..], done);
      assert s[1..] == [DecodeLetter(t[1])] + rest && s[1..][1..] == rest;
    } else {
      LastStage(t[1..]);
      var rest := Stage(t[1..], done);
      if t[0] == BS {
        assert s == [BS, BS] + rest && s[2..] == rest;
      } else {
        assert s == [t[0]] + rest && s[1..] == rest;
      }
    }
  }

  /** What the chained decoder makes of encoded text, in closed form. */
  lemma ChainedDecode(t: string)
    ensures UnescapeChain(EscapeRaw(t)) == Misread(t)
  {
    EscapeRawIsPerCharacter(t);
    StageNone(t);
    StageStep(t, {}, 'r');
    StageStep(t, {'r'}, 'n');
    StageStep(t, {'r', 'n'}, 't');
    StageStep(t, {'r', 'n', 't'}, QUOTE);
    assert {} + {'r'} == {'r'} && {'r'} + {'n'} == {'r', 'n'} && {'r', 'n'} + {'t'} == {'r', 'n', 't'};
    assert {'r', 'n', 't'} + {QUOTE} == {'r', 'n', 't', QUOTE};
    LastStage(t);
  }

  /** The chain inverts the encoder on exactly the texts without a backslash before n, r or t. */
  lemma ChainedDecodeExact(t: string)
    ensures UnescapeChain(EscapeRaw(t)) == t <==> !HasBackslashLetter(t)
  {
    ChainedDecode(t);
    if HasBackslashLetter(t) {
      var i :| 0 < i < |t| && t[i - 1] == BS && Letter(t[i]);
      assert Misread(t)[i] != t[i];
    } else {
      assert Misread(t) == t;
    }
  }

  // ------------------------------------------------------- newline styles

  /** The text with every newline style (CRLF, CR, LF) turned into nl. */
  function Newlines(t: string, nl: string): string {
    if t == [] then []
    else if t[0] == CR && |t| >= 2 && t[1] == LF then nl + Newlines(t[2..], nl)
    else (if t[0] in {CR, LF} then nl else [t[0]]) + Newlines(t[1..], nl)
  }

  /** The source's own way to get there: CRLF to LF, CR to LF, LF to the style wanted. */
  function NewlineChain(t: string, nl: string): string {
    ReplaceChar(ReplaceChar(ReplacePair(t, CR, LF, [LF]), CR, [LF]), LF, nl)
  }

  lemma NewlineChainHead(c: char, rest: string, nl: string)
    requires c != CR || rest == [] || rest[0] != LF
    ensures NewlineChain([c] + rest, nl) == (if c in {CR, LF} then nl else [c]) + NewlineChain(rest, nl)
  {
  }

  lemma {:induction false} NewlineChainIsNewlines(t: string, nl: string)
    ensures NewlineChain(t, nl) == Newlines(t, nl)
    decreases |t|
  {
    if t == [] {
    } else if t[0] == CR && |t| >= 2 && t[1] == LF {
      NewlineChainIsNewlines(t[2..], nl);
      assert t == [CR, LF] + t[2..];
      ReplacePairHit(t[2..], CR, LF, [LF]);
      var r := ReplacePair(t[2..], CR, LF, [LF]);
      ReplaceCharConcat([LF], r, CR, [LF]);
      ReplaceOne(LF, CR, [LF]);
      ReplaceCharConcat([LF], ReplaceChar(r, CR, [LF]), LF, nl);
      ReplaceOne(LF, LF, nl);
    } else {
      NewlineChainIsNewlines(t[1..], nl);
      assert t == [t[0]] + t[1..];
      NewlineChainHead(t[0], t[1..], nl);
    }
  }

  /** Once every newline is nl (CRLF or LF), turning newlines into nl again changes nothing. */
  lemma {:induction false} NewlinesIdempotent(t: string, nl: string)
    requires nl == [CR, LF] || nl == [LF]
    ensures Newlines(Newlines(t, nl), nl) == Newlines(t, nl)
    decreases |t|
  {
    if t == [] {
    } else if t[0] == CR && |t| >= 2 && t[1] == LF {
      NewlinesIdempotent(t[2..], nl);
      NewlineThen(nl, Newlines(t[2..], nl));
    } else {
      NewlinesIdempotent(t[1..], nl);
      var rest := Newlines(t[1..], nl);
      if t[0] in {CR, LF} {
        NewlineThen(nl, rest);
      } else {
        assert ([t[0]] + rest)[1..] == rest;
      }
    }
  }

  lemma NewlineThen(nl: string, rest: string)
    requires nl == [CR, LF] || nl == [LF]
    ensures Newlines(nl + rest, nl) == nl + Newlines(rest, nl)
  {
  }

  /** `_po_escape`: escapes for a single-line msgstr in the newline style of the file. */
  function EscapeLine(text: string, crlf: bool): string {
    var plain := ReplaceChar(ReplaceChar(ReplaceChar(text, BS, [BS, BS]), QUOTE, [BS, QUOTE]), TAB, [BS, 't']);
    NewlineChain(plain, if crlf then [BS, 'r', BS, 'n'] else [BS, 'n'])
  }

  function FileNewline(crlf: bool): string {
    if crlf then [CR, LF] else [LF]
  }

  function EncodePlainChar(c: char): string {
    if c in {BS, QUOTE, TAB} then EncodeChar(c) else [c]
  }

  function EncodePlain(t: string): string {
    if t == [] then [] else EncodePlainChar(t[0]) + EncodePlain(t[1..])
  }

  lemma {:induction false} PlainChain(t: string)
    ensures ReplaceChar(ReplaceChar(ReplaceChar(t, BS, [BS, BS]), QUOTE, [BS, QUOTE]), TAB, [BS, 't']) == EncodePlain(t)
  {
    if t != [] {
      PlainChain(t[1..]);
      var c := t[0];
      var a := ReplaceChar([c], BS, [BS, BS]);
      assert t == [c] + t[1..];
      ReplaceCharConcat([c], t[1..], BS, [BS, BS]);
      ReplaceCharConcat(a, ReplaceChar(t[1..], BS, [BS, BS]), QUOTE, [BS, QUOTE]);
      ReplaceCharConcat(ReplaceChar(a, QUOTE, [BS, QUOTE]),
                        ReplaceChar(ReplaceChar(t[1..], BS, [BS, BS]), QUOTE, [BS, QUOTE]), TAB, [BS, 't']);
      ReplaceOne(c, BS, [BS, BS]);
      ReplaceOne(c, QUOTE, [BS, QUOTE]);
      ReplaceOne(c, TAB, [BS, 't']);
      ReplaceTwo(BS, BS, QUOTE, [BS, QUOTE]);
      ReplaceTwo(BS, BS, TAB, [BS, 't']);
      ReplaceTwo(BS, QUOTE, TAB, [BS, 't']);
    }
  }

  lemma PlainFirst(t: string)
    ensures EncodePlain(t) != [] && EncodePlain(t)[0] == LF ==> t[0] == LF
  {
  }

  lemma PlainCharIs(c: char)
    ensures c !in {CR, LF} ==> EncodePlainChar(c) == EncodeChar(c)
    ensures c in {CR, LF} ==> EncodePlainChar(c) == [c]
  {
  }

  lemma {:induction false} NewlinesOfPlain(t: string, crlf: bool)
    ensures Newlines(EncodePlain(t), Encode(FileNewline(crlf))) == Encode(Newlines(t, FileNewline(crlf)))
    decreases |t|
  {
    hide EncodeChar, EncodePlainChar, FileNewline;
    var nl := FileNewline(crlf);
    if t == [] {
    } else if t[0] == CR && |t| >= 2 && t[1] == LF {
      NewlinesOfPlain(t[2..], crlf);
      assert t[1..][1..] == t[2..];
      var rest := EncodePlain(t[2..]);
      PlainCharIs(CR);
      PlainCharIs(LF);
      assert EncodePlain(t) == [CR] + ([LF] + rest) && ([CR] + ([LF] + rest))[2..] == rest;
      EncodeConcat(nl, Newlines(t[2..], nl));
    } else {
      NewlinesOfPlain(t[1..], crlf);
      var rest := EncodePlain(t[1..]);
      PlainFirst(t[1..]);
      PlainCharIs(t[0]);
      PlainHead(t[0], rest, Encode(nl));
      if t[0] in {CR, LF} {
        EncodeConcat(nl, Newlines(t[1..], nl));
      } else {
        assert ([t[0]] + Newlines(t[1..], nl))[1..] == Newlines(t[1..], nl);
      }
    }
  }

  lemma PlainHead(c: char, rest: string, nl: string)
    requires c != CR || rest == [] || rest[0] != LF
    ensures Newlines(EncodePlainChar(c) + rest, nl)
         == (if c in {CR, LF} then nl else EncodePlainChar(c)) + Newlines(rest, nl)
  {
  }

  /** `_po_escape` is the encoder applied to the text with its newlines in the style of the file. Hence what
      it writes reads back one level as that text, and through the chain as the misreading of that text. */
  lemma EscapeLineIsEncode(text: string, crlf: bool)
    ensures EscapeLine(text, crlf) == EscapeRaw(Newlines(text, FileNewline(crlf)))
    ensures UnescapeRaw(EscapeLine(text, crlf)) == Newlines(text, FileNewline(crlf))
    ensures UnescapeChain(EscapeLine(text, crlf)) == Misread(Newlines(text, FileNewline(crlf)))
    ensures forall c :: c in EscapeLine(text, crlf) ==> c !in {CR, LF}
  {
    var nl := FileNewline(crlf);
    PlainChain(text);
    assert Encode(nl) == if crlf then [BS, 'r', BS, 'n'] else [BS, 'n'] by {
      assert [CR, LF][1..] == [LF] && [LF][1..] == [];
      assert Encode([LF]) == [BS, 'n'];
    }
    NewlineChainIsNewlines(EncodePlain(text), Encode(nl));
    NewlinesOfPlain(text, crlf);
    EscapeRawIsPerCharacter(Newlines(text, nl));
    DecodeAfterEncode(Newlines(text, nl));
    ChainedDecode(Newlines(text, nl));
    EncodeIsCanonical(Newlines(text, nl));
  }
}
