/** The PO file parser and the Unreal-style printer (po_sanity.py `_unescape`, `parse_po`, `write_unreal_po`). */
module PoFile {
  import opened Text
  import opened Wrappers
  import opened PoEscape
  import opened Separators

  // ---------------------------------------------------------- lines of a text

  /** `text.split('\n')`. */
  function Split(text: string): (ls: seq<string>)
    ensures ls != []
  {
    if text == [] then [[]]
    else
      var rest := Split(text[1..]);
      if text[0] == LF then [[]] + rest else [[text[0]] + rest[0]] + rest[1..]
  }

  /** `'\n'.join(lines)`. */
  function Join(ls: seq<string>): string {
    if ls == [] then [] else if |ls| == 1 then ls[0] else ls[0] + [LF] + Join(ls[1..])
  }

  /** The lines the parser sees: CRLF line ends count as LF. */
  function Lines(text: string): seq<string> {
    Split(ReplacePair(text, CR, LF, [LF]))
  }

  predicate PlainLine(l: string) {
    LF !in l && (l != [] ==> l[|l| - 1] != CR)
  }

  lemma {:induction false} SplitPlain(l: string)
    requires LF !in l
    ensures Split(l) == [l]
  {
    if l != [] {
      assert l[0] in l;
      SplitPlain(l[1..]);
      assert [l[0]] + l[1..] == l;
    }
  }

  lemma {:induction false} SplitLine(l: string, rest: string)
    requires LF !in l
    ensures Split(l + [LF] + rest) == [l] + Split(rest)
  {
    if l == [] {
      assert ([] + [LF] + rest)[1..] == rest;
    } else {
      assert l[0] in l;
      SplitLine(l[1..], rest);
      assert (l + [LF] + rest)[1..] == l[1..] + [LF] + rest;
      assert [l[0]] + l[1..] == l && ([l[1..]] + Split(rest))[1..] == Split(rest);
    }
  }

  lemma {:induction false} SplitJoin(ls: seq<string>)
    requires ls != [] && forall l :: l in ls ==> LF !in l
    ensures Split(Join(ls)) == ls
  {
    assert LF !in ls[0];
    if |ls| == 1 {
      SplitPlain(ls[0]);
    } else {
      SplitJoin(ls[1..]);
      SplitLine(ls[0], Join(ls[1..]));
    }
  }

  lemma {:induction false} JoinSplit(text: string)
    ensures Join(Split(text)) == text
    ensures forall l :: l in Split(text) ==> LF !in l
  {
    if text != [] {
      JoinSplit(text[1..]);
      var rest := Split(text[1..]);
      if text[0] == LF {
        assert ([[]] + rest)[1..] == rest;
        assert [] + [LF] + text[1..] == text;
      } else {
        var first := [text[0]] + rest[0];
        assert rest[0] in rest;
        assert ([first] + rest[1..])[1..] == rest[1..];
        assert [text[0]] + (rest[0] + [LF] + Join(rest[1..])) == first + [LF] + Join(rest[1..]);
      }
    }
  }

  lemma {:induction false} PlainNoCrlf(l: string, rest: string)
    requires PlainLine(l) && (rest != [] ==> rest[0] == LF)
    ensures ReplacePair(l + rest, CR, LF, [LF]) == l + ReplacePair(rest, CR, LF, [LF])
  {
    if l == [] {
      assert l + rest == rest;
    } else {
      assert l[0] in l;
      if |l| > 1 {
        assert l[1] in l;
      }
      PlainNoCrlf(l[1..], rest);
      assert l + rest == [l[0]] + (l[1..] + rest);
      ReplacePairSkip(l[0], l[1..] + rest, CR, LF, [LF]);
    }
  }

  lemma {:induction false} JoinNoCrlf(ls: seq<string>)
    requires forall l :: l in ls ==> PlainLine(l)
    ensures ReplacePair(Join(ls), CR, LF, [LF]) == Join(ls)
  {
    if ls == [] {
    } else if |ls| == 1 {
      PlainNoCrlf(ls[0], []);
      assert ls[0] + [] == ls[0];
    } else {
      JoinNoCrlf(ls[1..]);
      var rest := Join(ls[1..]);
      assert ls[0] + [LF] + rest == ls[0] + ([LF] + rest);
      PlainNoCrlf(ls[0], [LF] + rest);
      ReplacePairSkip(LF, rest, CR, LF, [LF]);
    }
  }

  /** The parser sees a printed list of lines as that list. */
  lemma LinesOfJoin(ls: seq<string>)
    requires forall l :: l in ls ==> PlainLine(l)
    ensures Lines(Join(ls)) == if ls == [] then [[]] else ls
  {
    JoinNoCrlf(ls);
    if ls != [] {
      SplitJoin(ls);
    }
  }

  // ------------------------------------------------------------ quoted strings

  /** The body of a quoted string: no bare quote, no dangling backslash (`STRING_RE`). */
  predicate Body(b: string) {
    b == [] || (if b[0] == BS then |b| >= 2 && Body(b[2..]) else b[0] != QUOTE && Body(b[1..]))
  }

  const ESCAPES := {'n', 't', QUOTE, BS, 'r', 'a', 'b', 'f', 'v', '\''}

  /** `_unescape`: known escapes decode, an unknown one is an error and both characters go. */
  function Unescape(s: string): string {
    if s == [] then []
    else if s[0] == BS && |s| >= 2 then
      (if s[1] in ESCAPES then [DecodeLetter(s[1])] else []) + Unescape(s[2..])
    else [s[0]] + Unescape(s[1..])
  }

  function BadEscapes(s: string): nat {
    if s == [] then 0
    else if s[0] == BS && |s| >= 2 then (if s[1] in ESCAPES then 0 else 1) + BadEscapes(s[2..])
    else BadEscapes(s[1..])
  }

  lemma EncodedHead(c: char, rest: string)
    ensures Body(EncodeChar(c) + rest) == Body(rest)
    ensures Unescape(EncodeChar(c) + rest) == [c] + Unescape(rest)
    ensures BadEscapes(EncodeChar(c) + rest) == BadEscapes(rest)
  {
    var e := EncodeChar(c);
    assert if |e| == 1 then (e + rest)[1..] == rest else (e + rest)[2..] == rest;
  }

  /** The parser's decoder inverts the encoder, without an error. */
  lemma {:induction false} UnescapeEncoded(t: string)
    ensures Body(Encode(t)) && Unescape(Encode(t)) == t && BadEscapes(Encode(t)) == 0
  {
    if t != [] {
      EncodedHead(t[0], Encode(t[1..]));
      UnescapeEncoded(t[1..]);
    }
  }

  // -------------------------------------------------------------- the machine

  /** Which string a continuation line extends. */
  datatype Field = NoField | CtxtField | IdField | StrField

  datatype PoEntry = PoEntry(ctxt: Option<string>, id: string, str: string, idLines: nat, strLines: nat,
                             comments: seq<string>, fuzzy: bool)

  const FRESH := PoEntry(None, [], [], 1, 1, [], false)

  datatype Machine = Machine(cur: PoEntry, field: Field, header: Option<PoEntry>, entries: seq<PoEntry>, errors: nat)

  const START := Machine(FRESH, NoField, None, [], 0)

  predicate HeaderLike(e: PoEntry) {
    e.ctxt == None && e.id == []
  }

  function Flush(m: Machine): Machine {
    if m.field == NoField then m.(cur := FRESH)
    else
      var m := m.(errors := m.errors + if m.field == StrField then 0 else 1);
      if m.header == None && HeaderLike(m.cur) then m.(header := Some(m.cur), cur := FRESH, field := NoField)
      else m.(entries := m.entries + [m.cur], cur := FRESH, field := NoField)
  }

  datatype Keyword = KCtxt | KPlural | KId | KStr

  /** The keyword a line starts with and the text behind it; an index in brackets belongs to msgstr. */
  function KeywordOf(s: string): Option<(Keyword, string)> {
    if "msgctxt" <= s then Some((KCtxt, s[7..]))
    else if "msgid_plural" <= s then Some((KPlural, s[12..]))
    else if "msgid" <= s then Some((KId, s[5..]))
    else if "msgstr" <= s then Some((KStr, s[6 + IndexLen(s[6..])..]))
    else None
  }

  function DigitsLen(s: string): (n: nat)
    ensures n <= |s|
  {
    if s != [] && '0' <= s[0] <= '9' then 1 + DigitsLen(s[1..]) else 0
  }

  function IndexLen(s: string): (n: nat)
    ensures n <= |s|
  {
    if s == [] || s[0] != '[' then 0
    else
      var d := DigitsLen(s[1..]);
      if d > 0 && d + 1 < |s| && s[d + 1] == ']' then d + 2 else 0
  }

  predicate Quotes(q: string) {
    |q| >= 2 && q[0] == QUOTE && q[|q| - 1] == QUOTE
  }

  /** `KEYWORD_RE` on a stripped line: keyword, blanks, a quoted string to the end. */
  function KeywordLine(s: string): (r: Option<(Keyword, string)>)
    ensures r.Some? ==> Quotes(r.value.1)
  {
    var k := KeywordOf(s);
    if k.None? || k.value.1 == [] || !IsSpace(k.value.1[0]) || !Quotes(LStrip(k.value.1)) then None
    else Some((k.value.0, LStrip(k.value.1)))
  }

  function Inner(q: string): string
    requires Quotes(q)
  {
    q[1..|q| - 1]
  }

  function Fail(m: Machine): Machine {
    m.(errors := m.errors + 1)
  }

  predicate IsFuzzy(comment: string) {
    |comment| >= 2 && comment[1] == ',' && Contains(comment, "fuzzy")
  }

  predicate Contains(s: string, w: string) {
    w <= s || (s != [] && Contains(s[1..], w))
  }

  function OnComment(m: Machine, s: string): Machine {
    var m := if m.field != NoField then Flush(m) else m;
    m.(cur := m.cur.(comments := m.cur.comments + [s], fuzzy := m.cur.fuzzy || IsFuzzy(s)))
  }

  function OnKeyword(m: Machine, kw: Keyword, q: string): Machine
    requires Quotes(q)
  {
    if !Body(Inner(q)) then Fail(m)
    else
      var value := Unescape(Inner(q));
      var m := m.(errors := m.errors + BadEscapes(Inner(q)));
      match kw
      case KCtxt =>
        var m := if m.field != NoField then Flush(m) else m;
        m.(cur := m.cur.(ctxt := Some(value)), field := CtxtField)
      case KId =>
        var m := if m.field in {IdField, StrField} then Flush(m) else m;
        m.(cur := m.cur.(id := value), field := IdField)
      case KPlural => m.(field := IdField)
      case KStr =>
        var m := if m.field != IdField then Fail(m) else m;
        m.(cur := m.cur.(str := value), field := StrField)
  }

  function OnContinuation(m: Machine, q: string): Machine
    requires Quotes(q)
  {
    if !Body(Inner(q)) then Fail(m)
    else
      var value := Unescape(Inner(q));
      var m := m.(errors := m.errors + BadEscapes(Inner(q)));
      var e := m.cur;
      match m.field
      case IdField => m.(cur := e.(id := e.id + value, idLines := e.idLines + 1))
      case StrField => m.(cur := e.(str := e.str + value, strLines := e.strLines + 1))
      case CtxtField => m.(cur := e.(ctxt := Some((if e.ctxt.Some? then e.ctxt.value else []) + value)))
      case NoField => Fail(m)
  }

  function Feed(m: Machine, line: string): Machine {
    var s := Strip(line);
    if s == [] then Flush(m)
    else if s[0] == '#' then OnComment(m, s)
    else if KeywordLine(s).Some? then OnKeyword(m, KeywordLine(s).value.0, KeywordLine(s).value.1)
    else if Quotes(s) then OnContinuation(m, s)
    else Fail(m)
  }

  function Run(m: Machine, ls: seq<string>): Machine
    decreases |ls|
  {
    if ls == [] then m else Run(Feed(m, ls[0]), ls[1..])
  }

  /** What `parse_po` returns, with the number of ERROR issues it records. */
  function Parse(text: string): Machine {
    Flush(Run(START, Lines(text)))
  }

  /** The parser object: the variables `parse_po` shares with its nested `flush`. */
  class Parser {
    var cur: PoEntry
    var field: Field
    var header: Option<PoEntry>
    var entries: seq<PoEntry>
    var errors: nat

    function View(): Machine
      reads this
    {
      Machine(cur, field, header, entries, errors)
    }

    constructor ()
      ensures View() == START
    {
      cur, field, header, entries, errors := FRESH, NoField, None, [], 0;
    }

    method DoFlush()
      modifies this
      ensures View() == Flush(old(View()))
    {
      if field == NoField {
        cur := FRESH;
        return;
      }
      if field != StrField {
        errors := errors + 1;
      }
      if header == None && cur.ctxt == None && cur.id == [] {
        header := Some(cur);
      } else {
        entries := entries + [cur];
      }
      cur, field := FRESH, NoField;
    }

    method FeedLine(line: string)
      modifies this
      ensures View() == Feed(old(View()), line)
    {
      hide Strip, KeywordLine, Body, Unescape, BadEscapes, Contains;
      var s := Strip(line);
      if s == [] {
        DoFlush();
      } else if s[0] == '#' {
        if field != NoField {
          DoFlush();
        }
        cur := cur.(comments := cur.comments + [s], fuzzy := cur.fuzzy || IsFuzzy(s));
      } else if KeywordLine(s).Some? {
        FeedKeyword(KeywordLine(s).value.0, KeywordLine(s).value.1);
      } else if Quotes(s) {
        FeedContinuation(s);
      } else {
        errors := errors + 1;
      }
    }

    method FeedKeyword(kw: Keyword, q: string)
      requires Quotes(q)
      modifies this
      ensures View() == OnKeyword(old(View()), kw, q)
    {
      hide Body, Unescape, BadEscapes;
      if !Body(Inner(q)) {
        errors := errors + 1;
        return;
      }
      var value := Unescape(Inner(q));
      errors := errors + BadEscapes(Inner(q));
      match kw
      case KCtxt =>
        if field != NoField {
          DoFlush();
        }
        cur, field := cur.(ctxt := Some(value)), CtxtField;
      case KId =>
        if field == IdField || field == StrField {
          DoFlush();
        }
        cur, field := cur.(id := value), IdField;
      case KPlural =>
        field := IdField;
      case KStr =>
        if field != IdField {
          errors := errors + 1;
        }
        cur, field := cur.(str := value), StrField;
    }

    method FeedContinuation(q: string)
      requires Quotes(q)
      modifies this
      ensures View() == OnContinuation(old(View()), q)
    {
      hide Body, Unescape, BadEscapes;
      if !Body(Inner(q)) {
        errors := errors + 1;
        return;
      }
      var value := Unescape(Inner(q));
      errors := errors + BadEscapes(Inner(q));
      match field
      case IdField => cur := cur.(id := cur.id + value, idLines := cur.idLines + 1);
      case StrField => cur := cur.(str := cur.str + value, strLines := cur.strLines + 1);
      case CtxtField => cur := cur.(ctxt := Some((if cur.ctxt.Some? then cur.ctxt.value else []) + value));
      case NoField => errors := errors + 1;
    }
  }

  /** `parse_po` on the decoded text. */
  method ParsePo(text: string) returns (header: Option<PoEntry>, entries: seq<PoEntry>, errors: nat)
    ensures var m := Parse(text); header == m.header && entries == m.entries && errors == m.errors
  {
    var p := new Parser();
    var ls := Lines(text);
    for i := 0 to |ls|
      invariant fresh(p)
      invariant Run(p.View(), ls[i..]) == Run(START, ls)
    {
      hide Feed;
      assert ls[i..][0] == ls[i] && ls[i..][1..] == ls[i + 1..];
      p.FeedLine(ls[i]);
    }
    p.DoFlush();
    header, entries, errors := p.header, p.entries, p.errors;
  }

  // --------------------------------------------------------------- the printer

  /** `esc`: the same escapes as the encoder, TAB before the newlines. */
  function Esc(s: string): string {
    var slashes := ReplaceChar(s, BS, [BS, BS]);
    var quotes := ReplaceChar(slashes, QUOTE, [BS, QUOTE]);
    ReplaceChar(ReplaceChar(ReplaceChar(quotes, TAB, [BS, 't']), CR, [BS, 'r']), LF, [BS, 'n'])
  }

  function RStripLf(s: string): string {
    if s != [] && s[|s| - 1] == LF then RStripLf(s[..|s| - 1]) else s
  }

  function Quoted(keyword: string, body: string): string {
    keyword + [' ', QUOTE] + body + [QUOTE]
  }

  function HeaderText(ls: seq<string>): seq<string> {
    if ls == [] then [] else [[QUOTE] + (Esc(ls[0]) + [BS, 'n']) + [QUOTE]] + HeaderText(ls[1..])
  }

  function HeaderLines(h: PoEntry): seq<string> {
    h.comments + ([Quoted("msgid", []), Quoted("msgstr", [])] + (HeaderText(Split(RStripLf(h.str))) + [[]]))
  }

  function EntryStrings(e: PoEntry): seq<string> {
    (if e.ctxt.Some? then [Quoted("msgctxt", Esc(e.ctxt.value))] else [])
    + ([Quoted("msgid", Esc(e.id)), Quoted("msgstr", Esc(NewlineChain(e.str, [CR, LF])))] + [[]])
  }

  function EntryLines(e: PoEntry): seq<string> {
    e.comments + EntryStrings(e)
  }

  function AllEntryLines(es: seq<PoEntry>): seq<string> {
    if es == [] then [] else EntryLines(es[0]) + AllEntryLines(es[1..])
  }

  function PrintLines(h: Option<PoEntry>, es: seq<PoEntry>): seq<string> {
    (if h.Some? then HeaderLines(h.value) else []) + AllEntryLines(es)
  }

  /** `write_unreal_po`, as text behind the byte-order mark. */
  function Print(h: Option<PoEntry>, es: seq<PoEntry>): string {
    Join(PrintLines(h, es))
  }

  // ------------------------------------------- feeding printed lines back in

  lemma EscConcat(a: string, b: string)
    ensures Esc(a + b) == Esc(a) + Esc(b)
  {
    hide ReplaceChar;
    ReplaceCharConcat(a, b, BS, [BS, BS]);
    var a1, b1 := ReplaceChar(a, BS, [BS, BS]), ReplaceChar(b, BS, [BS, BS]);
    ReplaceCharConcat(a1, b1, QUOTE, [BS, QUOTE]);
    var a2, b2 := ReplaceChar(a1, QUOTE, [BS, QUOTE]), ReplaceChar(b1, QUOTE, [BS, QUOTE]);
    ReplaceCharConcat(a2, b2, TAB, [BS, 't']);
    var a3, b3 := ReplaceChar(a2, TAB, [BS, 't']), ReplaceChar(b2, TAB, [BS, 't']);
    ReplaceCharConcat(a3, b3, CR, [BS, 'r']);
    ReplaceCharConcat(ReplaceChar(a3, CR, [BS, 'r']), ReplaceChar(b3, CR, [BS, 'r']), LF, [BS, 'n']);
  }

  lemma EscChar(c: char)
    ensures Esc([c]) == EncodeChar(c)
  {
    hide ReplaceChar;
    ReplaceOne(c, BS, [BS, BS]);
    if c == BS {
      ReplaceTwo(BS, BS, QUOTE, [BS, QUOTE]);
      ReplaceTwo(BS, BS, TAB, [BS, 't']);
      ReplaceTwo(BS, BS, CR, [BS, 'r']);
      ReplaceTwo(BS, BS, LF, [BS, 'n']);
    } else {
      ReplaceOne(c, QUOTE, [BS, QUOTE]);
      ReplaceTwo(BS, QUOTE, TAB, [BS, 't']);
      ReplaceTwo(BS, QUOTE, CR, [BS, 'r']);
      ReplaceTwo(BS, QUOTE, LF, [BS, 'n']);
      ReplaceOne(c, TAB, [BS, 't']);
      ReplaceTwo(BS, 't', CR, [BS, 'r']);
      ReplaceTwo(BS, 't', LF, [BS, 'n']);
      ReplaceOne(c, CR, [BS, 'r']);
      ReplaceTwo(BS, 'r', LF, [BS, 'n']);
      ReplaceOne(c, LF, [BS, 'n']);
    }
  }

  lemma {:induction false} EscIsEncode(s: string)
    ensures Esc(s) == Encode(s)
  {
    if s != [] {
      EscIsEncode(s[1..]);
      EscChar(s[0]);
      EscConcat([s[0]], s[1..]);
      assert s == [s[0]] + s[1..];
    }
  }

  function Quote(body: string): string {
    [QUOTE] + body + [QUOTE]
  }

  lemma QuoteFacts(body: string)
    ensures Quotes(Quote(body)) && Inner(Quote(body)) == body && IsTrimmed(Quote(body))
    ensures LStrip([' '] + Quote(body)) == Quote(body)
  {
  }

  lemma FeedText(m: Machine, body: string)
    ensures Quotes(Quote(body)) && Feed(m, Quote(body)) == OnContinuation(m, Quote(body))
  {
  }

  /** The three keywords the printer writes. */
  function Name(kw: Keyword): string {
    match kw
    case KCtxt => "msgctxt"
    case KStr => "msgstr"
    case _ => "msgid"
  }

  lemma KeywordOfName(kw: Keyword, rest: string)
    requires kw != KPlural && rest != [] && rest[0] == ' '
    ensures KeywordOf(Name(kw) + rest) == Some((kw, rest))
  {
    var s := Name(kw) + rest;
    assert s[3] == Name(kw)[3] && s[|Name(kw)|..] == rest && s[|Name(kw)|] == ' ';
    if kw == KId {
      assert "msgid_plural"[5] == '_';
      assert "msgid" <= s;
    } else if kw == KStr {
      assert "msgctxt"[3] == 'c' && "msgid_plural"[3] == 'i' && "msgid"[3] == 'i';
      assert "msgstr" <= s;
      assert IndexLen(rest) == 0;
    } else {
      assert "msgctxt" <= s;
    }
  }

  lemma FeedQuoted(m: Machine, kw: Keyword, body: string)
    requires kw != KPlural
    ensures Quotes(Quote(body)) && Feed(m, Quoted(Name(kw), body)) == OnKeyword(m, kw, Quote(body))
  {
    hide Strip, OnContinuation, OnKeyword, OnComment, Flush, LStrip, KeywordOf;
    QuoteFacts(body);
    var rest := [' '] + Quote(body);
    var s := Quoted(Name(kw), body);
    assert s == Name(kw) + rest by {
      assert Name(kw) + [' ', QUOTE] + body + [QUOTE] == Name(kw) + ([' '] + ([QUOTE] + body + [QUOTE]));
    }
    assert s[0] == 'm' && s[|s| - 1] == QUOTE;
    StripTrimmed(s);
    KeywordOfName(kw, rest);
  }

  predicate IsComment(s: string) {
    s != [] && s[0] == '#' && IsTrimmed(s) && LF !in s
  }

  lemma FeedComment(m: Machine, s: string)
    requires IsComment(s)
    ensures Feed(m, s) == OnComment(m, s)
  {
  }

  lemma FeedBlank(m: Machine)
    ensures Feed(m, []) == Flush(m)
  {
  }

  lemma {:induction false} RunConcat(m: Machine, a: seq<string>, b: seq<string>)
    ensures Run(m, a + b) == Run(Run(m, a), b)
    decreases |a|
  {
    hide Feed;
    if a == [] {
      assert a + b == b;
    } else {
      assert (a + b)[1..] == a[1..] + b;
      RunConcat(Feed(m, a[0]), a[1..], b);
    }
  }

  lemma RunCons(m: Machine, l: string, rest: seq<string>)
    ensures Run(m, [l] + rest) == Run(Feed(m, l), rest)
  {
  }

  function AnyFuzzy(cs: seq<string>): bool {
    cs != [] && (IsFuzzy(cs[0]) || AnyFuzzy(cs[1..]))
  }

  lemma {:induction false} RunComments(m: Machine, cs: seq<string>)
    requires m.field == NoField && forall c :: c in cs ==> IsComment(c)
    ensures Run(m, cs)
         == m.(cur := m.cur.(comments := m.cur.comments + cs, fuzzy := m.cur.fuzzy || AnyFuzzy(cs)))
    decreases |cs|
  {
    if cs == [] {
      assert m.cur.comments + [] == m.cur.comments;
    } else {
      hide Feed, IsComment, IsFuzzy;
      assert cs[0] in cs;
      FeedComment(m, cs[0]);
      RunComments(OnComment(m, cs[0]), cs[1..]);
      assert m.cur.comments + [cs[0]] + cs[1..] == m.cur.comments + cs;
    }
  }

  // -------------------------------------------------------------- round trip

  /** What the parser guarantees of the comments of an entry. */
  predicate GoodComments(e: PoEntry) {
    (forall c :: c in e.comments ==> IsComment(c)) && e.fuzzy == AnyFuzzy(e.comments)
  }

  /** The entry as it comes back: CRLF newlines, one physical line per string. */
  function Normal(e: PoEntry): PoEntry {
    e.(str := Newlines(e.str, [CR, LF]), idLines := 1, strLines := 1)
  }

  /** The header as it comes back: exactly one trailing newline, one physical line per header line. */
  function NormalHeader(h: PoEntry): PoEntry {
    h.(str := RStripLf(h.str) + [LF], idLines := 1, strLines := 1 + |Split(RStripLf(h.str))|)
  }

  lemma OnValue(m: Machine, kw: Keyword, v: string)
    requires kw != KPlural
    ensures Feed(m, Quoted(Name(kw), Esc(v))) ==
      (if kw == KCtxt then
         var m := if m.field != NoField then Flush(m) else m;
         m.(cur := m.cur.(ctxt := Some(v)), field := CtxtField)
       else if kw == KId then
         var m := if m.field in {IdField, StrField} then Flush(m) else m;
         m.(cur := m.cur.(id := v), field := IdField)
       else
         var m := if m.field != IdField then Fail(m) else m;
         m.(cur := m.cur.(str := v), field := StrField))
  {
    hide Feed, Unescape, Body, BadEscapes, Quotes, Inner, Flush, Esc, Encode;
    EscIsEncode(v);
    UnescapeEncoded(v);
    QuoteFacts(Encode(v));
    FeedQuoted(m, kw, Encode(v));
  }

  lemma RunEntryStrings(m: Machine, e: PoEntry)
    requires m.field == NoField && m.cur.ctxt == None && m.cur.id == m.cur.str == []
    requires m.header.Some? || !HeaderLike(e)
    ensures Run(m, EntryStrings(e)) == m.(cur := FRESH, entries := m.entries + [m.cur.(ctxt := e.ctxt, id := e.id,
              str := Newlines(e.str, [CR, LF]))])
  {
    hide Feed, Esc, NewlineChain, Newlines, Run;
    var v := NewlineChain(e.str, [CR, LF]);
    NewlineChainIsNewlines(e.str, [CR, LF]);
    var id, st := Quoted("msgid", Esc(e.id)), Quoted("msgstr", Esc(v));
    var tail := [id, st] + [[]];
    var m1 := if e.ctxt.Some? then m.(cur := m.cur.(ctxt := e.ctxt), field := CtxtField) else m;
    if e.ctxt.Some? {
      OnValue(m, KCtxt, e.ctxt.value);
      RunCons(m, Quoted("msgctxt", Esc(e.ctxt.value)), tail);
    } else {
      assert [] + tail == tail;
    }
    assert Run(m, EntryStrings(e)) == Run(m1, tail);
    RunThree(m1, id, st, []);
    OnValue(m1, KId, e.id);
    var m2 := m1.(cur := m1.cur.(id := e.id), field := IdField);
    OnValue(m2, KStr, v);
    FeedBlank(m2.(cur := m2.cur.(str := v), field := StrField));
  }

  lemma RunThree(m: Machine, a: string, b: string, c: string)
    ensures Run(m, [a, b] + [c]) == Feed(Feed(Feed(m, a), b), c)
  {
    hide Feed;
    assert [a, b] + [c] == [a] + ([b] + ([c] + []));
    RunCons(m, a, [b] + ([c] + []));
    RunCons(Feed(m, a), b, [c] + []);
    RunCons(Feed(Feed(m, a), b), c, []);
  }

  lemma RunEntry(m: Machine, e: PoEntry)
    requires m.field == NoField && m.cur == FRESH && GoodComments(e)
    requires m.header.Some? || !HeaderLike(e)
    ensures Run(m, EntryLines(e)) == m.(entries := m.entries + [Normal(e)])
  {
    hide Run, EntryStrings, IsComment, AnyFuzzy, Newlines;
    RunConcat(m, e.comments, EntryStrings(e));
    RunComments(m, e.comments);
    assert [] + e.comments == e.comments;
    RunEntryStrings(Run(m, e.comments), e);
  }

  function NormalAll(es: seq<PoEntry>): seq<PoEntry> {
    if es == [] then [] else [Normal(es[0])] + NormalAll(es[1..])
  }

  lemma NormalCons(before: seq<PoEntry>, es: seq<PoEntry>)
    requires es != []
    ensures (before + [Normal(es[0])]) + NormalAll(es[1..]) == before + NormalAll(es)
  {
    hide Normal;
  }

  lemma {:induction false} RunEntries(m: Machine, es: seq<PoEntry>)
    requires m.field == NoField && m.cur == FRESH
    requires forall e :: e in es ==> GoodComments(e) && (m.header.Some? || !HeaderLike(e))
    ensures Run(m, AllEntryLines(es)) == m.(entries := m.entries + NormalAll(es))
    decreases |es|
  {
    hide EntryLines, GoodComments, Normal, HeaderLike;
    if es == [] {
      assert m.entries + [] == m.entries;
    } else {
      hide Run, NormalAll;
      assert es[0] in es && forall e :: e in es[1..] ==> e in es;
      RunEntry(m, es[0]);
      RunConcat(m, EntryLines(es[0]), AllEntryLines(es[1..]));
      RunEntries(m.(entries := m.entries + [Normal(es[0])]), es[1..]);
      NormalCons(m.entries, es);
    }
  }

  /** The header text the printed continuation lines spell out. */
  function Tail(ls: seq<string>): string {
    if ls == [] then [] else ls[0] + [LF] + Tail(ls[1..])
  }

  lemma {:induction false} TailIsJoin(ls: seq<string>)
    requires ls != []
    ensures Tail(ls) == Join(ls) + [LF]
  {
    if |ls| > 1 {
      TailIsJoin(ls[1..]);
      assert ls[0] + [LF] + (Join(ls[1..]) + [LF]) == ls[0] + [LF] + Join(ls[1..]) + [LF];
    } else {
      assert ls[0] + [LF] + [] == ls[0] + [LF];
    }
  }

  lemma EscHeaderLine(l: string)
    ensures Esc(l) + [BS, 'n'] == Encode(l + [LF])
  {
    EscIsEncode(l);
    EncodeConcat(l, [LF]);
    assert [LF][1..] == [];
    assert Encode([LF]) == [BS, 'n'] + Encode([]);
  }

  lemma FeedHeaderLine(m: Machine, l: string)
    requires m.field == StrField
    ensures Feed(m, [QUOTE] + (Esc(l) + [BS, 'n']) + [QUOTE])
         == m.(cur := m.cur.(str := m.cur.str + (l + [LF]), strLines := m.cur.strLines + 1))
  {
    EscHeaderLine(l);
    var body := Encode(l + [LF]);
    UnescapeEncoded(l + [LF]);
    QuoteFacts(body);
    FeedText(m, body);
    hide Feed, Unescape, Body, BadEscapes, Quotes, Inner;
  }

  lemma {:induction false} RunHeaderText(m: Machine, ls: seq<string>)
    requires m.field == StrField
    ensures Run(m, HeaderText(ls))
         == m.(cur := m.cur.(str := m.cur.str + Tail(ls), strLines := m.cur.strLines + |ls|))
    decreases |ls|
  {
    hide Feed, Esc;
    if ls == [] {
      assert m.cur.str + [] == m.cur.str;
    } else {
      FeedHeaderLine(m, ls[0]);
      var m' := m.(cur := m.cur.(str := m.cur.str + (ls[0] + [LF]), strLines := m.cur.strLines + 1));
      RunCons(m, [QUOTE] + (Esc(ls[0]) + [BS, 'n']) + [QUOTE], HeaderText(ls[1..]));
      RunHeaderText(m', ls[1..]);
      assert m.cur.str + (ls[0] + [LF]) + Tail(ls[1..]) == m.cur.str + (ls[0] + [LF] + Tail(ls[1..]));
    }
  }

  lemma RunHeaderStrings(m: Machine, h: PoEntry)
    requires m.field == NoField && m.header == None && m.cur == FRESH.(comments := h.comments, fuzzy := h.fuzzy)
    requires HeaderLike(h)
    ensures Run(m, [Quoted("msgid", []), Quoted("msgstr", [])] + (HeaderText(Split(RStripLf(h.str))) + [[]]))
         == m.(cur := FRESH, header := Some(NormalHeader(h)))
  {
    hide Feed, Run, HeaderText, Split, RStripLf;
    var ls := Split(RStripLf(h.str));
    var id, st := Quoted("msgid", []), Quoted("msgstr", []);
    var text := HeaderText(ls) + [[]];
    assert Esc([]) == [];
    OnValue(m, KId, []);
    var m1 := m.(field := IdField);
    OnValue(m1, KStr, []);
    var m2 := m1.(field := StrField);
    assert [id, st] + text == [id] + ([st] + text);
    RunCons(m, id, [st] + text);
    RunCons(m1, st, text);
    RunConcat(m2, HeaderText(ls), [[]]);
    RunHeaderText(m2, ls);
    TailIsJoin(ls);
    JoinSplit(RStripLf(h.str));
    var m3 := m2.(cur := m2.cur.(str := RStripLf(h.str) + [LF], strLines := 1 + |ls|));
    assert [] + Tail(ls) == Tail(ls);
    assert Run(m2, HeaderText(ls)) == m3;
    assert [""] == [""] + [];
    RunCons(m3, [], []);
    FeedBlank(m3);
    RunNothing(Flush(m3));
  }

  lemma RunNothing(m: Machine)
    ensures Run(m, []) == m
  {
  }

  lemma RunHeader(h: PoEntry)
    requires GoodComments(h) && HeaderLike(h)
    ensures Run(START, HeaderLines(h)) == START.(header := Some(NormalHeader(h)))
  {
    hide Run, IsComment, AnyFuzzy, HeaderText, Split, RStripLf;
    var rest := [Quoted("msgid", []), Quoted("msgstr", [])] + (HeaderText(Split(RStripLf(h.str))) + [[]]);
    RunConcat(START, h.comments, rest);
    RunComments(START, h.comments);
    assert [] + h.comments == h.comments;
    RunHeaderStrings(Run(START, h.comments), h);
  }

  // ------------------------------------------------ what the parser guarantees

  predicate Parsed(m: Machine) {
    && GoodComments(m.cur)
    && (m.header.Some? ==> HeaderLike(m.header.value) && GoodComments(m.header.value))
    && forall e :: e in m.entries ==> GoodComments(e) && (m.header.Some? || !HeaderLike(e))
  }

  lemma FlushKeeps(m: Machine)
    requires Parsed(m)
    ensures Parsed(Flush(m))
  {
  }

  lemma EmptyComments()
    ensures !AnyFuzzy([])
  {
  }

  lemma {:induction false} AnyFuzzySnoc(cs: seq<string>, c: string)
    ensures AnyFuzzy(cs + [c]) == (AnyFuzzy(cs) || IsFuzzy(c))
  {
    hide IsFuzzy;
    if cs == [] {
      assert [c][1..] == [];
    } else {
      assert (cs + [c])[1..] == cs[1..] + [c];
      AnyFuzzySnoc(cs[1..], c);
    }
  }

  lemma CommentKeeps(m: Machine, s: string)
    requires Parsed(m) && IsComment(s)
    ensures Parsed(OnComment(m, s))
  {
    FlushKeeps(m);
    hide IsComment, IsFuzzy, AnyFuzzy;
    var m' := if m.field != NoField then Flush(m) else m;
    AnyFuzzySnoc(m'.cur.comments, s);
  }

  lemma KeywordKeeps(m: Machine, kw: Keyword, q: string)
    requires Parsed(m) && Quotes(q)
    ensures Parsed(OnKeyword(m, kw, q))
  {
    hide Body, Unescape, BadEscapes, Inner, Quotes, GoodComments;
    if Body(Inner(q)) {
      FlushKeeps(m.(errors := m.errors + BadEscapes(Inner(q))));
      assert forall e: PoEntry, v :: GoodComments(e) ==> GoodComments(e.(ctxt := v)) by {
        CommentsOnly();
      }
      CommentsOnly();
    }
  }

  lemma CommentsOnly()
    ensures forall e: PoEntry, v :: GoodComments(e.(ctxt := v)) == GoodComments(e)
    ensures forall e: PoEntry, v :: GoodComments(e.(id := v)) == GoodComments(e)
    ensures forall e: PoEntry, v :: GoodComments(e.(str := v)) == GoodComments(e)
    ensures forall e: PoEntry, v, n :: GoodComments(e.(id := v, idLines := n)) == GoodComments(e)
    ensures forall e: PoEntry, v, n :: GoodComments(e.(str := v, strLines := n)) == GoodComments(e)
  {
  }

  lemma FeedKeeps(m: Machine, line: string)
    requires Parsed(m) && LF !in line
    ensures Parsed(Feed(m, line))
  {
    var s := Strip(line);
    StripIsTrim(line);
    hide Strip, Body, Unescape, BadEscapes, Inner, KeywordLine, OnKeyword, OnComment, GoodComments;
    if s == [] {
      FlushKeeps(m);
    } else if s[0] == '#' {
      CommentKeeps(m, s);
    } else if KeywordLine(s).Some? {
      KeywordKeeps(m, KeywordLine(s).value.0, KeywordLine(s).value.1);
    } else {
      CommentsOnly();
    }
  }

  lemma {:induction false} RunKeeps(m: Machine, ls: seq<string>)
    requires Parsed(m) && forall l :: l in ls ==> LF !in l
    ensures Parsed(Run(m, ls))
    decreases |ls|
  {
    if ls != [] {
      hide Feed, Parsed;
      FeedKeeps(m, ls[0]);
      RunKeeps(Feed(m, ls[0]), ls[1..]);
    }
  }

  lemma ParseKeeps(text: string)
    ensures Parsed(Parse(text)) && Parse(text).field == NoField
  {
    JoinSplit(ReplacePair(text, CR, LF, [LF]));
    EmptyComments();
    RunKeeps(START, Lines(text));
    FlushKeeps(Run(START, Lines(text)));
  }

  // ---------------------------------------------------------- printed lines

  lemma QuotedIsPlain(prefix: string, v: string)
    requires LF !in prefix
    ensures PlainLine(prefix + ([QUOTE] + Esc(v) + [QUOTE]))
    ensures PlainLine([QUOTE] + (Esc(v) + [BS, 'n']) + [QUOTE])
  {
    EscIsEncode(v);
    EncodeIsCanonical(v);
  }

  lemma QuotedPlain(kw: Keyword, v: string)
    ensures PlainLine(Quoted(Name(kw), Esc(v)))
  {
    assert LF !in Name(kw) + [' '];
    QuotedIsPlain(Name(kw) + [' '], v);
    assert Quoted(Name(kw), Esc(v)) == (Name(kw) + [' ']) + ([QUOTE] + Esc(v) + [QUOTE]);
  }

  predicate AllPlain(ls: seq<string>) {
    forall l :: l in ls ==> PlainLine(l)
  }

  lemma CommentsPlain(e: PoEntry)
    requires GoodComments(e)
    ensures AllPlain(e.comments)
  {
  }

  lemma EntryPlain(e: PoEntry)
    requires GoodComments(e)
    ensures AllPlain(EntryLines(e))
  {
    CommentsPlain(e);
    hide PlainLine, Esc, NewlineChain, Quoted, GoodComments;
    QuotedPlain(KId, e.id);
    QuotedPlain(KStr, NewlineChain(e.str, [CR, LF]));
    BlankPlain();
    if e.ctxt.Some? {
      QuotedPlain(KCtxt, e.ctxt.value);
    }
  }

  lemma BlankPlain()
    ensures PlainLine([]) && PlainLine(Quoted("msgid", [])) && PlainLine(Quoted("msgstr", []))
  {
  }

  lemma {:induction false} HeaderTextPlain(ls: seq<string>)
    ensures AllPlain(HeaderText(ls))
  {
    if ls != [] {
      QuotedIsPlain([], ls[0]);
      HeaderTextPlain(ls[1..]);
    }
  }

  lemma HeaderPlain(h: PoEntry)
    requires GoodComments(h)
    ensures AllPlain(HeaderLines(h))
  {
    CommentsPlain(h);
    BlankPlain();
    HeaderTextPlain(Split(RStripLf(h.str)));
    hide PlainLine, HeaderText, Split, RStripLf, Quoted, GoodComments;
  }

  lemma {:induction false} EntriesPlain(es: seq<PoEntry>)
    requires forall e :: e in es ==> GoodComments(e)
    ensures AllPlain(AllEntryLines(es))
  {
    if es != [] {
      hide GoodComments, EntryLines, PlainLine;
      assert es[0] in es;
      EntryPlain(es[0]);
      EntriesPlain(es[1..]);
    }
  }

  lemma PrintIsPlain(m: Machine)
    requires Parsed(m)
    ensures AllPlain(PrintLines(m.header, m.entries))
  {
    hide GoodComments, HeaderLines, AllEntryLines, PlainLine;
    EntriesPlain(m.entries);
    if m.header.Some? {
      HeaderPlain(m.header.value);
    }
  }

  // --------------------------------------------------------------- main results

  /** Parsing printed entries: from START, over the printed lines, to the normalized entries. */
  lemma RunPrinted(m: Machine)
    requires Parsed(m)
    ensures Run(START, PrintLines(m.header, m.entries)) == START.(
              header := if m.header.Some? then Some(NormalHeader(m.header.value)) else None,
              entries := NormalAll(m.entries))
  {
    hide Run, HeaderLines, AllEntryLines, GoodComments, Normal, NormalAll;
    var hl := if m.header.Some? then HeaderLines(m.header.value) else [];
    var start := START.(header := if m.header.Some? then Some(NormalHeader(m.header.value)) else None);
    RunConcat(START, hl, AllEntryLines(m.entries));
    if m.header.Some? {
      RunHeader(m.header.value);
    } else {
      RunNothing(START);
    }
    RunEntries(start, m.entries);
    assert [] + NormalAll(m.entries) == NormalAll(m.entries);
  }

  /** Printer and parser round trip. Whatever text was parsed, the printed form parses without an error to
      the same header and entries in order, each string on one physical line, msgstr newlines as CRLF and
      the header text with exactly one trailing newline. */
  lemma RoundTrip(text: string)
    ensures var m := Parse(text); var again := Parse(Print(m.header, m.entries));
      && again.header == (if m.header.Some? then Some(NormalHeader(m.header.value)) else None)
      && again.entries == NormalAll(m.entries)
      && again.errors == 0
  {
    var m := Parse(text);
    ParseKeeps(text);
    PrintIsPlain(m);
    var ls := PrintLines(m.header, m.entries);
    LinesOfJoin(ls);
    RunPrinted(m);
    hide Parse, Run, PrintLines, Parsed, Lines, Join;
    if ls == [] {
      NothingPrinted(m);
    }
    ParseOf(Print(m.header, m.entries));
  }

  lemma ParseOf(text: string)
    ensures Parse(text) == Flush(Run(START, Lines(text)))
  {
  }

  lemma NothingPrinted(m: Machine)
    requires PrintLines(m.header, m.entries) == []
    ensures Run(START, [[]]) == START && m.header == None && m.entries == []
  {
  }

  lemma {:induction false} RStripLfOnce(s: string)
    ensures RStripLf(RStripLf(s) + [LF]) == RStripLf(s)
  {
    assert (RStripLf(s) + [LF])[..|RStripLf(s)|] == RStripLf(s);
    RStripLfTwice(s);
  }

  lemma {:induction false} RStripLfTwice(s: string)
    ensures RStripLf(RStripLf(s)) == RStripLf(s)
  {
    if s != [] && s[|s| - 1] == LF {
      RStripLfTwice(s[..|s| - 1]);
    }
  }

  lemma {:induction false} SameEntryLines(es: seq<PoEntry>)
    ensures AllEntryLines(NormalAll(es)) == AllEntryLines(es)
  {
    if es != [] {
      var e := es[0];
      SameEntryLines(es[1..]);
      NewlineChainIsNewlines(e.str, [CR, LF]);
      NewlineChainIsNewlines(Newlines(e.str, [CR, LF]), [CR, LF]);
      NewlinesIdempotent(e.str, [CR, LF]);
      hide Newlines, NewlineChain, Esc;
      assert EntryLines(Normal(e)) == EntryLines(e);
      assert ([Normal(e)] + NormalAll(es[1..]))[1..] == NormalAll(es[1..]);
    }
  }

  /** Writing twice is byte-identical to writing once. */
  lemma PrintSettles(text: string)
    ensures var m := Parse(text); var out := Print(m.header, m.entries); var again := Parse(out);
      Print(again.header, again.entries) == out
  {
    var m := Parse(text);
    RoundTrip(text);
    hide Parse, AllEntryLines, NormalAll, Split, RStripLf, Join, HeaderText;
    SameEntryLines(m.entries);
    if m.header.Some? {
      RStripLfOnce(m.header.value.str);
      assert HeaderLines(NormalHeader(m.header.value)) == HeaderLines(m.header.value);
    }
  }
}
