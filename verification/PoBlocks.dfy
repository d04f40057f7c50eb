/** What the parser makes of a file written as blocks: comments, keyword lines, continuation lines and blank lines laid
    out in any way the format allows (po_sanity.py `parse_po`, `_unescape`). */
module PoBlocks {
  import opened Text
  import opened Wrappers
  import opened PoFile

  // ------------------------------------------------------------ quoted text

  /** A character of a quoted string: one that stands for itself, or one behind a backslash. */
  datatype Unit = Char(c: char) | Escape(c: char)

  predicate GoodUnit(u: Unit) {
    if u.Char? then u.c != '\\' && u.c != '\"' && u.c != '\n' else u.c != '\n'
  }

  predicate Good(us: seq<Unit>) {
    forall u :: u in us ==> GoodUnit(u)
  }

  function UnitText(u: Unit): string {
    if u.Char? then [u.c] else ['\\', u.c]
  }

  /** The text between the quotes. */
  function Spell(us: seq<Unit>): string {
    if us == [] then [] else UnitText(us[0]) + Spell(us[1..])
  }

  /** What an escape stands for; None when there is no such escape. */
  function EscapeValue(c: char): Option<char> {
    if c == 'n' then Some('\n')
    else if c == 't' then Some('\t')
    else if c == 'r' then Some('\r')
    else if c == '\\' || c == '\"' || c == '\'' || c == 'a' || c == 'b' || c == 'f' || c == 'v' then Some(c)
    else None
  }

  /** The text meant: an escape that does not exist is dropped. */
  function Meaning(us: seq<Unit>): string {
    if us == [] then []
    else (if us[0].Char? then [us[0].c]
          else if EscapeValue(us[0].c).Some? then [EscapeValue(us[0].c).value] else []) + Meaning(us[1..])
  }

  /** The escapes that do not exist. */
  function Unknown(us: seq<Unit>): nat {
    if us == [] then 0
    else (if us[0].Escape? && EscapeValue(us[0].c).None? then 1 else 0) + Unknown(us[1..])
  }

  lemma UnitFacts(u: Unit, rest: string)
    requires GoodUnit(u)
    ensures Body(UnitText(u) + rest) == Body(rest)
    ensures Unescape(UnitText(u) + rest) == (if u.Char? then [u.c]
              else if EscapeValue(u.c).Some? then [EscapeValue(u.c).value] else []) + Unescape(rest)
    ensures BadEscapes(UnitText(u) + rest)
         == (if u.Escape? && EscapeValue(u.c).None? then 1 else 0) + BadEscapes(rest)
  {
    var s := UnitText(u) + rest;
    assert if u.Char? then s[1..] == rest else s[2..] == rest;
  }

  lemma {:induction false} SpellFacts(us: seq<Unit>)
    requires Good(us)
    ensures Body(Spell(us)) && Unescape(Spell(us)) == Meaning(us) && BadEscapes(Spell(us)) == Unknown(us)
  {
    if us != [] {
      hide Body, Unescape, BadEscapes, GoodUnit, UnitText, EscapeValue;
      assert us[0] in us;
      SpellFacts(us[1..]);
      UnitFacts(us[0], Spell(us[1..]));
    } else {
      assert Body([]) && Unescape([]) == [] && BadEscapes([]) == 0;
    }
  }

  /** A quoted body is well formed exactly when it can be spelled: no bare quote and no lone backslash at its end. */
  lemma {:induction false} BodyExact(b: string) returns (us: seq<Unit>)
    requires LF !in b
    ensures Body(b) <==> Good(us) && Spell(us) == b
  {
    us := [];
    if b != [] && b[0] == BS && |b| >= 2 {
      assert b == [BS, b[1]] + b[2..];
      var rest := BodyExact(b[2..]);
      us := [Escape(b[1])] + rest;
      assert us[1..] == rest;
      SpellCons(Escape(b[1]), rest);
    } else if b != [] && b[0] != BS && b[0] != QUOTE {
      assert b == [b[0]] + b[1..];
      var rest := BodyExact(b[1..]);
      us := [Char(b[0])] + rest;
      assert us[1..] == rest;
      SpellCons(Char(b[0]), rest);
    }
  }

  lemma SpellCons(u: Unit, us: seq<Unit>)
    ensures Spell([u] + us) == UnitText(u) + Spell(us)
    ensures Good([u] + us) <==> GoodUnit(u) && Good(us)
  {
    assert ([u] + us)[1..] == us;
    assert forall v :: v in [u] + us <==> v == u || v in us;
  }

  // ------------------------------------------------------------------- blocks

  /** What stands together in a file. A string that is absent has no pieces; otherwise its first piece stands behind the
      keyword, and every further piece on a line of its own. */
  datatype Block = Block(comments: seq<string>, ctxt: seq<seq<Unit>>, id: seq<seq<Unit>>, plural: seq<seq<Unit>>,
                         str: seq<seq<Unit>>, index: string, gap: string, blanks: nat)

  predicate AllGood(pieces: seq<seq<Unit>>) {
    forall p :: p in pieces ==> Good(p)
  }

  /** The index of a plural form: nothing, or digits in brackets. */
  predicate IsIndex(s: string) {
    s == [] || (|s| >= 3 && s[0] == '[' && s[|s| - 1] == ']' && forall i :: 1 <= i < |s| - 1 ==> '0' <= s[i] <= '9')
  }

  predicate GoodBlock(b: Block) {
    && (forall c :: c in b.comments ==> c != [] && c[0] == '#')
    && AllGood(b.ctxt) && AllGood(b.id) && AllGood(b.plural) && AllGood(b.str)
    && IsIndex(b.index) && b.gap != [] && forall c :: c in b.gap ==> IsSpace(c)
  }

  function Between(us: seq<Unit>): string {
    ['\"'] + Spell(us) + ['\"']
  }

  function More(pieces: seq<seq<Unit>>): seq<string> {
    if pieces == [] then [] else [Between(pieces[0])] + More(pieces[1..])
  }

  function Part(word: string, gap: string, pieces: seq<seq<Unit>>): seq<string> {
    if pieces == [] then [] else [word + gap + Between(pieces[0])] + More(pieces[1..])
  }

  function Strings(b: Block): seq<string> {
    Part("msgctxt", b.gap, b.ctxt) + (Part("msgid", b.gap, b.id) + (Part("msgid_plural", b.gap, b.plural)
    + Part("msgstr" + b.index, b.gap, b.str)))
  }

  function Blanks(n: nat): (ls: seq<string>)
    ensures |ls| == n && forall i :: 0 <= i < n ==> ls[i] == []
  {
    seq(n, _ => [])
  }

  /** The lines of a file, stripped. */
  function FileLines(bs: seq<Block>): seq<string> {
    if bs == [] then [] else bs[0].comments + (Strings(bs[0]) + (Blanks(bs[0].blanks) + FileLines(bs[1..])))
  }

  /** The block has a string. */
  predicate Present(b: Block) {
    b.ctxt != [] || b.id != [] || b.plural != [] || b.str != []
  }

  /** The line that opens the block shows that the entry before it has ended. */
  predicate Opens(b: Block) {
    b.comments != [] || b.ctxt != [] || b.id != []
  }

  /** Blocks are told apart: by a blank line, or because the one has its msgstr and the other opens as an entry does. */
  predicate ToldApart(bs: seq<Block>) {
    forall i :: 0 <= i < |bs| - 1 ==> bs[i].blanks > 0 || (bs[i].str != [] && Opens(bs[i + 1]))
  }

  // ------------------------------------------------------------ what it says

  function Said(pieces: seq<seq<Unit>>): string {
    if pieces == [] then [] else Meaning(pieces[0]) + Said(pieces[1..])
  }

  function Flaws(pieces: seq<seq<Unit>>): nat {
    if pieces == [] then 0 else Unknown(pieces[0]) + Flaws(pieces[1..])
  }

  function Further(pieces: seq<seq<Unit>>): nat {
    if pieces == [] then 0 else |pieces| - 1
  }

  predicate Occurs(w: string, s: string, k: nat) {
    k + |w| <= |s| && s[k..k + |w|] == w
  }

  ghost predicate SaysFuzzy(comment: string) {
    |comment| >= 2 && comment[1] == ',' && exists k: nat :: Occurs("fuzzy", comment, k)
  }

  /** The entry of a block: each string is its pieces read one after the other, and counts its lines. What stands behind
      msgid_plural itself is dropped, what follows it belongs to msgid. */
  ghost function EntryOf(b: Block): PoEntry {
    PoEntry(if b.ctxt == [] then None else Some(Said(b.ctxt)),
            Said(b.id) + (if b.plural == [] then [] else Said(b.plural[1..])), Said(b.str),
            1 + Further(b.id) + Further(b.plural), 1 + Further(b.str), b.comments,
            exists c :: c in b.comments && SaysFuzzy(c))
  }

  /** Unknown escapes, a missing msgstr, and a msgstr without a msgid. */
  function Faults(b: Block): nat {
    Flaws(b.ctxt) + Flaws(b.id) + Flaws(b.plural) + Flaws(b.str)
    + (if Present(b) && b.str == [] then 1 else 0)
    + (if b.str != [] && b.id == [] && b.plural == [] then 1 else 0)
  }

  ghost function EntriesOf(bs: seq<Block>): seq<PoEntry> {
    if bs == [] then [] else (if Present(bs[0]) then [EntryOf(bs[0])] else []) + EntriesOf(bs[1..])
  }

  function AllFaults(bs: seq<Block>): nat {
    if bs == [] then 0 else Faults(bs[0]) + AllFaults(bs[1..])
  }

  predicate IsHeader(e: PoEntry) {
    e.ctxt == None && e.id == []
  }

  /** The index of the header among the entries, or their number. */
  function HeaderAt(es: seq<PoEntry>): (h: nat)
    ensures h <= |es| && (h < |es| ==> IsHeader(es[h])) && forall j :: 0 <= j < h ==> !IsHeader(es[j])
  {
    if es == [] || IsHeader(es[0]) then 0 else 1 + HeaderAt(es[1..])
  }

  // ------------------------------------------------------------ feeding a part

  function Word(kw: Keyword): string {
    match kw
    case KCtxt => "msgctxt"
    case KId => "msgid"
    case KPlural => "msgid_plural"
    case KStr => "msgstr"
  }

  lemma {:induction false} DigitsAll(s: string, rest: string)
    requires (forall c :: c in s ==> '0' <= c <= '9') && rest != [] && rest[0] == ']'
    ensures DigitsLen(s + rest) == |s|
  {
    if s == [] {
      assert s + rest == rest;
    } else {
      assert s[0] in s && (s + rest)[1..] == s[1..] + rest;
      assert forall c :: c in s[1..] ==> c in s;
      DigitsAll(s[1..], rest);
    }
  }

  lemma IndexIs(index: string, rest: string)
    requires IsIndex(index) && rest != [] && rest[0] != '['
    ensures IndexLen(index + rest) == |index|
  {
    if index == [] {
      assert index + rest == rest;
    } else {
      var d, tail := index[1..|index| - 1], [']'] + rest;
      assert index == ['['] + d + [']'];
      assert (index + rest)[1..] == d + tail;
      DigitsAll(d, tail);
    }
  }

  lemma WordThen(word: string, rest: string)
    ensures word <= word + rest && (word + rest)[|word|..] == rest
  {
  }

  lemma Starts(w: string, s: string, i: nat)
    requires i < |w| && (i < |s| ==> w[i] != s[i])
    ensures !(w <= s)
  {
  }

  lemma KeywordOfWord(kw: Keyword, index: string, rest: string)
    requires IsIndex(index) && (kw != KStr ==> index == []) && rest != [] && IsSpace(rest[0])
    ensures KeywordOf(Word(kw) + (index + rest)) == Some((kw, rest))
  {
    hide IndexLen, IsSpace;
    var s := Word(kw) + (index + rest);
    WordThen(Word(kw), index + rest);
    assert rest[0] != '_' && rest[0] != '[' by {
      NoBlank(rest[0]);
    }
    if kw == KStr {
      Starts("msgctxt", s, 3);
      Starts("msgid_plural", s, 3);
      Starts("msgid", s, 3);
      IndexIs(index, rest);
      WordThen(Word(kw) + index, rest);
      assert s == (Word(kw) + index) + rest;
    } else {
      assert index + rest == rest;
      if kw != KCtxt {
        Starts("msgctxt", s, 3);
      }
      if kw == KId {
        Starts("msgid_plural", s, 5);
      }
    }
  }

  lemma NoBlank(c: char)
    requires IsSpace(c)
    ensures c != '_' && c != '['
  {
  }

  lemma {:induction false} GapGoes(gap: string, q: string)
    requires (forall c :: c in gap ==> IsSpace(c)) && (q == [] || !IsSpace(q[0]))
    ensures LStrip(gap + q) == q
  {
    if gap == [] {
      assert gap + q == q;
    } else {
      assert gap[0] in gap && (gap + q)[1..] == gap[1..] + q;
      GapGoes(gap[1..], q);
    }
  }

  lemma WordEnds(kw: Keyword, between: string, body: string)
    ensures var s := Word(kw) + between + Quote(body);
      s != [] && s[0] == 'm' && s[|s| - 1] == QUOTE && IsTrimmed(s)
  {
  }

  lemma FeedWord(m: Machine, kw: Keyword, index: string, gap: string, body: string)
    requires IsIndex(index) && (kw != KStr ==> index == []) && gap != [] && forall c :: c in gap ==> IsSpace(c)
    ensures Quotes(Quote(body))
    ensures Feed(m, Word(kw) + index + gap + Quote(body)) == OnKeyword(m, kw, Quote(body))
  {
    hide Strip, OnContinuation, OnKeyword, OnComment, Flush, LStrip, KeywordOf, IsIndex, Word, Quotes, Quote;
    QuoteFacts(body);
    var rest := gap + Quote(body);
    var s := Word(kw) + index + gap + Quote(body);
    assert s == Word(kw) + (index + rest);
    WordEnds(kw, index + gap, body);
    assert Word(kw) + (index + gap) + Quote(body) == s;
    StripTrimmed(s);
    assert gap[0] in gap;
    KeywordOfWord(kw, index, rest);
    GapGoes(gap, Quote(body));
  }

  /** The entry with n more lines, saying t, on its string f. */
  function Extended(e: PoEntry, f: Field, t: string, n: nat): PoEntry {
    match f
    case CtxtField => e.(ctxt := Some((if e.ctxt.Some? then e.ctxt.value else []) + t))
    case IdField => e.(id := e.id + t, idLines := e.idLines + n)
    case StrField => e.(str := e.str + t, strLines := e.strLines + n)
    case NoField => e
  }

  lemma ExtendedNothing(e: PoEntry, f: Field)
    requires f == CtxtField ==> e.ctxt.Some?
    ensures Extended(e, f, [], 0) == e
  {
    assert e.id + [] == e.id && e.str + [] == e.str;
    if f == CtxtField {
      assert e.ctxt.value + [] == e.ctxt.value;
    }
  }

  lemma ExtendedTwice(e: PoEntry, f: Field, t: string, u: string, n: nat, k: nat)
    ensures Extended(Extended(e, f, t, n), f, u, k) == Extended(e, f, t + u, n + k)
  {
    assert e.id + t + u == e.id + (t + u) && e.str + t + u == e.str + (t + u);
    if e.ctxt.Some? {
      assert e.ctxt.value + t + u == e.ctxt.value + (t + u);
    } else {
      assert [] + t + u == [] + (t + u);
    }
  }

  lemma FeedMore(m: Machine, us: seq<Unit>)
    requires Good(us) && m.field != NoField
    ensures Feed(m, Between(us))
         == m.(cur := Extended(m.cur, m.field, Meaning(us), 1), errors := m.errors + Unknown(us))
  {
    hide Good, Spell, Meaning, Unknown, Feed, Body, Unescape, BadEscapes, Quotes, Inner;
    SpellFacts(us);
    QuoteFacts(Spell(us));
    FeedText(m, Spell(us));
  }

  lemma {:induction false} RunMore(m: Machine, pieces: seq<seq<Unit>>)
    requires AllGood(pieces) && m.field != NoField && (m.field == CtxtField ==> m.cur.ctxt.Some?)
    ensures Run(m, More(pieces))
         == m.(cur := Extended(m.cur, m.field, Said(pieces), |pieces|), errors := m.errors + Flaws(pieces))
    decreases |pieces|
  {
    hide Good, Feed, Extended, Meaning, Unknown, Between;
    if pieces == [] {
      ExtendedNothing(m.cur, m.field);
    } else {
      var p, rest := pieces[0], pieces[1..];
      assert p in pieces && forall q :: q in rest ==> q in pieces;
      FeedMore(m, p);
      var m' := m.(cur := Extended(m.cur, m.field, Meaning(p), 1), errors := m.errors + Unknown(p));
      assert m.field == CtxtField ==> m'.cur.ctxt.Some? by {
        KeepsCtxt(m.cur, m.field, Meaning(p));
      }
      RunMore(m', rest);
      ExtendedTwice(m.cur, m.field, Meaning(p), Said(rest), 1, |rest|);
      RunCons(m, Between(p), More(rest));
    }
  }

  lemma KeepsCtxt(e: PoEntry, f: Field, t: string)
    ensures f == CtxtField ==> Extended(e, f, t, 1).ctxt.Some?
  {
  }

  /** What a keyword line sets. */
  function Set(m: Machine, kw: Keyword, t: string): Machine {
    match kw
    case KCtxt => m.(cur := m.cur.(ctxt := Some(t)), field := CtxtField)
    case KId => m.(cur := m.cur.(id := t), field := IdField)
    case KPlural => m.(field := IdField)
    case KStr =>
      m.(cur := m.cur.(str := t), field := StrField, errors := m.errors + if m.field == IdField then 0 else 1)
  }

  lemma FeedFirst(m: Machine, kw: Keyword, index: string, gap: string, us: seq<Unit>)
    requires IsIndex(index) && (kw != KStr ==> index == []) && gap != [] && forall c :: c in gap ==> IsSpace(c)
    requires Good(us)
    requires (kw == KCtxt ==> m.field == NoField) && (kw == KId ==> m.field == NoField || m.field == CtxtField)
    ensures Feed(m, (Word(kw) + index) + gap + Between(us))
         == Set(m.(errors := m.errors + Unknown(us)), kw, Meaning(us))
  {
    hide Good, Spell, Meaning, Unknown, Feed, Body, Unescape, BadEscapes, Quotes, Inner, Flush, IsIndex, Word;
    SpellFacts(us);
    QuoteFacts(Spell(us));
    FeedWord(m, kw, index, gap, Spell(us));
  }

  /** A part of a block: what it sets and what it adds. */
  function AfterPart(m: Machine, kw: Keyword, pieces: seq<seq<Unit>>): Machine {
    if pieces == [] then m
    else
      var s := Set(m, kw, Meaning(pieces[0]));
      s.(cur := Extended(s.cur, s.field, Said(pieces[1..]), |pieces| - 1), errors := s.errors + Flaws(pieces))
  }

  lemma SetFacts(m: Machine, kw: Keyword, t: string, e: nat)
    ensures var s := Set(m, kw, t);
      && s.field != NoField && (s.field == CtxtField ==> s.cur.ctxt.Some?)
      && Set(m.(errors := m.errors + e), kw, t) == s.(errors := s.errors + e)
  {
  }

  lemma FlawsCons(pieces: seq<seq<Unit>>)
    requires pieces != []
    ensures Flaws(pieces) == Unknown(pieces[0]) + Flaws(pieces[1..])
  {
  }

  lemma RunPart(m: Machine, kw: Keyword, index: string, gap: string, pieces: seq<seq<Unit>>)
    requires IsIndex(index) && (kw != KStr ==> index == []) && gap != [] && forall c :: c in gap ==> IsSpace(c)
    requires AllGood(pieces)
    requires (kw == KCtxt ==> m.field == NoField) && (kw == KId ==> m.field == NoField || m.field == CtxtField)
    ensures Run(m, Part(Word(kw) + index, gap, pieces)) == AfterPart(m, kw, pieces)
  {
    hide Good, Feed, Extended, Meaning, Unknown, Between, IsIndex, Word, More, Run, Set, Flaws, Said;
    if pieces == [] {
      RunNothing(m);
    } else {
      var p, rest := pieces[0], pieces[1..];
      assert p in pieces && forall q :: q in rest ==> q in pieces;
      FeedFirst(m, kw, index, gap, p);
      var s := Set(m.(errors := m.errors + Unknown(p)), kw, Meaning(p));
      SetFacts(m, kw, Meaning(p), Unknown(p));
      FlawsCons(pieces);
      RunCons(m, (Word(kw) + index) + gap + Between(p), More(rest));
      RunMore(s, rest);
    }
  }

  // ----------------------------------------------------------- feeding a block

  /** After the strings of a block. */
  function AfterStrings(m: Machine, b: Block): Machine {
    AfterPart(AfterPart(AfterPart(AfterPart(m, KCtxt, b.ctxt), KId, b.id), KPlural, b.plural), KStr, b.str)
  }

  lemma RunStrings(m: Machine, b: Block)
    requires GoodBlock(b) && m.field == NoField
    ensures Run(m, Strings(b)) == AfterStrings(m, b)
  {
    hide Run, Part, AllGood, IsIndex, Meaning, Said, Flaws;
    var a1 := AfterPart(m, KCtxt, b.ctxt);
    var a2 := AfterPart(a1, KId, b.id);
    var a3 := AfterPart(a2, KPlural, b.plural);
    var p4 := Part("msgstr" + b.index, b.gap, b.str);
    var p3 := Part("msgid_plural", b.gap, b.plural);
    var p2 := Part("msgid", b.gap, b.id);
    assert IsIndex([]) by {
      NoIndex();
    }
    assert "msgctxt" + [] == "msgctxt" && "msgid" + [] == "msgid" && "msgid_plural" + [] == "msgid_plural";
    RunPart(m, KCtxt, [], b.gap, b.ctxt);
    RunPart(a1, KId, [], b.gap, b.id);
    RunPart(a2, KPlural, [], b.gap, b.plural);
    RunPart(a3, KStr, b.index, b.gap, b.str);
    RunConcat(m, Part("msgctxt", b.gap, b.ctxt), p2 + (p3 + p4));
    RunConcat(a1, p2, p3 + p4);
    RunConcat(a2, p3, p4);
  }

  lemma NoIndex()
    ensures IsIndex([])
  {
  }

  /** The entry a block spells, with the comments in front of it. */
  function Spelled(b: Block, comments: seq<string>, fuzzy: bool): PoEntry {
    PoEntry(if b.ctxt == [] then None else Some(Said(b.ctxt)),
            Said(b.id) + (if b.plural == [] then [] else Said(b.plural[1..])), Said(b.str),
            1 + Further(b.id) + Further(b.plural), 1 + Further(b.str), comments, fuzzy)
  }

  function LastField(b: Block): Field {
    if b.str != [] then StrField
    else if b.id != [] || b.plural != [] then IdField
    else if b.ctxt != [] then CtxtField
    else NoField
  }

  lemma SaidAll(pieces: seq<seq<Unit>>)
    ensures pieces == [] ==> Said(pieces) == []
    ensures pieces != [] ==> Meaning(pieces[0]) + Said(pieces[1..]) == Said(pieces)
  {
  }

  lemma AfterCtxt(m: Machine, pieces: seq<seq<Unit>>)
    requires m.field == NoField && m.cur.ctxt == None
    ensures AfterPart(m, KCtxt, pieces) == if pieces == [] then m else
      m.(cur := m.cur.(ctxt := Some(Said(pieces))), field := CtxtField, errors := m.errors + Flaws(pieces))
  {
    hide Meaning, Said, Flaws;
    SaidAll(pieces);
  }

  lemma AfterId(m: Machine, pieces: seq<seq<Unit>>)
    requires m.cur.id == [] && m.cur.idLines == 1
    ensures AfterPart(m, KId, pieces) == if pieces == [] then m else
      m.(cur := m.cur.(id := Said(pieces), idLines := 1 + Further(pieces)), field := IdField,
         errors := m.errors + Flaws(pieces))
  {
    hide Meaning, Said, Flaws;
    SaidAll(pieces);
  }

  lemma AfterPlural(m: Machine, pieces: seq<seq<Unit>>)
    ensures AfterPart(m, KPlural, pieces) == if pieces == [] then m else
      m.(cur := m.cur.(id := m.cur.id + Said(pieces[1..]), idLines := m.cur.idLines + Further(pieces)),
         field := IdField, errors := m.errors + Flaws(pieces))
  {
    hide Meaning, Said, Flaws;
  }

  lemma AfterStr(m: Machine, pieces: seq<seq<Unit>>)
    requires m.cur.str == [] && m.cur.strLines == 1
    ensures AfterPart(m, KStr, pieces) == if pieces == [] then m else
      m.(cur := m.cur.(str := Said(pieces), strLines := 1 + Further(pieces)), field := StrField,
         errors := m.errors + Flaws(pieces) + if m.field == IdField then 0 else 1)
  {
    hide Meaning, Said, Flaws;
    SaidAll(pieces);
  }

  lemma AfterStringsIs(m: Machine, b: Block, comments: seq<string>, fuzzy: bool)
    requires m.field == NoField && m.cur == FRESH.(comments := comments, fuzzy := fuzzy)
    ensures AfterStrings(m, b) == if !Present(b) then m else
      m.(cur := Spelled(b, comments, fuzzy), field := LastField(b),
         errors := m.errors + Flaws(b.ctxt) + Flaws(b.id) + Flaws(b.plural) + Flaws(b.str)
                   + if b.str != [] && b.id == [] && b.plural == [] then 1 else 0)
  {
    hide AfterPart, Said, Flaws;
    var a1 := AfterPart(m, KCtxt, b.ctxt);
    AfterCtxt(m, b.ctxt);
    var a2 := AfterPart(a1, KId, b.id);
    AfterId(a1, b.id);
    var a3 := AfterPart(a2, KPlural, b.plural);
    AfterPlural(a2, b.plural);
    AfterStr(a3, b.str);
    assert Said([]) == [] && Flaws([]) == 0 by {
      NothingSaid();
    }
    assert Said(b.id) + [] == Said(b.id);
  }

  lemma NothingSaid()
    ensures Said([]) == [] && Flaws([]) == 0
  {
  }

  // --------------------------------------------------------------- comments

  lemma {:induction false} ContainsExact(s: string, w: string)
    ensures Contains(s, w) <==> exists k: nat :: Occurs(w, s, k)
  {
    if w <= s {
      assert Occurs(w, s, 0);
    } else if s != [] {
      hide Occurs;
      ContainsExact(s[1..], w);
      if k: nat :| Occurs(w, s[1..], k) {
        OccursNext(w, s, k);
        assert Occurs(w, s, k + 1);
      }
      if k: nat :| Occurs(w, s, k) {
        NotFirst(w, s, k);
        OccursNext(w, s, k - 1);
        assert Occurs(w, s[1..], k - 1);
      }
    } else {
      forall k: nat ensures Occurs(w, s, k) ==> k > 0 {
        NotFirst(w, s, k);
      }
    }
  }

  lemma OccursNext(w: string, s: string, k: nat)
    requires s != []
    ensures Occurs(w, s[1..], k) <==> Occurs(w, s, k + 1)
  {
    if k + |w| <= |s[1..]| {
      assert s[1..][k..k + |w|] == s[k + 1..k + 1 + |w|];
    }
  }

  lemma NotFirst(w: string, s: string, k: nat)
    requires !(w <= s)
    ensures Occurs(w, s, k) ==> k > 0
  {
  }

  lemma OneFuzzy(c: string)
    ensures IsFuzzy(c) <==> SaysFuzzy(c)
  {
    hide Contains, Occurs;
    ContainsExact(c, "fuzzy");
  }

  lemma {:induction false} FuzzyExact(comments: seq<string>)
    ensures AnyFuzzy(comments) <==> exists c :: c in comments && SaysFuzzy(c)
  {
    hide IsFuzzy, SaysFuzzy;
    if comments != [] {
      FuzzyExact(comments[1..]);
      OneFuzzy(comments[0]);
      assert forall c :: c in comments <==> c == comments[0] || c in comments[1..];
    }
  }

  // -------------------------------------------------------------- whole files

  function Added(m: Machine, b: Block, fuzzy: bool): Machine {
    if !Present(b) then m
    else
      var e, n := Spelled(b, b.comments, fuzzy), m.(errors := m.errors + Faults(b));
      if n.header == None && IsHeader(e) then n.(header := Some(e)) else n.(entries := n.entries + [e])
  }

  predicate Commented(b: Block) {
    forall c :: c in b.comments ==> IsComment(c)
  }

  predicate Idle(m: Machine) {
    m.field == NoField && m.cur == FRESH
  }

  lemma RunBlock(m: Machine, b: Block)
    requires Idle(m) && GoodBlock(b) && Commented(b)
    ensures var n := Run(m, b.comments + Strings(b));
      && Flush(n) == Added(m, b, AnyFuzzy(b.comments))
      && (b.str != [] ==> n.field == StrField)
  {
    hide Run, Strings, GoodBlock, IsComment, AnyFuzzy, AfterStrings, Said, Flaws;
    var m1 := m.(cur := m.cur.(comments := b.comments, fuzzy := AnyFuzzy(b.comments)));
    RunConcat(m, b.comments, Strings(b));
    RunComments(m, b.comments);
    assert [] + b.comments == b.comments;
    RunStrings(m1, b);
    AfterStringsIs(m1, b, b.comments, AnyFuzzy(b.comments));
  }

  lemma CommentFlushes(m: Machine, s: string)
    requires m.field == StrField && IsComment(s)
    ensures Feed(m, s) == Feed(Flush(m), s)
  {
    hide IsFuzzy;
    FeedComment(m, s);
    FeedComment(Flush(m), s);
    hide Feed, IsComment;
  }

  lemma WordFlushes(m: Machine, kw: Keyword, gap: string, us: seq<Unit>)
    requires m.field == StrField && kw in {KCtxt, KId} && Good(us)
    requires gap != [] && forall c :: c in gap ==> IsSpace(c)
    ensures Feed(m, Word(kw) + gap + Between(us)) == Feed(Flush(m), Word(kw) + gap + Between(us))
  {
    hide Good, Spell, Feed, Body, Unescape, BadEscapes, Quotes, Inner;
    SpellFacts(us);
    QuoteFacts(Spell(us));
    assert Word(kw) + [] == Word(kw);
    FeedWord(m, kw, [], gap, Spell(us));
    FeedWord(Flush(m), kw, [], gap, Spell(us));
  }

  /** A block that opens as an entry does ends the entry before it. */
  lemma OpeningFlushes(m: Machine, b: Block)
    requires m.field == StrField && GoodBlock(b) && Commented(b) && Opens(b)
    ensures Run(m, b.comments + Strings(b)) == Run(Flush(m), b.comments + Strings(b))
  {
    hide Run, Feed, IsComment, Good, Between, IsIndex, More, Flush;
    var ls := b.comments + Strings(b);
    var first, rest := ls[0], ls[1..];
    assert ls == [first] + rest;
    if b.comments != [] {
      assert first == b.comments[0] && b.comments[0] in b.comments;
      CommentFlushes(m, first);
    } else if b.ctxt != [] {
      assert first == "msgctxt" + b.gap + Between(b.ctxt[0]) && b.ctxt[0] in b.ctxt;
      WordFlushes(m, KCtxt, b.gap, b.ctxt[0]);
    } else {
      assert first == "msgid" + b.gap + Between(b.id[0]) && b.id[0] in b.id;
      WordFlushes(m, KId, b.gap, b.id[0]);
    }
    RunCons(m, first, rest);
    RunCons(Flush(m), first, rest);
  }

  lemma {:induction false} RunBlanks(m: Machine, n: nat)
    requires n > 0
    ensures Run(m, Blanks(n)) == Flush(m)
    decreases n
  {
    hide Feed, Run;
    FeedBlank(m);
    assert Blanks(n) == [[]] + Blanks(n - 1);
    RunCons(m, [], Blanks(n - 1));
    if n == 1 {
      RunNothing(Flush(m));
    } else {
      RunBlanks(Flush(m), n - 1);
    }
  }

  function AddAll(m: Machine, bs: seq<Block>): Machine
    decreases |bs|
  {
    if bs == [] then m else AddAll(Added(m, bs[0], AnyFuzzy(bs[0].comments)), bs[1..])
  }

  lemma AddedIdle(m: Machine, b: Block, fuzzy: bool)
    requires Idle(m)
    ensures Idle(Added(m, b, fuzzy)) && Flush(Added(m, b, fuzzy)) == Added(m, b, fuzzy)
  {
  }

  lemma FileCons(b: Block, rest: seq<Block>)
    ensures FileLines([b] + rest) == (b.comments + Strings(b)) + (Blanks(b.blanks) + FileLines(rest))
  {
    hide Strings;
    assert ([b] + rest)[1..] == rest;
  }

  lemma {:induction false} RunFile(m: Machine, idle: Machine, bs: seq<Block>)
    requires Idle(idle) && Flush(m) == idle && ToldApart(bs)
    requires m == idle || bs == [] || (m.field == StrField && Opens(bs[0]))
    requires forall b :: b in bs ==> GoodBlock(b) && Commented(b)
    ensures Flush(Run(m, FileLines(bs))) == AddAll(idle, bs)
    decreases |bs|
  {
    hide Run, Flush, GoodBlock, Commented, Added, AnyFuzzy, Strings, FileLines, Idle;
    if bs == [] {
      NoBlocks(m);
    } else {
      var b, rest := bs[0], bs[1..];
      assert b in bs && bs == [b] + rest && forall x :: x in rest ==> x in bs;
      FileCons(b, rest);
      var next := Added(idle, b, AnyFuzzy(b.comments));
      AddedIdle(idle, b, AnyFuzzy(b.comments));
      RunBlock(idle, b);
      if m != idle {
        OpeningFlushes(m, b);
      }
      var n := Run(idle, b.comments + Strings(b));
      RunConcat(m, b.comments + Strings(b), Blanks(b.blanks) + FileLines(rest));
      RunConcat(n, Blanks(b.blanks), FileLines(rest));
      assert ToldApart(rest) by {
        forall i | 0 <= i < |rest| - 1 ensures rest[i].blanks > 0 || (rest[i].str != [] && Opens(rest[i + 1])) {
          assert rest[i] == bs[i + 1] && rest[i + 1] == bs[i + 1 + 1];
        }
      }
      assert rest != [] && b.blanks == 0 ==> b.str != [] && Opens(rest[0]) by {
        assert rest != [] ==> bs[0 + 1] == rest[0];
      }
      if b.blanks > 0 {
        RunBlanks(n, b.blanks);
        RunFile(next, next, rest);
      } else {
        assert Blanks(0) == [];
        RunNothing(n);
        RunFile(n, next, rest);
      }
    }
  }

  lemma NoBlocks(m: Machine)
    ensures Run(m, FileLines([])) == m
  {
  }

  // ------------------------------------------------------------ laid-out text

  /** The lines as one text, each but the last ended by LF or CRLF. */
  function Laid(lines: seq<string>, crlf: seq<bool>): string
    requires |crlf| == |lines|
  {
    if lines == [] then []
    else if |lines| == 1 then lines[0]
    else lines[0] + (if crlf[0] then "\r\n" else "\n") + Laid(lines[1..], crlf[1..])
  }

  lemma {:induction false} LaidNoCrlf(lines: seq<string>, crlf: seq<bool>)
    requires |crlf| == |lines| && forall l :: l in lines ==> PlainLine(l)
    ensures ReplacePair(Laid(lines, crlf), CR, LF, [LF]) == Join(lines)
  {
    if lines == [] {
    } else if |lines| == 1 {
      assert lines[0] in lines && lines[0] + [] == lines[0];
      PlainNoCrlf(lines[0], []);
    } else {
      hide ReplacePair, Laid, PlainLine;
      var l, tail := lines[0], Laid(lines[1..], crlf[1..]);
      assert l in lines && forall x :: x in lines[1..] ==> x in lines;
      LaidNoCrlf(lines[1..], crlf[1..]);
      LaidCons(lines, crlf);
      LineEnd(l, crlf[0], tail);
      JoinCons(lines);
    }
  }

  lemma LaidCons(lines: seq<string>, crlf: seq<bool>)
    requires |crlf| == |lines| && |lines| >= 2
    ensures Laid(lines, crlf) == lines[0] + ((if crlf[0] then [CR, LF] else [LF]) + Laid(lines[1..], crlf[1..]))
  {
    var tail := Laid(lines[1..], crlf[1..]);
    assert lines[0] + [CR, LF] + tail == lines[0] + ([CR, LF] + tail);
    assert lines[0] + [LF] + tail == lines[0] + ([LF] + tail);
  }

  lemma JoinCons(lines: seq<string>)
    requires |lines| >= 2
    ensures Join(lines) == lines[0] + ([LF] + Join(lines[1..]))
  {
    assert lines[0] + [LF] + Join(lines[1..]) == lines[0] + ([LF] + Join(lines[1..]));
  }

  lemma LineEnd(l: string, crlf: bool, tail: string)
    requires PlainLine(l)
    ensures ReplacePair(l + ((if crlf then [CR, LF] else [LF]) + tail), CR, LF, [LF])
         == l + ([LF] + ReplacePair(tail, CR, LF, [LF]))
  {
    hide ReplacePair;
    if crlf {
      PlainThen(l, [CR, LF] + tail);
      ReplacePairHit(tail, CR, LF, [LF]);
    } else {
      PlainNoCrlf(l, [LF] + tail);
      ReplacePairSkip(LF, tail, CR, LF, [LF]);
    }
  }

  lemma {:induction false} PlainThen(l: string, rest: string)
    requires PlainLine(l) && rest != [] && rest[0] == CR
    ensures ReplacePair(l + rest, CR, LF, [LF]) == l + ReplacePair(rest, CR, LF, [LF])
  {
    if l == [] {
      assert l + rest == rest;
    } else {
      assert l[0] in l;
      if |l| > 1 {
        assert l[1] in l;
      }
      PlainThen(l[1..], rest);
      assert l + rest == [l[0]] + (l[1..] + rest);
      ReplacePairSkip(l[0], l[1..] + rest, CR, LF, [LF]);
    }
  }

  lemma LinesOfLaid(lines: seq<string>, crlf: seq<bool>)
    requires lines != [] && |crlf| == |lines| && forall l :: l in lines ==> PlainLine(l)
    ensures Lines(Laid(lines, crlf)) == lines
  {
    LaidNoCrlf(lines, crlf);
    SplitJoin(lines);
  }

  /** The lines of a file as they stand, blanks around them and all. */
  ghost predicate StandFor(lines: seq<string>, stripped: seq<string>) {
    |lines| == |stripped| && forall i :: 0 <= i < |lines| ==> PlainLine(lines[i]) && Strip(lines[i]) == stripped[i]
  }

  lemma FeedStripped(m: Machine, line: string)
    ensures Feed(m, line) == Feed(m, Strip(line))
  {
    hide Strip, OnContinuation, OnKeyword, OnComment, Flush, KeywordLine;
    StripIsTrim(line);
    StripTrimmed(Strip(line));
  }

  lemma {:induction false} RunStripped(m: Machine, lines: seq<string>, stripped: seq<string>)
    requires StandFor(lines, stripped)
    ensures Run(m, lines) == Run(m, stripped)
    decreases |lines|
  {
    hide Feed, Strip, PlainLine;
    if lines != [] {
      FeedStripped(m, lines[0]);
      assert StandFor(lines[1..], stripped[1..]);
      RunStripped(Feed(m, lines[0]), lines[1..], stripped[1..]);
    }
  }

  lemma CommentsAreLines(bs: seq<Block>, b: Block, c: string)
    requires b in bs && c in b.comments
    ensures c in FileLines(bs)
  {
    hide Strings;
    if bs[0] != b {
      CommentsAreLines(bs[1..], b, c);
    }
  }

  lemma AllCommented(bs: seq<Block>, lines: seq<string>, b: Block)
    requires StandFor(lines, FileLines(bs)) && b in bs && GoodBlock(b)
    ensures Commented(b)
  {
    hide FileLines, Strip;
    forall c | c in b.comments ensures IsComment(c) {
      CommentsAreLines(bs, b, c);
      var i :| 0 <= i < |lines| && FileLines(bs)[i] == c;
      StripIsTrim(lines[i]);
    }
  }

  // -------------------------------------------------------------- main result

  lemma AddedIs(m: Machine, b: Block, fuzzy: bool)
    requires fuzzy <==> exists c :: c in b.comments && SaysFuzzy(c)
    ensures Added(m, b, fuzzy) == if !Present(b) then m else
      var e, n := EntryOf(b), m.(errors := m.errors + Faults(b));
      if n.header == None && IsHeader(e) then n.(header := Some(e)) else n.(entries := n.entries + [e])
  {
    hide SaysFuzzy, Said, Faults, Further;
  }

  /** Header and entries once the entries es have come to those of before. */
  ghost predicate Joins(header0: Option<PoEntry>, entries0: seq<PoEntry>, header: Option<PoEntry>,
                        entries: seq<PoEntry>, es: seq<PoEntry>)
  {
    var h := HeaderAt(es);
    if header0.Some? || h == |es| then header == header0 && entries == entries0 + es
    else header == Some(es[h]) && entries == entries0 + (es[..h] + es[h + 1..])
  }

  lemma HeaderCons(e: PoEntry, es: seq<PoEntry>)
    ensures HeaderAt([e] + es) == if IsHeader(e) then 0 else 1 + HeaderAt(es)
  {
    assert ([e] + es)[1..] == es;
  }

  lemma FirstOut(e: PoEntry, es: seq<PoEntry>)
    ensures ([e] + es)[..0] + ([e] + es)[1..] == es
  {
  }

  lemma LaterOut(before: seq<PoEntry>, e: PoEntry, es: seq<PoEntry>, h: nat)
    requires h < |es|
    ensures (before + [e]) + (es[..h] + es[h + 1..]) == before + (([e] + es)[..1 + h] + ([e] + es)[1 + h + 1..])
    ensures ([e] + es)[1 + h] == es[h]
  {
    assert ([e] + es)[..1 + h] == [e] + es[..h];
    assert ([e] + es)[1 + h + 1..] == es[h + 1..];
  }

  lemma JoinsCons(header0: Option<PoEntry>, entries0: seq<PoEntry>, header: Option<PoEntry>, entries: seq<PoEntry>,
                  e: PoEntry, es: seq<PoEntry>)
    requires if header0 == None && IsHeader(e) then Joins(Some(e), entries0, header, entries, es)
             else Joins(header0, entries0 + [e], header, entries, es)
    ensures Joins(header0, entries0, header, entries, [e] + es)
  {
    hide IsHeader, HeaderAt;
    HeaderCons(e, es);
    var h := HeaderAt(es);
    assert (entries0 + [e]) + es == entries0 + ([e] + es);
    if header0 == None && IsHeader(e) {
      FirstOut(e, es);
    } else if header0 == None && h < |es| {
      LaterOut(entries0, e, es, h);
    }
  }

  /** What a file comes to: its entries but the header, the header, and its faults. */
  ghost predicate Yields(m: Machine, start: Machine, bs: seq<Block>) {
    m.errors == start.errors + AllFaults(bs) && Joins(start.header, start.entries, m.header, m.entries, EntriesOf(bs))
  }

  lemma EntriesCons(start: Machine, next: Machine, m: Machine, b: Block, rest: seq<Block>)
    requires Yields(m, next, rest)
    requires next == if !Present(b) then start else
      var e, n := EntryOf(b), start.(errors := start.errors + Faults(b));
      if n.header == None && IsHeader(e) then n.(header := Some(e)) else n.(entries := n.entries + [e])
    ensures Yields(m, start, [b] + rest)
  {
    hide EntryOf, IsHeader, Joins;
    FileOfCons(b, rest);
    if Present(b) {
      JoinsCons(start.header, start.entries, m.header, m.entries, EntryOf(b), EntriesOf(rest));
    }
  }

  lemma FileOfCons(b: Block, rest: seq<Block>)
    ensures EntriesOf([b] + rest) == if Present(b) then [EntryOf(b)] + EntriesOf(rest) else EntriesOf(rest)
    ensures AllFaults([b] + rest) == AllFaults(rest) + if Present(b) then Faults(b) else 0
  {
    hide EntryOf;
    assert ([b] + rest)[1..] == rest && [] + EntriesOf(rest) == EntriesOf(rest);
    NothingSaid();
  }

  lemma {:induction false} AddAllYields(start: Machine, bs: seq<Block>)
    ensures Yields(AddAll(start, bs), start, bs)
    decreases |bs|
  {
    hide Added, EntryOf, Faults, AnyFuzzy, SaysFuzzy, IsHeader;
    if bs == [] {
      assert start.entries + [] == start.entries;
    } else {
      var b, rest := bs[0], bs[1..];
      var next := Added(start, b, AnyFuzzy(b.comments));
      FuzzyExact(b.comments);
      AddedIs(start, b, AnyFuzzy(b.comments));
      AddAllYields(next, rest);
      EntriesCons(start, next, AddAll(start, bs), b, rest);
      assert bs == [b] + rest;
    }
  }

  /** Every file written in blocks, its lines ended and indented in any way: the parser finds one entry for every block
      with a string, in order, each field the pieces it was cut into read one after the other; the first entry without a
      context and with an empty msgid is the header; and the errors are the faults of the blocks. */
  lemma ParseBlocks(bs: seq<Block>, lines: seq<string>, crlf: seq<bool>)
    requires lines != [] && |crlf| == |lines| && StandFor(lines, FileLines(bs))
    requires ToldApart(bs) && forall b :: b in bs ==> GoodBlock(b)
    ensures var m, es := Parse(Laid(lines, crlf)), EntriesOf(bs);
      var h := HeaderAt(es);
      && m.header == (if h < |es| then Some(es[h]) else None)
      && m.entries == (if h < |es| then es[..h] + es[h + 1..] else es)
      && m.errors == AllFaults(bs)
  {
    hide Run, Lines, Laid, StandFor, GoodBlock, FileLines, AddAll, EntriesOf, HeaderAt, AllFaults;
    assert forall l :: l in lines ==> PlainLine(l) by {
      StandPlain(lines, FileLines(bs));
    }
    LinesOfLaid(lines, crlf);
    RunStripped(START, lines, FileLines(bs));
    forall b | b in bs ensures Commented(b) {
      AllCommented(bs, lines, b);
    }
    RunFile(START, START, bs);
    AddAllYields(START, bs);
    ParseOf(Laid(lines, crlf));
    assert [] + EntriesOf(bs) == EntriesOf(bs);
  }

  lemma StandPlain(lines: seq<string>, stripped: seq<string>)
    requires StandFor(lines, stripped)
    ensures forall l :: l in lines ==> PlainLine(l)
  {
    hide PlainLine, Strip;
  }

  /** One entry, each of its strings cut into pieces. */
  function Cut(ctxt: seq<seq<Unit>>, id: seq<seq<Unit>>, str: seq<seq<Unit>>): Block {
    Block([], ctxt, id, [], str, [], " ", 0)
  }

  lemma CutLines(ctxt: seq<seq<Unit>>, id: seq<seq<Unit>>, str: seq<seq<Unit>>)
    ensures FileLines([Cut(ctxt, id, str)])
         == Part("msgctxt", " ", ctxt) + (Part("msgid", " ", id) + Part("msgstr", " ", str))
  {
    hide Part;
    var b := Cut(ctxt, id, str);
    NoPart("msgid_plural");
    assert [] + Part("msgstr", " ", str) == Part("msgstr", " ", str) && "msgstr" + [] == "msgstr";
    assert Blanks(0) == [] && [b][1..] == [] && FileLines([]) == [];
    var ls := Strings(b);
    assert [] + (ls + ([] + [])) == ls;
  }

  lemma CutEntry(ctxt: seq<seq<Unit>>, id: seq<seq<Unit>>, str: seq<seq<Unit>>)
    requires ctxt != [] && id != [] && str != []
    ensures EntryOf(Cut(ctxt, id, str)) == PoEntry(Some(Said(ctxt)), Said(id), Said(str), |id|, |str|, [], false)
  {
    hide Said, SaysFuzzy;
    assert Said(id) + [] == Said(id);
  }

  lemma CutFaults(ctxt: seq<seq<Unit>>, id: seq<seq<Unit>>, str: seq<seq<Unit>>)
    requires ctxt != [] && id != [] && str != []
    ensures Faults(Cut(ctxt, id, str)) == Flaws(ctxt) + Flaws(id) + Flaws(str) && Present(Cut(ctxt, id, str))
  {
    NothingSaid();
  }

  lemma CutSays(ctxt: seq<seq<Unit>>, id: seq<seq<Unit>>, str: seq<seq<Unit>>)
    requires ctxt != [] && id != [] && str != []
    ensures EntriesOf([Cut(ctxt, id, str)]) == [PoEntry(Some(Said(ctxt)), Said(id), Said(str), |id|, |str|, [], false)]
    ensures AllFaults([Cut(ctxt, id, str)]) == Flaws(ctxt) + Flaws(id) + Flaws(str)
  {
    hide Said, Flaws, EntryOf, Faults, Present;
    var b := Cut(ctxt, id, str);
    CutEntry(ctxt, id, str);
    CutFaults(ctxt, id, str);
    FileOfCons(b, []);
    assert [b] + [] == [b] && EntriesOf([]) == [] && AllFaults([]) == 0;
    assert [EntryOf(b)] + [] == [EntryOf(b)];
  }

  lemma NoHeader(e: PoEntry)
    requires e.ctxt.Some?
    ensures HeaderAt([e]) == 1
  {
  }

  lemma CutGood(ctxt: seq<seq<Unit>>, id: seq<seq<Unit>>, str: seq<seq<Unit>>)
    requires AllGood(ctxt) && AllGood(id) && AllGood(str)
    ensures GoodBlock(Cut(ctxt, id, str))
  {
    hide Good;
  }

  /** In particular one entry, each of its strings cut into any pieces: the fields are the pieces put together, the line
      counts the numbers of pieces. */
  lemma ParseCutEntry(ctxt: seq<seq<Unit>>, id: seq<seq<Unit>>, str: seq<seq<Unit>>, lines: seq<string>,
                      crlf: seq<bool>)
    requires ctxt != [] && id != [] && str != [] && AllGood(ctxt) && AllGood(id) && AllGood(str)
    requires |crlf| == |lines|
    requires StandFor(lines, Part("msgctxt", " ", ctxt) + (Part("msgid", " ", id) + Part("msgstr", " ", str)))
    ensures var m := Parse(Laid(lines, crlf));
      && m.header == None && m.errors == Flaws(ctxt) + Flaws(id) + Flaws(str)
      && m.entries == [PoEntry(Some(Said(ctxt)), Said(id), Said(str), |id|, |str|, [], false)]
  {
    hide *;
    NoHeader(PoEntry(Some(Said(ctxt)), Said(id), Said(str), |id|, |str|, [], false));
    CutApart(Cut(ctxt, id, str));
    CutLines(ctxt, id, str);
    CutSays(ctxt, id, str);
    CutGood(ctxt, id, str);
    PartSome("msgctxt", ctxt);
    StandSize(lines, FileLines([Cut(ctxt, id, str)]));
    ParseBlocks([Cut(ctxt, id, str)], lines, crlf);
  }

  lemma CutApart(b: Block)
    ensures ToldApart([b])
  {
  }

  lemma NoPart(word: string)
    ensures Part(word, " ", []) == [] && AllGood([])
  {
  }

  lemma PartSome(word: string, pieces: seq<seq<Unit>>)
    requires pieces != []
    ensures Part(word, " ", pieces) != []
  {
  }

  lemma StandSize(lines: seq<string>, stripped: seq<string>)
    requires StandFor(lines, stripped)
    ensures |lines| == |stripped|
  {
  }

  // ------------------------------------------------------- lines that are none

  /** A line the format has no reading for: no blank line, no comment, no continuation line and no keyword line. */
  ghost predicate Junk(s: string) {
    && s != [] && s[0] != '#'
    && (forall us :: Good(us) ==> s != Between(us))
    && forall kw: Keyword, index, gap, us :: !IsKeywordLine(s, kw, index, gap, us)
  }

  ghost predicate IsKeywordLine(s: string, kw: Keyword, index: string, gap: string, us: seq<Unit>) {
    && IsIndex(index) && (kw != KStr ==> index == []) && gap != [] && (forall c :: c in gap ==> IsSpace(c)) && Good(us)
    && s == Word(kw) + index + gap + Between(us)
  }

  lemma {:induction false} GapOf(s: string) returns (gap: string)
    ensures s == gap + LStrip(s) && forall c :: c in gap ==> IsSpace(c)
    ensures s != [] && IsSpace(s[0]) ==> gap != []
  {
    if s != [] && IsSpace(s[0]) {
      var rest := GapOf(s[1..]);
      gap := [s[0]] + rest;
      assert s == [s[0]] + s[1..];
    } else {
      gap := [];
    }
  }

  lemma {:induction false} DigitsAre(s: string)
    ensures forall i :: 0 <= i < DigitsLen(s) ==> '0' <= s[i] <= '9'
  {
    if s != [] && '0' <= s[0] <= '9' {
      DigitsAre(s[1..]);
    }
  }

  lemma IndexOf(s: string)
    ensures IsIndex(s[..IndexLen(s)])
  {
    if s != [] {
      DigitsAre(s[1..]);
      var d := DigitsLen(s[1..]);
      assert forall i :: 0 <= i < d ==> s[1..][i] == s[i + 1];
    }
  }

  lemma KeywordSplits(s: string) returns (index: string)
    requires KeywordOf(s).Some?
    ensures var k := KeywordOf(s).value;
      s == Word(k.0) + index + k.1 && IsIndex(index) && (k.0 != KStr ==> index == [])
  {
    hide IndexLen, IsIndex;
    var kw := KeywordOf(s).value.0;
    index := [];
    NoIndex();
    if kw == KStr {
      index := s[6..][..IndexLen(s[6..])];
      IndexOf(s[6..]);
      assert s == Word(kw) + s[6..] && s[6..] == index + s[6 + |index|..];
    }
    assert s == Word(kw) + index + KeywordOf(s).value.1;
  }

  lemma QuotedBody(q: string)
    requires Quotes(q) && LF !in q && Body(Inner(q))
    ensures exists us :: Good(us) && q == Between(us)
  {
    hide Body, Spell, Good;
    assert forall c :: c in Inner(q) ==> c in q;
    var us := BodyExact(Inner(q));
    assert q == [QUOTE] + Inner(q) + [QUOTE];
    assert Good(us) && q == Between(us);
  }

  /** What the parser takes for a keyword line is one. */
  lemma KeywordRead(s: string)
    requires LF !in s
    ensures KeywordLine(s).Some? && Body(Inner(KeywordLine(s).value.1)) ==>
      exists kw: Keyword, index, gap, us :: IsKeywordLine(s, kw, index, gap, us)
  {
    hide LStrip, KeywordOf, IsIndex, Body, Good, Between, Word;
    if KeywordLine(s).Some? {
      var (kw, q) := KeywordLine(s).value;
      var rest := KeywordOf(s).value.1;
      var index := KeywordSplits(s);
      var gap := GapOf(rest);
      assert s == Word(kw) + index + gap + q;
      assert forall c :: c in q ==> c in s;
      if Body(Inner(q)) {
        QuotedBody(q);
        var us :| Good(us) && q == Between(us);
        assert IsKeywordLine(s, kw, index, gap, us);
      }
    }
  }

  lemma FeedJunk(m: Machine, s: string)
    requires Junk(s) && IsTrimmed(s) && LF !in s
    ensures Feed(m, s) == Fail(m)
  {
    hide Strip, OnComment, Flush, KeywordLine, Body, Good, Between, IsKeywordLine;
    StripTrimmed(s);
    KeywordRead(s);
    assert Quotes(s) && Body(Inner(s)) ==> exists us :: Good(us) && s == Between(us) by {
      if Quotes(s) && Body(Inner(s)) {
        QuotedBody(s);
      }
    }
  }

  lemma FlushApart(m: Machine)
    ensures Flush(Fail(m)) == Fail(Flush(m))
  {
  }

  lemma KeywordApart(m: Machine, kw: Keyword, q: string)
    requires Quotes(q)
    ensures OnKeyword(Fail(m), kw, q) == Fail(OnKeyword(m, kw, q))
  {
    hide Body, Unescape, BadEscapes, Inner, Flush, Quotes;
    var n := m.(errors := m.errors + BadEscapes(Inner(q)));
    assert Fail(m).(errors := m.errors + 1 + BadEscapes(Inner(q))) == Fail(n);
    FlushApart(n);
  }

  lemma ErrorsApart(m: Machine, line: string)
    ensures Feed(Fail(m), line) == Fail(Feed(m, line))
  {
    hide Strip, Body, Unescape, BadEscapes, KeywordLine, Contains, Inner, OnKeyword, Flush;
    FlushApart(m);
    var s := Strip(line);
    if KeywordLine(s).Some? {
      KeywordApart(m, KeywordLine(s).value.0, KeywordLine(s).value.1);
    }
  }

  lemma {:induction false} RunErrorsApart(m: Machine, ls: seq<string>)
    ensures Run(Fail(m), ls) == Fail(Run(m, ls))
    decreases |ls|
  {
    hide Feed, Fail;
    if ls != [] {
      ErrorsApart(m, ls[0]);
      RunErrorsApart(Feed(m, ls[0]), ls[1..]);
    }
  }

  /** A line that is none is one error and has no other effect, wherever it stands in whatever file. */
  lemma JunkCounts(before: seq<string>, junk: string, behind: seq<string>, crlf: seq<bool>, crlf': seq<bool>)
    requires before + behind != [] && |crlf| == |before + behind| && |crlf'| == |crlf| + 1
    requires (forall l :: l in before + behind ==> PlainLine(l)) && PlainLine(junk) && Junk(Strip(junk))
    ensures var m, n := Parse(Laid(before + behind, crlf)), Parse(Laid(before + ([junk] + behind), crlf'));
      n.header == m.header && n.entries == m.entries && n.errors == m.errors + 1
  {
    hide Run, Feed, Lines, Laid, Junk, Strip, PlainLine;
    var with := before + ([junk] + behind);
    assert forall l :: l in with ==> l == junk || l in before + behind;
    LinesOfLaid(before + behind, crlf);
    LinesOfLaid(with, crlf');
    RunConcat(START, before, behind);
    RunConcat(START, before, [junk] + behind);
    var m := Run(START, before);
    RunCons(m, junk, behind);
    FeedStripped(m, junk);
    StripIsTrim(junk);
    PlainHasNoLf(junk);
    FeedJunk(m, Strip(junk));
    RunErrorsApart(m, behind);
    ParseOf(Laid(before + behind, crlf));
    ParseOf(Laid(with, crlf'));
  }

  lemma PlainHasNoLf(l: string)
    requires PlainLine(l)
    ensures LF !in l
  {
  }
}
