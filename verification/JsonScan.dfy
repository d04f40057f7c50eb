/** Pulling the first JSON value out of a model completion (llm.py `extract_json`, behind the fence
    stripping). The scanner counts one kind of bracket only; the JSON texts it is measured against follow
    the grammar of RFC 8259, sections 2 to 7. */
module JsonScan {
  import opened Text
  import opened Wrappers

  // ---------------------------------------------------------------- scanner

  datatype Scan = Scan(depth: int, inStr: bool, escape: bool)

  /** One character of the loop. */
  function Step(c: char, opener: char, closer: char, s: Scan): Scan {
    if s.escape then s.(escape := false)
    else if c == BS then s.(escape := true)
    else if c == QUOTE then s.(inStr := !s.inStr)
    else if s.inStr then s
    else if c == opener then s.(depth := s.depth + 1)
    else if c == closer then s.(depth := s.depth - 1)
    else s
  }

  /** The closer that has just brought the depth to zero ends the scan. */
  predicate Ends(c: char, closer: char, s: Scan, t: Scan) {
    !s.escape && !s.inStr && c == closer && t.depth == 0
  }

  /** Length of the text the scan accepts, None when it runs off the end. */
  function ScanFrom(text: string, opener: char, closer: char, s: Scan): Option<nat> {
    if text == [] then None
    else
      var t := Step(text[0], opener, closer, s);
      if Ends(text[0], closer, s, t) then Some(1)
      else match ScanFrom(text[1..], opener, closer, t)
        case None => None
        case Some(n) => Some(n + 1)
  }

  function Closer(opener: char): char {
    if opener == '{' then '}' else ']'
  }

  function FirstBracket(text: string): (n: nat)
    ensures n <= |text| && forall j :: 0 <= j < n ==> text[j] !in {'{', '['}
    ensures n < |text| ==> text[n] in {'{', '['}
  {
    if text == [] || text[0] in {'{', '['} then 0 else 1 + FirstBracket(text[1..])
  }

  /** The extracted text; None where the source raises ("no JSON object" or "unbalanced JSON"). */
  function Extract(text: string): Option<string> {
    var start := FirstBracket(text);
    if start == |text| then None
    else
      match ScanFrom(text[start..], text[start], Closer(text[start]), Scan(0, false, false))
      case None => None
      case Some(n) => if start + n <= |text| then Some(text[start..start + n]) else None
  }

  lemma {:induction false} ScanLength(text: string, opener: char, closer: char, s: Scan)
    ensures var r := ScanFrom(text, opener, closer, s); r.Some? ==> 1 <= r.value <= |text|
  {
    if text != [] {
      ScanLength(text[1..], opener, closer, Step(text[0], opener, closer, s));
    }
  }

  /** `extract_json`: the index loop over the completion. */
  method ExtractJson(text: string) returns (json: Option<string>)
    ensures json == Extract(text)
  {
    var start := FirstBracket(text);
    if start == |text| {
      return None;
    }
    var opener, closer := text[start], Closer(text[start]);
    var depth, inStr, escape := 0, false, false;
    ghost var whole := ScanFrom(text[start..], opener, closer, Scan(0, false, false));
    ScanLength(text[start..], opener, closer, Scan(0, false, false));
    var i := start;
    while i < |text|
      invariant start <= i <= |text|
      invariant var r := ScanFrom(text[i..], opener, closer, Scan(depth, inStr, escape));
        whole == match r case None => None case Some(n) => Some(i - start + n)
    {
      var c := text[i];
      assert text[i..][1..] == text[i + 1..];
      if escape {
        escape := false;
      } else if c == BS {
        escape := true;
      } else if c == QUOTE {
        inStr := !inStr;
      } else if !inStr {
        if c == opener {
          depth := depth + 1;
        } else if c == closer {
          depth := depth - 1;
          if depth == 0 {
            return Some(text[start..i + 1]);
          }
        }
      }
      i := i + 1;
    }
    json := None;
  }

  // -------------------------------------------------------- the JSON grammar

  /** A character of a string: unescaped, a two-character escape, or a \u escape. */
  datatype StrChar = Plain(c: char) | Short(c: char) | Hex(h1: char, h2: char, h3: char, h4: char)

  predicate HexDigit(c: char) {
    '0' <= c <= '9' || 'a' <= c <= 'f' || 'A' <= c <= 'F'
  }

  predicate GoodChar(s: StrChar) {
    match s
    case Plain(c) => c != QUOTE && c != BS && c as int >= 0x20
    case Short(c) => c in {QUOTE, BS, '/', 'b', 'f', 'n', 'r', 't'}
    case Hex(a, b, c, d) => HexDigit(a) && HexDigit(b) && HexDigit(c) && HexDigit(d)
  }

  /** A JSON text with its whitespace. Numbers and the three literals are scalars: text without quotes,
      backslashes or brackets. */
  datatype Value =
    | Scalar(text: string)
    | Str(chars: seq<StrChar>)
    | Array(space: string, elements: Elements)
    | Object(space: string, members: Members)

  /** The elements and members behind an opening bracket, each with the blanks in front of it and behind it. */
  datatype Elements = NoElement | Element(before: string, v: Value, after: string, more: Elements)
  datatype Members =
    | NoMember
    | Member(before: string, name: seq<StrChar>, colon: string, v: Value, after: string, more: Members)

  predicate Blank(s: string) {
    forall c :: c in s ==> c in {' ', '\t', '\n', '\r'}
  }

  /** The separator between a member name and its value: a colon with blanks around it. */
  predicate Colon(s: string) {
    forall c :: c in s ==> c in {' ', '\t', '\n', '\r', ':'}
  }

  predicate ScalarText(s: string) {
    forall c :: c in s ==> c !in {QUOTE, BS, '{', '}', '[', ']'}
  }

  predicate Good(v: Value) {
    match v
    case Scalar(t) => ScalarText(t)
    case Str(cs) => GoodChars(cs)
    case Array(sp, es) => Blank(sp) && GoodElements(es)
    case Object(sp, ms) => Blank(sp) && GoodMembers(ms)
  }

  predicate GoodElements(es: Elements) {
    es.Element? ==> Blank(es.before) && Good(es.v) && Blank(es.after) && GoodElements(es.more)
  }

  predicate GoodMembers(ms: Members) {
    ms.Member? ==> Blank(ms.before) && GoodChars(ms.name) && Colon(ms.colon) && Good(ms.v) && Blank(ms.after)
                   && GoodMembers(ms.more)
  }

  predicate GoodChars(cs: seq<StrChar>) {
    forall c :: c in cs ==> GoodChar(c)
  }

  function CharText(s: StrChar): string {
    match s
    case Plain(c) => [c]
    case Short(c) => [BS, c]
    case Hex(a, b, c, d) => [BS, 'u', a, b, c, d]
  }

  function CharsText(cs: seq<StrChar>): string {
    if cs == [] then [] else CharText(cs[0]) + CharsText(cs[1..])
  }

  function StrText(cs: seq<StrChar>): string {
    [QUOTE] + (CharsText(cs) + [QUOTE])
  }

  function ValueText(v: Value): string {
    match v
    case Scalar(t) => t
    case Str(cs) => StrText(cs)
    case Array(sp, es) => ['['] + (sp + (ElementsText(es) + [']']))
    case Object(sp, ms) => ['{'] + (sp + (MembersText(ms) + ['}']))
  }

  function ElementsText(es: Elements): string {
    match es
    case NoElement => []
    case Element(before, v, after, more) =>
      before + (ValueText(v) + (after + ((if more.Element? then [','] else []) + ElementsText(more))))
  }

  function MemberText(name: seq<StrChar>, colon: string, value: string): string {
    StrText(name) + (colon + value)
  }

  function MembersText(ms: Members): string {
    match ms
    case NoMember => []
    case Member(before, name, colon, v, after, more) =>
      before + (MemberText(name, colon, ValueText(v))
                + (after + ((if more.Member? then [','] else []) + MembersText(more))))
  }

  // --------------------------------------------- what the grammar holds

  /** Texts with a separator between any two of them. */
  function Listed(parts: seq<string>, sep: string): string {
    if parts == [] then [] else if |parts| == 1 then parts[0] else parts[0] + (sep + Listed(parts[1..], sep))
  }

  function ValueTexts(vs: seq<Value>): (ts: seq<string>)
    ensures |ts| == |vs| && forall i :: 0 <= i < |vs| ==> ts[i] == ValueText(vs[i])
  {
    seq(|vs|, i requires 0 <= i < |vs| => ValueText(vs[i]))
  }

  function ElementsOf(vs: seq<Value>, before: string, left: string, right: string, close: string): Elements {
    if vs == [] then NoElement
    else Element(before, vs[0], if |vs| == 1 then close else left, ElementsOf(vs[1..], right, left, right, close))
  }

  /** Section 5: any values between brackets, separated by commas with whitespace on either side, and whitespace
      inside the brackets, spell a value of the grammar. */
  lemma {:induction false} ArraySpelled(vs: seq<Value>, before: string, left: string, right: string, close: string)
    requires vs != [] && forall v :: v in vs ==> Good(v)
    requires Blank(before) && Blank(left) && Blank(right) && Blank(close)
    ensures var es := ElementsOf(vs, before, left, right, close);
      && GoodElements(es)
      && ElementsText(es) == before + (Listed(ValueTexts(vs), left + ([','] + right)) + close)
  {
    hide Good, ValueText, Blank;
    assert vs[0] in vs;
    if |vs| == 1 {
      assert vs[1..] == [] && close + ([] + []) == close;
    } else {
      ArraySpelled(vs[1..], right, left, right, close);
      assert ValueTexts(vs)[1..] == ValueTexts(vs[1..]);
      Regroup(ValueText(vs[0]), left, right, Listed(ValueTexts(vs[1..]), left + ([','] + right)), close);
    }
  }

  lemma Regroup(first: string, left: string, right: string, rest: string, close: string)
    ensures first + (left + ([','] + (right + (rest + close)))) == first + ((left + ([','] + right)) + rest) + close
  {
  }

  datatype Pair = Pair(name: seq<StrChar>, colon: string, v: Value)

  predicate GoodPair(p: Pair) {
    GoodChars(p.name) && Colon(p.colon) && Good(p.v)
  }

  function PairTexts(ps: seq<Pair>): (ts: seq<string>)
    ensures |ts| == |ps|
    ensures forall i :: 0 <= i < |ps| ==> ts[i] == MemberText(ps[i].name, ps[i].colon, ValueText(ps[i].v))
  {
    seq(|ps|, i requires 0 <= i < |ps| => MemberText(ps[i].name, ps[i].colon, ValueText(ps[i].v)))
  }

  function MembersOf(ps: seq<Pair>, before: string, left: string, right: string, close: string): Members {
    if ps == [] then NoMember
    else Member(before, ps[0].name, ps[0].colon, ps[0].v, if |ps| == 1 then close else left,
                MembersOf(ps[1..], right, left, right, close))
  }

  /** Section 4: so do members. */
  lemma {:induction false} ObjectSpelled(ps: seq<Pair>, before: string, left: string, right: string, close: string)
    requires ps != [] && forall p :: p in ps ==> GoodPair(p)
    requires Blank(before) && Blank(left) && Blank(right) && Blank(close)
    ensures var ms := MembersOf(ps, before, left, right, close);
      && GoodMembers(ms)
      && MembersText(ms) == before + (Listed(PairTexts(ps), left + ([','] + right)) + close)
  {
    hide Good, ValueText, Blank, MemberText, Colon;
    assert ps[0] in ps;
    if |ps| == 1 {
      assert ps[1..] == [] && close + ([] + []) == close;
    } else {
      ObjectSpelled(ps[1..], right, left, right, close);
      assert PairTexts(ps)[1..] == PairTexts(ps[1..]);
      Regroup(MemberText(ps[0].name, ps[0].colon, ValueText(ps[0].v)), left, right,
              Listed(PairTexts(ps[1..]), left + ([','] + right)), close);
    }
  }

  // ------------------------------------------------------ scanning JSON texts

  /** Scanning the text from s goes on behind it in state t. */
  ghost predicate Passes(text: string, o: char, s: Scan, t: Scan) {
    forall rest: string :: ScanFrom(text + rest, o, Closer(o), s)
      == match ScanFrom(rest, o, Closer(o), t) case None => None case Some(n) => Some(n + |text|)
  }

  lemma PassesConcat(a: string, b: string, o: char, s: Scan, t: Scan, u: Scan)
    requires Passes(a, o, s, t) && Passes(b, o, t, u)
    ensures Passes(a + b, o, s, u)
  {
    forall rest: string
      ensures ScanFrom(a + b + rest, o, Closer(o), s)
           == match ScanFrom(rest, o, Closer(o), u) case None => None case Some(n) => Some(n + |a + b|)
    {
      assert a + b + rest == a + (b + rest);
    }
  }

  lemma PassesChar(c: char, o: char, s: Scan)
    requires !Ends(c, Closer(o), s, Step(c, o, Closer(o), s))
    ensures Passes([c], o, s, Step(c, o, Closer(o), s))
  {
  }

  lemma PassesNothing(o: char, s: Scan)
    ensures Passes([], o, s, s)
  {
    forall rest: string
      ensures ScanFrom([] + rest, o, Closer(o), s)
           == match ScanFrom(rest, o, Closer(o), s) case None => None case Some(n) => Some(n + 0)
    {
      assert [] + rest == rest;
    }
  }

  /** Characters the scanner ignores outside strings. */
  lemma {:induction false} PassesInert(text: string, o: char, d: int)
    requires o in {'{', '['} && forall c :: c in text ==> c !in {QUOTE, BS, '{', '}', '[', ']'}
    ensures Passes(text, o, Scan(d, false, false), Scan(d, false, false))
  {
    var s := Scan(d, false, false);
    if text == [] {
      PassesNothing(o, s);
    } else {
      assert text[0] in text && forall c :: c in text[1..] ==> c in text;
      PassesChar(text[0], o, s);
      PassesInert(text[1..], o, d);
      assert text == [text[0]] + text[1..];
      PassesConcat([text[0]], text[1..], o, s, s, s);
    }
  }

  lemma PassesStrChar(sc: StrChar, o: char, d: int)
    requires GoodChar(sc)
    ensures Passes(CharText(sc), o, Scan(d, true, false), Scan(d, true, false))
  {
    hide Passes;
    match sc
    case Plain(c) => PassesInString(c, o, d);
    case Short(c) => PassesEscape(c, o, d);
    case Hex(a, b, c, e) =>
      PassesEscape('u', o, d);
      PassesTwo(a, b, o, d);
      PassesTwo(c, e, o, d);
      PassesHex([BS, 'u'], [a, b], [c, e], o, d);
      assert [BS, 'u', a, b, c, e] == [BS, 'u'] + ([a, b] + [c, e]);
  }

  lemma PassesTwo(a: char, b: char, o: char, d: int)
    requires a !in {QUOTE, BS} && b !in {QUOTE, BS}
    ensures Passes([a, b], o, Scan(d, true, false), Scan(d, true, false))
  {
  }

  lemma PassesHex(x: string, y: string, z: string, o: char, d: int)
    requires var s := Scan(d, true, false); Passes(x, o, s, s) && Passes(y, o, s, s) && Passes(z, o, s, s)
    ensures Passes(x + (y + z), o, Scan(d, true, false), Scan(d, true, false))
  {
    hide Passes;
    var s := Scan(d, true, false);
    PassesConcat(y, z, o, s, s, s);
    PassesConcat(x, y + z, o, s, s, s);
  }

  lemma PassesInString(c: char, o: char, d: int)
    requires c != QUOTE && c != BS
    ensures Passes([c], o, Scan(d, true, false), Scan(d, true, false))
  {
  }

  lemma PassesEscape(c: char, o: char, d: int)
    ensures Passes([BS, c], o, Scan(d, true, false), Scan(d, true, false))
  {
    PassesChar(BS, o, Scan(d, true, false));
    PassesChar(c, o, Scan(d, true, true));
    PassesConcat([BS], [c], o, Scan(d, true, false), Scan(d, true, true), Scan(d, true, false));
    assert [BS, c] == [BS] + [c];
  }

  lemma {:induction false} PassesChars(cs: seq<StrChar>, o: char, d: int)
    requires forall c :: c in cs ==> GoodChar(c)
    ensures Passes(CharsText(cs), o, Scan(d, true, false), Scan(d, true, false))
  {
    var s := Scan(d, true, false);
    if cs == [] {
      PassesNothing(o, s);
    } else {
      hide GoodChar, CharText, Passes;
      assert cs[0] in cs;
      PassesStrChar(cs[0], o, d);
      PassesChars(cs[1..], o, d);
      PassesConcat(CharText(cs[0]), CharsText(cs[1..]), o, s, s, s);
    }
  }

  lemma PassesStr(cs: seq<StrChar>, o: char, d: int)
    requires o in {'{', '['} && forall c :: c in cs ==> GoodChar(c)
    ensures Passes(StrText(cs), o, Scan(d, false, false), Scan(d, false, false))
  {
    var out, inn := Scan(d, false, false), Scan(d, true, false);
    PassesChar(QUOTE, o, out);
    PassesChars(cs, o, d);
    PassesChar(QUOTE, o, inn);
    PassesConcat(CharsText(cs), [QUOTE], o, inn, inn, out);
    PassesConcat([QUOTE], CharsText(cs) + [QUOTE], o, out, inn, out);
  }

  /** Bracketed text whose inside returns the scan to where it was. */
  lemma PassesBracket(open: char, inner: string, o: char, d: nat)
    requires open in {'{', '['} && o in {'{', '['} && d >= 1
    requires forall e: nat :: e >= 1 ==> Passes(inner, o, Scan(e, false, false), Scan(e, false, false))
    ensures Passes([open] + (inner + [Closer(open)]), o, Scan(d, false, false), Scan(d, false, false))
  {
    hide Passes;
    var s := Scan(d, false, false);
    var t := if open == o then Scan(d + 1, false, false) else s;
    PassesChar(open, o, s);
    PassesChar(Closer(open), o, t);
    PassesConcat(inner, [Closer(open)], o, t, t, s);
    PassesConcat([open], inner + [Closer(open)], o, s, t, s);
  }

  /** A value leaves the scan as it was, at any depth from one on: brackets inside it are balanced, and those
      inside its strings are not counted. */
  lemma {:induction false} PassesValue(v: Value, o: char, d: nat)
    requires Good(v) && o in {'{', '['} && d >= 1
    ensures Passes(ValueText(v), o, Scan(d, false, false), Scan(d, false, false))
  {
    match v
    case Scalar(t) =>
      PassesInert(t, o, d);
    case Str(cs) =>
      PassesStr(cs, o, d);
    case Array(sp, es) =>
      forall e: nat | e >= 1
        ensures Passes(sp + ElementsText(es), o, Scan(e, false, false), Scan(e, false, false))
      {
        PassesInert(sp, o, e);
        PassesElements(es, o, e);
        PassesConcat(sp, ElementsText(es), o, Scan(e, false, false), Scan(e, false, false), Scan(e, false, false));
      }
      PassesBracket('[', sp + ElementsText(es), o, d);
      assert sp + ElementsText(es) + [']'] == sp + (ElementsText(es) + [']']);
    case Object(sp, ms) =>
      forall e: nat | e >= 1
        ensures Passes(sp + MembersText(ms), o, Scan(e, false, false), Scan(e, false, false))
      {
        PassesInert(sp, o, e);
        PassesMembers(ms, o, e);
        PassesConcat(sp, MembersText(ms), o, Scan(e, false, false), Scan(e, false, false), Scan(e, false, false));
      }
      PassesBracket('{', sp + MembersText(ms), o, d);
      assert sp + MembersText(ms) + ['}'] == sp + (MembersText(ms) + ['}']);
  }

  lemma {:induction false} PassesElements(es: Elements, o: char, d: nat)
    requires GoodElements(es) && o in {'{', '['} && d >= 1
    ensures Passes(ElementsText(es), o, Scan(d, false, false), Scan(d, false, false))
  {
    var s := Scan(d, false, false);
    match es
    case NoElement =>
      PassesNothing(o, s);
    case Element(before, v, after, more) =>
      var comma := if more.Element? then [','] else [];
      PassesInert(before, o, d);
      PassesValue(v, o, d);
      PassesInert(after, o, d);
      PassesInert(comma, o, d);
      PassesElements(more, o, d);
      hide Passes;
      PassesConcat(comma, ElementsText(more), o, s, s, s);
      PassesConcat(after, comma + ElementsText(more), o, s, s, s);
      PassesConcat(ValueText(v), after + (comma + ElementsText(more)), o, s, s, s);
      PassesConcat(before, ValueText(v) + (after + (comma + ElementsText(more))), o, s, s, s);
  }

  lemma {:induction false} PassesMembers(ms: Members, o: char, d: nat)
    requires GoodMembers(ms) && o in {'{', '['} && d >= 1
    ensures Passes(MembersText(ms), o, Scan(d, false, false), Scan(d, false, false))
  {
    var s := Scan(d, false, false);
    match ms
    case NoMember =>
      PassesNothing(o, s);
    case Member(before, name, colon, v, after, more) =>
      var comma := if more.Member? then [','] else [];
      PassesInert(before, o, d);
      PassesStr(name, o, d);
      PassesInert(colon, o, d);
      PassesValue(v, o, d);
      PassesInert(after, o, d);
      PassesInert(comma, o, d);
      PassesMembers(more, o, d);
      hide Passes;
      PassesConcat(colon, ValueText(v), o, s, s, s);
      PassesConcat(StrText(name), colon + ValueText(v), o, s, s, s);
      PassesConcat(comma, MembersText(more), o, s, s, s);
      PassesConcat(after, comma + MembersText(more), o, s, s, s);
      PassesConcat(MemberText(name, colon, ValueText(v)), after + (comma + MembersText(more)), o, s, s, s);
      PassesConcat(before, MemberText(name, colon, ValueText(v)) + (after + (comma + MembersText(more))), o, s, s, s);
  }

  // -------------------------------------------------------------- main result

  lemma {:induction false} FirstBracketBehind(prefix: string, rest: string)
    requires forall c :: c in prefix ==> c !in {'{', '['}
    requires rest != [] && rest[0] in {'{', '['}
    ensures FirstBracket(prefix + rest) == |prefix|
  {
    if prefix == [] {
      assert prefix + rest == rest;
    } else {
      assert prefix[0] in prefix && forall c :: c in prefix[1..] ==> c in prefix;
      assert (prefix + rest)[1..] == prefix[1..] + rest;
      FirstBracketBehind(prefix[1..], rest);
    }
  }

  lemma ScanCons(c: char, rest: string, o: char, s: Scan)
    ensures ScanFrom([c] + rest, o, Closer(o), s)
         == var t := Step(c, o, Closer(o), s);
            if Ends(c, Closer(o), s, t) then Some(1) else Shift(ScanFrom(rest, o, Closer(o), t), 1)
  {
  }

  function Shift(r: Option<nat>, n: nat): Option<nat> {
    if r.None? then None else Some(r.value + n)
  }

  lemma PassesAt(text: string, rest: string, o: char, s: Scan, t: Scan)
    requires Passes(text, o, s, t)
    ensures ScanFrom(text + rest, o, Closer(o), s) == Shift(ScanFrom(rest, o, Closer(o), t), |text|)
  {
  }

  /** A balanced inside between one pair of brackets is scanned to exactly the closing one. */
  lemma ScanBracket(open: char, inner: string, suffix: string)
    requires open in {'{', '['} && Passes(inner, open, Scan(1, false, false), Scan(1, false, false))
    ensures ScanFrom([open] + (inner + [Closer(open)]) + suffix, open, Closer(open), Scan(0, false, false))
         == Some(|inner| + 2)
  {
    hide ScanFrom, Passes;
    var rest := [Closer(open)] + suffix;
    ScanCons(Closer(open), suffix, open, Scan(1, false, false));
    PassesAt(inner, rest, open, Scan(1, false, false), Scan(1, false, false));
    ScanCons(open, inner + rest, open, Scan(0, false, false));
    assert [open] + (inner + [Closer(open)]) + suffix == [open] + (inner + rest);
  }

  lemma ValueInside(v: Value) returns (open: char, inner: string)
    requires Good(v) && (v.Array? || v.Object?)
    ensures open in {'{', '['} && ValueText(v) == [open] + (inner + [Closer(open)])
    ensures Passes(inner, open, Scan(1, false, false), Scan(1, false, false))
  {
    hide Passes;
    var s := Scan(1, false, false);
    match v
    case Array(sp, es) =>
      open, inner := '[', sp + ElementsText(es);
      PassesInert(sp, open, 1);
      PassesElements(es, open, 1);
      PassesConcat(sp, ElementsText(es), open, s, s, s);
      assert sp + ElementsText(es) + [']'] == sp + (ElementsText(es) + [']']);
    case Object(sp, ms) =>
      open, inner := '{', sp + MembersText(ms);
      PassesInert(sp, open, 1);
      PassesMembers(ms, open, 1);
      PassesConcat(sp, MembersText(ms), open, s, s, s);
      assert sp + MembersText(ms) + ['}'] == sp + (MembersText(ms) + ['}']);
  }

  /** Extraction is exact: behind any prefix free of opening brackets and in front of any suffix, an object
      or array text is returned whole and nothing else, although one kind of bracket is counted. */
  lemma ExtractExact(prefix: string, v: Value, suffix: string)
    requires forall c :: c in prefix ==> c !in {'{', '['}
    requires Good(v) && (v.Array? || v.Object?)
    ensures Extract(prefix + (ValueText(v) + suffix)) == Some(ValueText(v))
  {
    hide ScanFrom, FirstBracket, ValueText, Passes, Extract;
    var open, inner := ValueInside(v);
    var t := ValueText(v);
    assert t[0] == open;
    ScanBracket(open, inner, suffix);
    FirstBracketBehind(prefix, t + suffix);
    ExtractAt(prefix, t, suffix);
  }

  lemma ExtractAt(prefix: string, t: string, suffix: string)
    requires t != [] && FirstBracket(prefix + (t + suffix)) == |prefix|
    requires ScanFrom(t + suffix, t[0], Closer(t[0]), Scan(0, false, false)) == Some(|t|)
    ensures Extract(prefix + (t + suffix)) == Some(t)
  {
    hide ScanFrom, FirstBracket;
    var text := prefix + (t + suffix);
    assert text[|prefix|..] == t + suffix && text[|prefix|] == t[0];
    assert text[|prefix|..|prefix| + |t|] == t;
  }

  /** In particular, however members and elements are spaced: an object is returned whole. */
  lemma ObjectExtracted(prefix: string, ps: seq<Pair>, before: string, left: string, right: string, close: string,
                        suffix: string)
    requires forall c :: c in prefix ==> c !in {'{', '['}
    requires ps != [] && forall p :: p in ps ==> GoodPair(p)
    requires Blank(before) && Blank(left) && Blank(right) && Blank(close)
    ensures var text := ['{'] + (before + (Listed(PairTexts(ps), left + ([','] + right)) + close) + ['}']);
      Extract(prefix + (text + suffix)) == Some(text)
  {
    hide GoodPair, Extract, GoodMembers, MembersText, Listed, PairTexts;
    var ms := MembersOf(ps, before, left, right, close);
    ObjectSpelled(ps, before, left, right, close);
    ExtractExact(prefix, Object([], ms), suffix);
    assert [] + (MembersText(ms) + ['}']) == MembersText(ms) + ['}'];
  }

  /** So is an array. */
  lemma ArrayExtracted(prefix: string, vs: seq<Value>, before: string, left: string, right: string, close: string,
                       suffix: string)
    requires forall c :: c in prefix ==> c !in {'{', '['}
    requires vs != [] && forall v :: v in vs ==> Good(v)
    requires Blank(before) && Blank(left) && Blank(right) && Blank(close)
    ensures var text := ['['] + (before + (Listed(ValueTexts(vs), left + ([','] + right)) + close) + [']']);
      Extract(prefix + (text + suffix)) == Some(text)
  {
    hide Extract, GoodElements, ElementsText, Listed, ValueTexts;
    var es := ElementsOf(vs, before, left, right, close);
    ArraySpelled(vs, before, left, right, close);
    ExtractExact(prefix, Array([], es), suffix);
    assert [] + (ElementsText(es) + [']']) == ElementsText(es) + [']'];
  }
}
