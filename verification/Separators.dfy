/** Per-entry separator repair on PO-decoded text (po_patch.py `separators`, `separator_convention`,
    `match_source_format`, `repair_separator_raw`, `audit_separators`). */
module Separators {
  import opened Text
  import opened Wrappers
  import opened PoEscape

  /** Length of the separator token the text starts with, 0 for none; the alternatives in the order of
      SEP_TOKENS: double backslash, \r\n and \n as letters, CRLF, LF, \r as letters. */
  function TokenLen(s: string): (k: nat)
    ensures k <= |s|
  {
    if |s| >= 2 && s[0] == BS && s[1] == BS then 2
    else if |s| >= 4 && s[0] == BS && s[1] == 'r' && s[2] == BS && s[3] == 'n' then 4
    else if |s| >= 2 && s[0] == BS && s[1] == 'n' then 2
    else if |s| >= 2 && s[0] == CR && s[1] == LF then 2
    else if |s| >= 1 && s[0] == LF then 1
    else if |s| >= 2 && s[0] == BS && s[1] == 'r' then 2
    else 0
  }

  /** Length of the maximal run of adjacent tokens. */
  function RunLen(s: string): (n: nat)
    ensures n <= |s|
    decreases |s|
  {
    var k := TokenLen(s);
    if k == 0 then 0 else k + RunLen(s[k..])
  }

  /** Text cut at its separator runs. */
  datatype Lexed = End(text: string) | Break(text: string, run: string, rest: Lexed)

  function Prepend(c: char, l: Lexed): Lexed {
    match l
    case End(t) => End([c] + t)
    case Break(t, r, rest) => Break([c] + t, r, rest)
  }

  function Lex(s: string): Lexed
    decreases |s|
  {
    if s == [] then End([])
    else
      var n := RunLen(s);
      if n > 0 then Break([], s[..n], Lex(s[n..])) else Prepend(s[0], Lex(s[1..]))
  }

  function Unlex(l: Lexed): string {
    match l
    case End(t) => t
    case Break(t, r, rest) => t + r + Unlex(rest)
  }

  function Runs(l: Lexed): seq<string> {
    if l.End? then [] else [l.run] + Runs(l.rest)
  }

  function Texts(l: Lexed): seq<string> {
    if l.End? then [l.text] else [l.text] + Texts(l.rest)
  }

  function WithRun(l: Lexed, want: string): Lexed {
    if l.End? then l else Break(l.text, want, WithRun(l.rest, want))
  }

  function Separators(s: string): seq<string> {
    Runs(Lex(s))
  }

  /** The text is one separator token, the whole of it (`_SEP_RE.fullmatch`). */
  predicate IsSep(w: string) {
    || (|w| == 1 && w[0] == LF)
    || (|w| == 2 && ((w[0] == BS && w[1] in {BS, 'n', 'r'}) || (w[0] == CR && w[1] == LF)))
    || (|w| == 4 && w[0] == BS && w[1] == 'r' && w[2] == BS && w[3] == 'n')
  }

  function FirstToken(runs: seq<string>): (w: Option<string>)
    ensures w.Some? ==> IsSep(w.value)
  {
    if runs == [] then None else if IsSep(runs[0]) then Some(runs[0]) else FirstToken(runs[1..])
  }

  function Convention(s: string): Option<string> {
    FirstToken(Separators(s))
  }

  function MatchSource(src: string, tgt: string): string {
    match Convention(src)
    case None => tgt
    case Some(want) => if Separators(tgt) == [] then tgt else Unlex(WithRun(Lex(tgt), want))
  }

  function RepairRaw(srcRaw: string, tgtRaw: string): string {
    EscapeRaw(MatchSource(UnescapeRaw(srcRaw), UnescapeRaw(tgtRaw)))
  }

  // ------------------------------------------------------------ tokenizer facts

  lemma {:induction false} UnlexLex(s: string)
    ensures Unlex(Lex(s)) == s
    decreases |s|
  {
    if s == [] {
    } else if RunLen(s) > 0 {
      var n := RunLen(s);
      UnlexLex(s[n..]);
      assert Unlex(Break([], s[..n], Lex(s[n..]))) == [] + s[..n] + s[n..];
    } else {
      UnlexLex(s[1..]);
      UnlexPrepend(s[0], Lex(s[1..]));
    }
  }

  lemma UnlexPrepend(c: char, l: Lexed)
    ensures Unlex(Prepend(c, l)) == [c] + Unlex(l)
  {
  }

  /** The last character of a text piece does not merge with the separator put behind it. */
  predicate JoinOk(last: char, want: string) {
    want != [] ==> !(last == BS && want[0] == BS) && !(last == CR && want[0] == LF)
  }

  /** No run of l directly follows a character that would merge with want. */
  predicate Joinable(l: Lexed, want: string) {
    l.End? || ((l.text == [] || JoinOk(l.text[|l.text| - 1], want)) && Joinable(l.rest, want))
  }

  lemma {:induction false} RunIsMaximal(s: string)
    ensures TokenLen(s[RunLen(s)..]) == 0
    decreases |s|
  {
    var k := TokenLen(s);
    if k > 0 {
      RunIsMaximal(s[k..]);
      assert s[k..][RunLen(s[k..])..] == s[k + RunLen(s[k..])..];
    }
  }

  /** Two adjacent characters with which a token starts. */
  predicate Merges(c: char, d: char) {
    (c == CR && d == LF) || (c == BS && d in {BS, 'n', 'r'})
  }

  /** Putting a kept character in front of replaced text starts a token exactly when it merges. */
  lemma HeadStartsNoToken(s: string, want: string)
    requires IsSep(want) && s != [] && TokenLen(s) == 0
    ensures var l := Lex(s[1..]);
      TokenLen([s[0]] + Unlex(WithRun(l, want))) == 0
      <==> (l.Break? && l.text == [] ==> JoinOk(s[0], want))
  {
  }

  lemma LexHead(s: string)
    ensures Lex(s).text != [] ==> s != [] && Lex(s).text[0] == s[0]
    ensures TokenLen(s) == 0 && s != [] ==> Lex(s).text != []
    ensures s == [] ==> Lex(s) == End([])
    ensures TokenLen(s) > 0 ==> Lex(s) == Break([], s[..RunLen(s)], Lex(s[RunLen(s)..]))
  {
  }

  lemma LexRunThen(want: string, u: string, m: Lexed)
    requires IsSep(want)
    ensures TokenLen(u) == 0 && Lex(u) == m ==> Lex(want + u) == Break([], want, m)
    ensures Lex(want + u) == Break([], want, m) ==> Lex(u) == m
  {
  }

  lemma RetokenizeRun(s: string, want: string)
    requires IsSep(want) && TokenLen(s) > 0
    requires var m := WithRun(Lex(s[RunLen(s)..]), want);
      Lex(Unlex(m)) == m <==> Joinable(Lex(s[RunLen(s)..]), want)
    ensures Lex(Unlex(WithRun(Lex(s), want))) == WithRun(Lex(s), want) <==> Joinable(Lex(s), want)
  {
    hide Lex;
    var rest := s[RunLen(s)..];
    var m := WithRun(Lex(rest), want);
    var u := Unlex(m);
    LexHead(s);
    assert [] + want + u == want + u;
    LexRunThen(want, u, m);
    if Joinable(Lex(rest), want) {
      RunIsMaximal(s);
      LexHead(rest);
      LexHead(u);
    }
  }

  lemma JoinablePrepend(c: char, l: Lexed, want: string)
    ensures Joinable(Prepend(c, l), want)
       <==> Joinable(l, want) && (l.Break? && l.text == [] ==> JoinOk(c, want))
  {
  }

  lemma RetokenizeChar(s: string, want: string)
    requires IsSep(want) && s != [] && TokenLen(s) == 0
    requires var m := WithRun(Lex(s[1..]), want);
      Lex(Unlex(m)) == m <==> Joinable(Lex(s[1..]), want)
    ensures Lex(Unlex(WithRun(Lex(s), want))) == WithRun(Lex(s), want) <==> Joinable(Lex(s), want)
  {
    var c, l := s[0], Lex(s[1..]);
    var m := WithRun(l, want);
    HeadStartsNoToken(s, want);
    JoinablePrepend(c, l, want);
    UnlexPrepend(c, m);
    LexCons(c, Unlex(m), m);
  }

  lemma LexCons(c: char, u: string, m: Lexed)
    ensures Lex([c] + u) == Prepend(c, m) <==> TokenLen([c] + u) == 0 && Lex(u) == m
  {
    assert ([c] + u)[1..] == u;
    LexHead([c] + u);
    PrependInjective(c, Lex(u), m);
  }

  lemma PrependInjective(c: char, a: Lexed, b: Lexed)
    ensures Prepend(c, a) == Prepend(c, b) <==> a == b
  {
    assert ([c] + a.text)[1..] == a.text && ([c] + b.text)[1..] == b.text;
  }

  /** Re-tokenizing the repaired text finds `want` once per original run and the same text between the
      runs, exactly when no text piece merges with `want`. */
  lemma {:induction false} Retokenize(s: string, want: string)
    requires IsSep(want)
    ensures Lex(Unlex(WithRun(Lex(s), want))) == WithRun(Lex(s), want) <==> Joinable(Lex(s), want)
    decreases |s|
  {
    if s == [] {
    } else if TokenLen(s) > 0 {
      Retokenize(s[RunLen(s)..], want);
      RetokenizeRun(s, want);
    } else {
      Retokenize(s[1..], want);
      RetokenizeChar(s, want);
    }
  }

  lemma {:induction false} WithRunShape(l: Lexed, want: string)
    ensures Texts(WithRun(l, want)) == Texts(l)
    ensures Runs(WithRun(l, want)) == seq(|Runs(l)|, _ => want)
    ensures WithRun(WithRun(l, want), want) == WithRun(l, want)
  {
    if l.Break? {
      WithRunShape(l.rest, want);
    }
  }

  /** Separator repair normalizes: without a separator to go by, or to replace, nothing changes; on every joinable
      target the result has the same text pieces, one `want` per original run, and a second repair changes nothing. */
  lemma RepairNormalizes(src: string, tgt: string)
    ensures Convention(src).None? || Separators(tgt) == [] ==> MatchSource(src, tgt) == tgt
    ensures Convention(src).Some? && Joinable(Lex(tgt), Convention(src).value) ==>
      var out := MatchSource(src, tgt);
      && Texts(Lex(out)) == Texts(Lex(tgt))
      && Separators(out) == seq(|Separators(tgt)|, _ => Convention(src).value)
      && MatchSource(src, out) == out
  {
    if Convention(src).Some? {
      var want, l := Convention(src).value, Lex(tgt);
      Retokenize(tgt, want);
      WithRunShape(l, want);
      UnlexLex(tgt);
      if l.Break? && Joinable(l, want) {
        assert Lex(MatchSource(src, tgt)) == WithRun(l, want);
      }
    }
  }

  /** Where a piece does merge, the repair damages the text: a lone backslash before a real newline takes
      the backslash of the new separator with it, and repairing again damages the text further. */
  lemma RepairCanDamage()
    ensures var src, tgt, out := [BS, 'n'], [BS, LF], [BS, BS, 'n'];
      && Convention(src) == Some([BS, 'n']) && !Joinable(Lex(tgt), [BS, 'n'])
      && MatchSource(src, tgt) == out && MatchSource(src, out) == [BS, 'n', 'n']
  {
    LexSource();
    LexTarget();
    LexDamaged();
    hide Lex;
    OneBreak([BS, 'n'], [BS, LF], [BS], [LF], []);
    OneBreak([BS, 'n'], [BS, BS, 'n'], [], [BS, BS], ['n']);
    assert [BS] + [BS, 'n'] + [] == [BS, BS, 'n'] && [] + [BS, 'n'] + ['n'] == [BS, 'n', 'n'];
  }

  lemma OneBreak(src: string, tgt: string, a: string, run: string, b: string)
    requires Lex(src) == Break([], src, End([])) && IsSep(src) && Lex(tgt) == Break(a, run, End(b))
    ensures Convention(src) == Some(src) && MatchSource(src, tgt) == a + src + b
  {
    hide Lex, IsSep;
    OneRun([], src, []);
    OneRun(a, run, b);
    assert WithRun(Lex(tgt), src) == Break(a, src, End(b));
    assert Unlex(Break(a, src, End(b))) == a + src + Unlex(End(b));
  }

  lemma OneRun(a: string, run: string, b: string)
    ensures Runs(Break(a, run, End(b))) == [run]
  {
    assert Runs(End(b)) == [];
  }

  lemma LexSource()
    ensures Lex([BS, 'n']) == Break([], [BS, 'n'], End([]))
  {
  }

  lemma LexTarget()
    ensures Lex([BS, LF]) == Break([BS], [LF], End([]))
  {
    hide Lex;
    assert [LF] + [] == [LF];
    assert Lex([]) == End([]) by {
      LexHead([]);
    }
    LexRunThen([LF], [], End([]));
    assert [BS] + [LF] == [BS, LF];
    LexCons(BS, [LF], Break([], [LF], End([])));
  }

  lemma LexDamaged()
    ensures Lex([BS, BS, 'n']) == Break([], [BS, BS], End(['n']))
  {
    hide Lex;
    assert Lex([]) == End([]) by {
      LexHead([]);
    }
    assert ['n'] + [] == ['n'];
    LexCons('n', [], End([]));
    assert [BS, BS] + ['n'] == [BS, BS, 'n'];
    LexRunThen([BS, BS], ['n'], End(['n']));
  }

  // ------------------------------------------------------------------- audit

  /** `(msgctxt, msgid, msgstr)` as raw file bytes. */
  datatype Entry = Entry(key: string, src: string, tgt: string)

  datatype Drift = Drift(key: string, sourceBreaks: nat, targetBreaks: nat)

  predicate Untranslated(e: Entry) {
    Strip(e.tgt) == []
  }

  /** The source breaks, the target does not. */
  predicate BreaksLost(e: Entry) {
    !Untranslated(e) && Separators(UnescapeRaw(e.src)) != [] && Separators(UnescapeRaw(e.tgt)) == []
  }

  /** The raw msgstr the audit proposes, when it proposes one. */
  function Fix(e: Entry): Option<string> {
    if Untranslated(e) || BreaksLost(e) || RepairRaw(e.src, e.tgt) == e.tgt then None
    else Some(RepairRaw(e.src, e.tgt))
  }

  function DriftOf(e: Entry): seq<Drift> {
    var s, t := Separators(UnescapeRaw(e.src)), Separators(UnescapeRaw(e.tgt));
    if Untranslated(e) || s == [] || t == [] || |s| == |t| then [] else [Drift(e.key, |s|, |t|)]
  }

  /** Fixes by key; a later entry with the same key overwrites an earlier one. */
  function Fixes(es: seq<Entry>): (m: map<string, string>) {
    if es == [] then map[]
    else
      var m, e := Fixes(es[..|es| - 1]), es[|es| - 1];
      if Fix(e).Some? then m[e.key := Fix(e).value] else m
  }

  function Repaired(es: seq<Entry>): seq<Entry> {
    if es == [] then []
    else Repaired(es[..|es| - 1]) + if Fix(es[|es| - 1]).Some? then [es[|es| - 1]] else []
  }

  function Lost(es: seq<Entry>): seq<Entry> {
    if es == [] then [] else Lost(es[..|es| - 1]) + if BreaksLost(es[|es| - 1]) then [es[|es| - 1]] else []
  }

  function Drifts(es: seq<Entry>): seq<Drift> {
    if es == [] then [] else Drifts(es[..|es| - 1]) + DriftOf(es[|es| - 1])
  }

  /** `audit_separators`: one pass that fills the fixes and the three report lists. */
  method AuditSeparators(entries: seq<Entry>)
    returns (fixes: map<string, string>, repaired: seq<Entry>, lost: seq<Entry>, drift: seq<Drift>)
    ensures fixes == Fixes(entries) && repaired == Repaired(entries)
    ensures lost == Lost(entries) && drift == Drifts(entries)
  {
    fixes, repaired, lost, drift := map[], [], [], [];
    for i := 0 to |entries|
      invariant fixes == Fixes(entries[..i]) && repaired == Repaired(entries[..i])
      invariant lost == Lost(entries[..i]) && drift == Drifts(entries[..i])
    {
      var e := entries[i];
      assert entries[..i + 1][..i] == entries[..i] && entries[..i + 1][i] == e;
      if Strip(e.tgt) == [] {
        continue;
      }
      var s, t := Separators(UnescapeRaw(e.src)), Separators(UnescapeRaw(e.tgt));
      if s != [] && t == [] {
        lost := lost + [e];
        continue;
      }
      if s != [] && t != [] && |s| != |t| {
        drift := drift + [Drift(e.key, |s|, |t|)];
      }
      var raw := RepairRaw(e.src, e.tgt);
      if raw != e.tgt {
        fixes := fixes[e.key := raw];
        repaired := repaired + [e];
      }
    }
    assert entries[..|entries|] == entries;
  }

  /** The separator of the source does not merge with the text of the target. */
  predicate SafeToRepair(e: Entry) {
    var want := Convention(UnescapeRaw(e.src));
    want.Some? ==> Joinable(Lex(UnescapeRaw(e.tgt)), want.value)
  }

  /** Every run of the target is already the separator of the source. */
  predicate RunsMatch(e: Entry) {
    var want := Convention(UnescapeRaw(e.src));
    want.Some? ==> forall r :: r in Separators(UnescapeRaw(e.tgt)) ==> r == want.value
  }

  lemma {:induction false} WithRunFixpoint(l: Lexed, want: string)
    ensures WithRun(l, want) == l <==> forall r :: r in Runs(l) ==> r == want
  {
    if l.Break? {
      WithRunFixpoint(l.rest, want);
      assert l.run in Runs(l);
      assert forall r :: r in Runs(l) <==> r == l.run || r in Runs(l.rest);
    }
  }

  /** The first break of a text: the piece before it, its run, and what follows. */
  lemma {:induction false} LexShape(s: string) returns (t: string, run: string, rest: string)
    requires Lex(s).Break?
    ensures s == t + (run + rest) && Lex(s) == Break(t, run, Lex(rest))
    ensures RunLen(run + rest) == |run| > 0 && TokenLen(run + rest) > 0 && TokenLen(rest) == 0
    ensures t == [] <==> TokenLen(s) > 0
    decreases |s|
  {
    hide Lex, TokenLen, RunLen;
    LexHead(s);
    RunPositive(s);
    if TokenLen(s) > 0 {
      t, run, rest := [], s[..RunLen(s)], s[RunLen(s)..];
      RunIsMaximal(s);
      assert run + rest == s;
    } else {
      LexStep(s);
      var t', run', rest' := LexShape(s[1..]);
      t, run, rest := [s[0]] + t', run', rest';
      assert s == [s[0]] + s[1..];
    }
  }

  lemma RunPositive(s: string)
    ensures RunLen(s) > 0 <==> TokenLen(s) > 0
  {
  }

  lemma LexStep(s: string)
    requires TokenLen(s) == 0
    ensures Lex(s).Break? ==> s != [] && Lex(s) == Prepend(s[0], Lex(s[1..]))
  {
    hide TokenLen;
  }

  lemma TokenStarts(x: string)
    ensures TokenLen(x) > 0 <==> x != [] && (x[0] == LF || (|x| >= 2 && Merges(x[0], x[1])))
  {
  }

  /** A text that starts with a separator starts with a token at least as long, and more of the same run follows
      with a token. */
  lemma RunFrom(want: string, u: string)
    requires IsSep(want)
    ensures RunLen(want + u) >= TokenLen(want + u) >= |want|
    ensures RunLen(want + u) > |want| ==> TokenLen(u) > 0
  {
    var x := want + u;
    assert x[|want|..] == u;
    if TokenLen(x) > |want| {
      assert u[0] == x[|want|] && u[1] == x[|want| + 1];
    }
  }

  function LfCount(s: string): nat {
    multiset(s)[LF]
  }

  /** Putting separators without a line feed, or of one character, for the runs adds no line feed, or no length. */
  lemma {:induction false} RepairAdds(s: string, want: string)
    ensures LF !in want ==> LfCount(Unlex(WithRun(Lex(s), want))) <= LfCount(s)
    ensures |want| == 1 ==> |Unlex(WithRun(Lex(s), want))| <= |s|
    decreases |s|
  {
    UnlexLex(s);
    if Lex(s).Break? {
      var t, run, rest := LexShape(s);
      RepairAdds(rest, want);
    }
  }

  /** A piece that starts no token in front of its run but starts one in front of `want` is one character, which
      merges with `want`. */
  lemma PieceMerges(t: string, run: string, rest: string, want: string, v: string)
    requires t != [] && run != [] && want != [] && TokenLen(run + rest) > 0
    requires TokenLen(t + (run + rest)) == 0 && TokenLen(t + (want + v)) > 0
    ensures |t| == 1 && Merges(t[0], want[0]) && (t[0] == BS ==> run[0] in {CR, LF})
  {
    hide TokenLen;
    var x, y := t + (run + rest), t + (want + v);
    assert x[0] == t[0] == y[0];
    assert |t| == 1 ==> x[1] == run[0] && y[1] == want[0];
    TokenStarts(run + rest);
    TokenStarts(x);
    TokenStarts(y);
  }

  /** Then the repaired text has fewer line feeds, or no more characters. */
  lemma MergedAdds(rest: string, want: string)
    requires IsSep(want) && TokenLen(rest) == 0 && Lex(rest).Break? && TokenLen(Unlex(WithRun(Lex(rest), want))) > 0
    ensures var u := Unlex(WithRun(Lex(rest), want)); |u| <= |rest| || LfCount(u) < LfCount(rest)
  {
    hide TokenLen, RunLen, Lex;
    var t, run, rest' := LexShape(rest);
    var v := Unlex(WithRun(Lex(rest'), want));
    assert t + want + v == t + (want + v);
    PieceMerges(t, run, rest', want, v);
    RepairAdds(rest, want);
    RepairAdds(rest', want);
    if want[0] == BS {
      LfInRun(run, rest');
      LfParts(t, want, v);
      LfParts(t, run, rest');
      NoLf(want);
    }
  }

  lemma LfParts(a: string, b: string, c: string)
    ensures LfCount(a + (b + c)) == LfCount(a) + LfCount(b) + LfCount(c)
  {
  }

  lemma NoLf(want: string)
    requires IsSep(want) && want[0] == BS
    ensures LF !in want && LfCount(want) == 0
  {
  }

  lemma Overhang(run: string, rest: string, want: string, u: string)
    requires run + rest == want + u && |run| >= |want|
    ensures u == run[|want|..] + rest
  {
    assert (run + rest)[|want|..] == run[|want|..] + rest && (want + u)[|want|..] == u;
  }

  /** When putting `want` for every run changes nothing, the first run is as long as `want`. */
  lemma RunNotLonger(run: string, rest: string, want: string)
    requires IsSep(want) && RunLen(run + rest) == |run| && TokenLen(rest) == 0
    requires run + rest == want + Unlex(WithRun(Lex(rest), want))
    ensures |run| == |want|
  {
    hide *;
    var u := Unlex(WithRun(Lex(rest), want));
    RunFrom(want, u);
    Overhang(run, rest, want, u);
    if |run| > |want| {
      MoreThanRest(rest, want, run[|want|..]);
    }
  }

  lemma MoreThanRest(rest: string, want: string, extra: string)
    requires IsSep(want) && TokenLen(rest) == 0 && TokenLen(Unlex(WithRun(Lex(rest), want))) > 0
    requires Unlex(WithRun(Lex(rest), want)) == extra + rest
    ensures extra == []
  {
    hide TokenLen, RunLen, Lex, IsSep;
    UnlexLex(rest);
    LfParts(extra, rest, []);
    assert extra + (rest + []) == extra + rest;
    if Lex(rest).Break? {
      MergedAdds(rest, want);
    }
  }

  lemma LfInRun(run: string, rest: string)
    requires run != [] && TokenLen(run + rest) > 0 && RunLen(run + rest) == |run| && run[0] in {CR, LF}
    ensures LfCount(run) > 0
  {
    var x := run + rest;
    assert run == x[..|run|];
    if run[0] == CR {
      assert run[1] == LF;
    }
    assert LF in run;
  }

  /** Putting `want` for every run changes nothing only when every run is `want` already, however the pieces merge. */
  lemma {:induction false} SameRuns(s: string, want: string)
    requires IsSep(want) && Unlex(WithRun(Lex(s), want)) == s
    ensures forall r :: r in Separators(s) ==> r == want
    decreases |s|
  {
    hide Lex, TokenLen, RunLen, IsSep;
    if Lex(s).Break? {
      hide Runs;
      var t, run, rest := LexShape(s);
      var u := Unlex(WithRun(Lex(rest), want));
      assert t + want + u == t + (want + u);
      SameTail(t, run + rest, want + u);
      RunNotLonger(run, rest, want);
      SamePrefix(run, rest, want, u);
      SameRuns(rest, want);
      RunsCons(t, run, Lex(rest));
      assert Separators(s) == [run] + Separators(rest);
    }
  }

  lemma RunsCons(t: string, run: string, rest: Lexed)
    ensures Runs(Break(t, run, rest)) == [run] + Runs(rest)
  {
  }

  lemma SameTail(t: string, x: string, y: string)
    ensures t + x == t + y ==> x == y
  {
    assert (t + x)[|t|..] == x && (t + y)[|t|..] == y;
  }

  lemma SamePrefix(a: string, x: string, b: string, y: string)
    requires |a| == |b|
    ensures a + x == b + y ==> a == b && x == y
  {
    assert (a + x)[..|a|] == a && (b + y)[..|b|] == b;
    assert (a + x)[|a|..] == x && (b + y)[|b|..] == y;
  }

  /** The repair leaves a target alone exactly when its runs are those of its source already. */
  lemma UnchangedExact(src: string, tgt: string)
    ensures MatchSource(src, tgt) == tgt
       <==> (Convention(src).Some? ==> forall r :: r in Separators(tgt) ==> r == Convention(src).value)
  {
    hide Lex, FirstToken;
    if Convention(src).Some? {
      var want := Convention(src).value;
      UnlexLex(tgt);
      WithRunFixpoint(Lex(tgt), want);
      if MatchSource(src, tgt) == tgt && Separators(tgt) != [] {
        SameRuns(tgt, want);
      }
    }
  }

  // -------------------------------------------------- when one repair is enough

  predicate AllRuns(l: Lexed, want: string) {
    forall r :: r in Runs(l) ==> r == want
  }

  /** The piece in front of the first break ends in a backslash that merges with a double backslash behind it, but
      leaves one just like it: nothing else merges with what remains. */
  predicate HarmlessMerge(l: Lexed, want: string, first: bool)
    requires l.Break? && l.text != []
  {
    && want == [BS, BS] && l.text[|l.text| - 1] == BS && (first || |l.text| >= 2)
    && !(l.rest.text != [] && l.rest.text[0] in {BS, 'n', 'r'})
  }

  /** Every piece keeps apart from the separator put behind it, or merges without harm; `first` when no break
      stands before l. */
  predicate Settling(l: Lexed, want: string, first: bool) {
    l.End?
    || ((l.text == [] || JoinOk(l.text[|l.text| - 1], want) || HarmlessMerge(l, want, first))
        && Settling(l.rest, want, false))
  }

  function Repairs(s: string, want: string): string {
    Unlex(WithRun(Lex(s), want))
  }

  lemma AllRunsCons(t: string, run: string, rest: Lexed, want: string)
    ensures AllRuns(Break(t, run, rest), want) <==> run == want && AllRuns(rest, want)
  {
    hide Runs;
    RunsCons(t, run, rest);
    var all := Runs(Break(t, run, rest));
    assert all[0] == run && run in all && forall r :: r in all <==> r == run || r in Runs(rest);
  }

  lemma AllRunsPrepend(c: char, l: Lexed, want: string)
    ensures AllRuns(Prepend(c, l), want) <==> AllRuns(l, want)
  {
    assert Runs(Prepend(c, l)) == Runs(l);
  }

  /** The text `want + u` has only good runs exactly when no token starts u, and u has. */
  lemma AllRunsRun(want: string, u: string)
    requires IsSep(want)
    ensures AllRuns(Lex(want + u), want) <==> TokenLen(u) == 0 && AllRuns(Lex(u), want)
  {
    hide Lex, AllRuns, IsSep;
    var x := want + u;
    RunFrom(want, u);
    LexHead(x);
    RunPositive(x);
    AllRunsCons([], x[..RunLen(x)], Lex(x[RunLen(x)..]), want);
    if TokenLen(u) == 0 {
      LexRunThen(want, u, Lex(u));
      AllRunsCons([], want, Lex(u), want);
    } else {
      RunMore(want, u);
    }
  }

  lemma RunMore(want: string, u: string)
    requires IsSep(want) && TokenLen(u) > 0
    ensures RunLen(want + u) > |want|
  {
    RunFrom(want, u);
    assert (want + u)[|want|..] == u;
  }

  lemma AllRunsChar(c: char, u: string, want: string)
    requires TokenLen([c] + u) == 0
    ensures AllRuns(Lex([c] + u), want) <==> AllRuns(Lex(u), want)
  {
    hide Lex, AllRuns, TokenLen;
    LexCons(c, u, Lex(u));
    AllRunsPrepend(c, Lex(u), want);
  }

  lemma SettlingPrepend(c: char, l: Lexed, want: string)
    requires l.Break? && l.text == [] ==> JoinOk(c, want)
    ensures Settling(Prepend(c, l), want, true) <==> Settling(l, want, true)
  {
  }

  /** A first piece of one character that merges is what the start of a text and the place behind a break differ in. */
  lemma SettlingFirst(s: string, want: string)
    requires IsSep(want) && TokenLen(s) == 0
    ensures Settling(Lex(s), want, false) <==> TokenLen(Repairs(s, want)) == 0 && Settling(Lex(s), want, true)
  {
    if s != [] {
      HeadStartsNoToken(s, want);
      LexStepAlways(s);
      UnlexPrepend(s[0], WithRun(Lex(s[1..]), want));
    }
  }

  lemma LexStepAlways(s: string)
    requires TokenLen(s) == 0 && s != []
    ensures Lex(s) == Prepend(s[0], Lex(s[1..]))
  {
    hide TokenLen;
  }

  lemma RepairsFirst(s: string, want: string)
    requires TokenLen(s) == 0
    ensures Repairs(s, want) == [] <==> s == []
    ensures s != [] ==> Repairs(s, want)[0] == s[0] && Lex(s).text != [] && Lex(s).text[0] == s[0]
  {
    if s != [] {
      LexStepAlways(s);
      UnlexPrepend(s[0], WithRun(Lex(s[1..]), want));
    } else {
      LexHead(s);
    }
  }

  /** A character that merges with the separator behind it. */
  lemma MergedSettles(c: char, rest: string, want: string)
    requires IsSep(want) && !JoinOk(c, want) && TokenLen(rest) == 0
    ensures var u := Repairs(rest, want);
      AllRuns(Lex([c] + (want + u)), want)
      <==> && want == [BS, BS] && c == BS && !(rest != [] && rest[0] in {BS, 'n', 'r'})
           && TokenLen(u) == 0 && AllRuns(Lex(u), want)
  {
    hide Lex, AllRuns, RunLen;
    var u := Repairs(rest, want);
    var x := [c] + (want + u);
    RepairsFirst(rest, want);
    if want == [BS, BS] {
      assert x == want + ([BS] + u);
      AllRunsRun(want, [BS] + u);
      if !(u != [] && u[0] in {BS, 'n', 'r'}) {
        AllRunsChar(BS, u, want);
        BehindBackslash(rest, want);
      }
    } else {
      FirstRunStarts(x, want);
    }
  }

  lemma BehindBackslash(rest: string, want: string)
    requires want == [BS, BS] && TokenLen(rest) == 0 && !(rest != [] && rest[0] in {BS, 'n', 'r'})
    ensures TokenLen(Repairs(rest, want)) == 0
  {
    if rest != [] {
      HeadStartsNoToken(rest, want);
      LexStepAlways(rest);
      UnlexPrepend(rest[0], WithRun(Lex(rest[1..]), want));
    }
  }

  /** The first run of a text starts with its first token. */
  lemma FirstRunStarts(x: string, want: string)
    requires |x| >= 2 && |want| >= 1 && TokenLen(x) >= 2
    ensures AllRuns(Lex(x), want) ==> |want| >= 2 && want[0] == x[0] && want[1] == x[1]
  {
    hide Lex, AllRuns;
    LexHead(x);
    var run := x[..RunLen(x)];
    AllRunsCons([], run, Lex(x[RunLen(x)..]), want);
  }

  /** The repaired text has only the wanted runs exactly when its pieces settle. */
  lemma {:induction false} SettlingExact(s: string, want: string)
    requires IsSep(want)
    ensures AllRuns(Lex(Repairs(s, want)), want) <==> Settling(Lex(s), want, true)
    decreases |s|
  {
    hide Lex, AllRuns, TokenLen, RunLen, IsSep, JoinOk, HarmlessMerge;
    LexHead(s);
    if s == [] {
      NoRuns(want);
    } else if TokenLen(s) > 0 {
      var rest := s[RunLen(s)..];
      RunIsMaximal(s);
      RunPositive(s);
      SettlingExact(rest, want);
      AllRunsRun(want, Repairs(rest, want));
      SettlingFirst(rest, want);
      assert [] + want + Repairs(rest, want) == want + Repairs(rest, want);
    } else {
      var c, u := s[0], Repairs(s[1..], want);
      LexStepAlways(s);
      UnlexPrepend(c, WithRun(Lex(s[1..]), want));
      HeadStartsNoToken(s, want);
      SettlingExact(s[1..], want);
      if TokenLen([c] + u) == 0 {
        AllRunsChar(c, u, want);
        SettlingPrepend(c, Lex(s[1..]), want);
      } else {
        var t, run, rest := LexShape(s[1..]);
        SettlingExact(rest, want);
        MergedStep(s, run, rest, want);
      }
    }
  }

  lemma NoRuns(want: string)
    ensures AllRuns(Lex([]), want)
  {
  }

  lemma MergedStep(s: string, run: string, rest: string, want: string)
    requires IsSep(want) && s != [] && TokenLen(s) == 0 && !JoinOk(s[0], want)
    requires Lex(s[1..]) == Break([], run, Lex(rest)) && TokenLen(rest) == 0
    requires AllRuns(Lex(Repairs(rest, want)), want) <==> Settling(Lex(rest), want, true)
    ensures AllRuns(Lex(Repairs(s, want)), want) <==> Settling(Lex(s), want, true)
  {
    hide Lex, AllRuns, TokenLen, RunLen, IsSep, JoinOk;
    LexStepAlways(s);
    UnlexPrepend(s[0], WithRun(Lex(s[1..]), want));
    assert [] + want + Repairs(rest, want) == want + Repairs(rest, want);
    MergedSettles(s[0], rest, want);
    SettlingFirst(rest, want);
    RepairsFirst(rest, want);
    LexHead(rest);
  }

  /** One repair is enough, or the pieces merge. */
  ghost predicate SettlesAtOnce(src: string, tgt: string) {
    Convention(src).Some? ==> Settling(Lex(tgt), Convention(src).value, true)
  }

  /** Repairing twice is repairing once exactly when every piece of the target keeps apart from the separator or
      merges with it without harm. */
  lemma RepairTwiceExact(src: string, tgt: string)
    ensures MatchSource(src, MatchSource(src, tgt)) == MatchSource(src, tgt) <==> SettlesAtOnce(src, tgt)
  {
    hide Lex, Settling, FirstToken;
    var out := MatchSource(src, tgt);
    UnchangedExact(src, out);
    if Convention(src).Some? {
      var want := Convention(src).value;
      SettlingExact(tgt, want);
      if Separators(tgt) == [] {
        NothingToSettle(Lex(tgt), want);
      }
    }
  }

  lemma NothingToSettle(l: Lexed, want: string)
    requires Runs(l) == []
    ensures Settling(l, want, true) && Unlex(WithRun(l, want)) == Unlex(l)
  {
  }

  lemma RepairUnchanged(srcRaw: string, tgtRaw: string)
    ensures RepairRaw(srcRaw, tgtRaw) == tgtRaw
       <==> Canonical(tgtRaw) && MatchSource(UnescapeRaw(srcRaw), UnescapeRaw(tgtRaw)) == UnescapeRaw(tgtRaw)
  {
    var out := MatchSource(UnescapeRaw(srcRaw), UnescapeRaw(tgtRaw));
    EncodeAfterDecode(tgtRaw);
    DecodeAfterEncode(out);
    EscapeRawIsPerCharacter(out);
    EncodeIsCanonical(out);
  }

  /** The audit leaves a translated entry with breaks alone exactly when its bytes are canonical and its
      runs already match its source. */
  lemma FixExact(e: Entry)
    requires !Untranslated(e) && !BreaksLost(e)
    ensures Fix(e) == None <==> Canonical(e.tgt) && RunsMatch(e)
  {
    RepairUnchanged(e.src, e.tgt);
    UnchangedExact(UnescapeRaw(e.src), UnescapeRaw(e.tgt));
  }

  /** Whatever the entry, one whose runs match and whose bytes are canonical gets no fix. */
  lemma CleanEntryKept(e: Entry)
    requires Canonical(e.tgt) && RunsMatch(e)
    ensures Fix(e) == None
  {
    var src, tgt := UnescapeRaw(e.src), UnescapeRaw(e.tgt);
    EncodeAfterDecode(e.tgt);
    UnlexLex(tgt);
    if Convention(src).Some? {
      WithRunFixpoint(Lex(tgt), Convention(src).value);
    }
  }

  /** A fix settles its entry exactly when one repair is enough for its text. */
  lemma FixSettlesExact(e: Entry)
    requires Fix(e).Some?
    ensures Fix(e.(tgt := Fix(e).value)) == None <==> SettlesAtOnce(UnescapeRaw(e.src), UnescapeRaw(e.tgt))
  {
    hide Lex, Settling, FirstToken, Canonical;
    var src, tgt := UnescapeRaw(e.src), UnescapeRaw(e.tgt);
    var out, e' := MatchSource(src, tgt), e.(tgt := Fix(e).value);
    DecodeAfterEncode(out);
    EscapeRawIsPerCharacter(out);
    EncodeIsCanonical(out);
    RepairTwiceExact(src, tgt);
    RepairUnchanged(e.src, e'.tgt);
    if MatchSource(src, out) != out {
      UnchangedExact(src, out);
      assert Separators(out) != [];
      NotBlank(out);
    }
  }

  /** A text with a break is not blank once it is escaped. */
  lemma NotBlank(s: string)
    requires Separators(s) != []
    ensures Strip(EscapeRaw(s)) != []
  {
    hide Lex, Strip, EscapeRaw, TokenLen, RunLen;
    var t, run, rest := LexShape(s);
    EscapeRawIsPerCharacter(s);
    EncodeConcat(t, run + rest);
    TokenStarts(run + rest);
    EscapedFirst(run + rest);
    assert BS in Encode(s);
    StripHolds(Encode(s), BS);
  }

  lemma EscapedFirst(x: string)
    requires x != [] && x[0] in {BS, CR, LF}
    ensures BS in Encode(x)
  {
    assert EncodeChar(x[0])[0] == BS;
  }

  /** A fixed entry of that kind has no second fix, and its breaks are those of its source. */
  lemma FixSettles(e: Entry)
    requires SafeToRepair(e) && Fix(e).Some?
    ensures Fix(e.(tgt := Fix(e).value)) == None
    ensures Canonical(Fix(e).value) && RunsMatch(e.(tgt := Fix(e).value))
    ensures forall c :: c in Fix(e).value ==> c !in {CR, LF}
  {
    var src, tgt := UnescapeRaw(e.src), UnescapeRaw(e.tgt);
    var out := MatchSource(src, tgt);
    DecodeAfterEncode(out);
    EscapeRawIsPerCharacter(out);
    EncodeIsCanonical(out);
    if Convention(src).Some? {
      RepairNormalizes(src, tgt);
    }
    CleanEntryKept(e.(tgt := Fix(e).value));
  }
}
