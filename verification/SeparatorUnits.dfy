/** What the separator repair does to a text, token by token (po_patch.py SEP_TOKENS, `separators`,
    `separator_convention`, `match_source_format`). */
module SeparatorUnits {
  import opened Text
  import opened Wrappers
  import opened Separators

  /** The six separators, and any other character. Three of them are written out in letters. */
  datatype Unit = Backslashes | TypedCrlf | TypedLf | Crlf | Lf | TypedCr | Other(c: char)

  predicate IsToken(u: Unit) {
    !u.Other?
  }

  function UnitText(u: Unit): string {
    match u
    case Backslashes => ['\\', '\\']
    case TypedCrlf => ['\\', 'r', '\\', 'n']
    case TypedLf => ['\\', 'n']
    case Crlf => ['\r', '\n']
    case Lf => ['\n']
    case TypedCr => ['\\', 'r']
    case Other(c) => [c]
  }

  function Spell(us: seq<Unit>): string {
    if us == [] then [] else UnitText(us[0]) + Spell(us[1..])
  }

  /** The unit is read as what it is in front of that text. */
  predicate ReadAs(u: Unit, rest: string) {
    match u
    case TypedCr => !(|rest| >= 2 && rest[0] == '\\' && rest[1] == 'n')
    case Other(c) =>
      && c != '\n' && !(c == '\r' && rest != [] && rest[0] == '\n')
      && !(c == '\\' && rest != [] && (rest[0] == '\\' || rest[0] == 'n' || rest[0] == 'r'))
    case _ => true
  }

  predicate Proper(us: seq<Unit>) {
    us == [] || (ReadAs(us[0], Spell(us[1..])) && Proper(us[1..]))
  }

  /** How many tokens the units start with. */
  function Leading(us: seq<Unit>): (n: nat)
    ensures n <= |us|
  {
    if us == [] || !IsToken(us[0]) then 0 else 1 + Leading(us[1..])
  }

  /** The breaks of a text: its maximal stretches of tokens, in order. */
  function Breaks(us: seq<Unit>): seq<seq<Unit>>
    decreases |us|
  {
    if us == [] then []
    else if IsToken(us[0]) then [us[..Leading(us)]] + Breaks(us[Leading(us)..])
    else Breaks(us[1..])
  }

  /** The separator of a text: its first break that is a single token. */
  function Wanted(us: seq<Unit>): Option<Unit> {
    FirstSingle(Breaks(us))
  }

  function FirstSingle(breaks: seq<seq<Unit>>): Option<Unit> {
    if breaks == [] then None
    else if |breaks[0]| == 1 then Some(breaks[0][0])
    else FirstSingle(breaks[1..])
  }

  /** The text with every break replaced. */
  function WithBreak(us: seq<Unit>, want: string): string
    decreases |us|
  {
    if us == [] then []
    else if IsToken(us[0]) then want + WithBreak(us[Leading(us)..], want)
    else UnitText(us[0]) + WithBreak(us[1..], want)
  }

  function Texts(breaks: seq<seq<Unit>>): seq<string> {
    if breaks == [] then [] else [Spell(breaks[0])] + Texts(breaks[1..])
  }

  // ------------------------------------------------------- every text in units

  lemma SpellCons(u: Unit, us: seq<Unit>)
    ensures Spell([u] + us) == UnitText(u) + Spell(us)
    ensures Proper([u] + us) <==> ReadAs(u, Spell(us)) && Proper(us)
  {
    assert ([u] + us)[1..] == us;
  }

  function FirstUnit(s: string): Unit
    requires s != []
  {
    if |s| >= 2 && s[0] == '\\' && s[1] == '\\' then Backslashes
    else if |s| >= 4 && s[0] == '\\' && s[1] == 'r' && s[2] == '\\' && s[3] == 'n' then TypedCrlf
    else if |s| >= 2 && s[0] == '\\' && s[1] == 'n' then TypedLf
    else if |s| >= 2 && s[0] == '\r' && s[1] == '\n' then Crlf
    else if s[0] == '\n' then Lf
    else if |s| >= 2 && s[0] == '\\' && s[1] == 'r' then TypedCr
    else Other(s[0])
  }

  lemma FirstUnitRead(s: string)
    requires s != []
    ensures var t := UnitText(FirstUnit(s));
      1 <= |t| <= |s| && s == t + s[|t|..] && ReadAs(FirstUnit(s), s[|t|..])
  {
  }

  /** Every text can be read in units. */
  lemma {:induction false} EveryTextRead(s: string) returns (us: seq<Unit>)
    ensures Proper(us) && Spell(us) == s
    decreases |s|
  {
    us := [];
    if s != [] {
      hide Spell, Proper, FirstUnit, ReadAs, UnitText;
      FirstUnitRead(s);
      var u := FirstUnit(s);
      var rest := EveryTextRead(s[|UnitText(u)|..]);
      us := [u] + rest;
      SpellCons(u, rest);
    } else {
      assert Spell([]) == [];
    }
  }

  // ------------------------------------------------------------------ tokens

  lemma TokenIs(u: Unit, rest: string)
    requires ReadAs(u, rest)
    ensures TokenLen(UnitText(u) + rest) == if IsToken(u) then |UnitText(u)| else 0
  {
    var s := UnitText(u) + rest;
    assert |rest| >= 1 ==> s[|UnitText(u)|] == rest[0];
    assert |rest| >= 2 ==> s[|UnitText(u)| + 1] == rest[1];
  }

  lemma {:induction false} SpellConcat(a: seq<Unit>, b: seq<Unit>)
    ensures Spell(a + b) == Spell(a) + Spell(b)
  {
    hide UnitText;
    if a == [] {
      assert a + b == b;
    } else {
      assert (a + b)[1..] == a[1..] + b;
      SpellConcat(a[1..], b);
    }
  }

  lemma {:induction false} ProperTail(us: seq<Unit>, n: nat)
    requires Proper(us) && n <= |us|
    ensures Proper(us[n..])
  {
    hide ReadAs, Spell;
    if n > 0 {
      ProperTail(us[1..], n - 1);
      assert us[1..][n - 1..] == us[n..];
    } else {
      assert us[0..] == us;
    }
  }

  /** The run a text starts with is its leading tokens. */
  lemma {:induction false} RunIs(us: seq<Unit>)
    requires Proper(us)
    ensures RunLen(Spell(us)) == |Spell(us[..Leading(us)])|
    ensures Spell(us) == Spell(us[..Leading(us)]) + Spell(us[Leading(us)..])
    decreases |us|
  {
    hide ReadAs, UnitText, TokenLen, Proper;
    var n := Leading(us);
    assert us == us[..n] + us[n..];
    SpellConcat(us[..n], us[n..]);
    if us == [] {
      NothingRuns();
    } else {
      ProperUnfold(us);
      var u, rest := us[0], us[1..];
      TokenIs(u, Spell(rest));
      if IsToken(u) {
        RunIs(rest);
        assert us[..n][1..] == rest[..n - 1];
        var t := UnitText(u);
        assert (t + Spell(rest))[|t|..] == Spell(rest);
        TokenNotEmpty(u);
      } else {
        assert us[..0] == [];
      }
    }
  }

  lemma NothingRuns()
    ensures RunLen(Spell([])) == 0
  {
  }

  lemma TokenNotEmpty(u: Unit)
    ensures |UnitText(u)| > 0
  {
  }

  lemma ProperUnfold(us: seq<Unit>)
    requires us != [] && Proper(us)
    ensures ReadAs(us[0], Spell(us[1..])) && Proper(us[1..])
  {
  }

  lemma BreakUnfold(us: seq<Unit>, want: string)
    requires us != []
    ensures Texts(Breaks(us)) == if IsToken(us[0]) then [Spell(us[..Leading(us)])] + Texts(Breaks(us[Leading(us)..]))
                                 else Texts(Breaks(us[1..]))
    ensures WithBreak(us, want) == if IsToken(us[0]) then want + WithBreak(us[Leading(us)..], want)
                                   else UnitText(us[0]) + WithBreak(us[1..], want)
    ensures !IsToken(us[0]) ==> Leading(us) == 0
    ensures IsToken(us[0]) ==> Leading(us) > 0
  {
    hide Spell, UnitText;
    var b, rest := us[..Leading(us)], Breaks(us[Leading(us)..]);
    assert ([b] + rest)[1..] == rest;
  }

  /** The lexer finds exactly the breaks, and replacing its runs replaces them. */
  lemma {:induction false} LexIs(us: seq<Unit>, want: string)
    requires Proper(us)
    ensures Separators.Separators(Spell(us)) == Texts(Breaks(us))
    ensures Unlex(WithRun(Lex(Spell(us)), want)) == WithBreak(us, want)
    decreases |us|
  {
    hide *;
    if us == [] {
      NothingLexed(want);
    } else {
      ProperUnfold(us);
      var s, u, rest := Spell(us), us[0], us[1..];
      TokenNotEmpty(u);
      RunIs(us);
      RunPositive(s);
      SpellUnfold(us);
      TokenIs(u, Spell(rest));
      BreakUnfold(us, want);
      if IsToken(u) {
        var n := Leading(us);
        ProperTail(us, n);
        LexIs(us[n..], want);
        LexBreak(s, Spell(us[..n]), Spell(us[n..]), want);
      } else {
        LexIs(rest, want);
        OtherUnit(u);
        LexOther(u.c, s, Spell(rest), want);
      }
    }
  }

  lemma SpellUnfold(us: seq<Unit>)
    requires us != []
    ensures Spell(us) == UnitText(us[0]) + Spell(us[1..])
  {
  }

  lemma OtherUnit(u: Unit)
    requires !IsToken(u)
    ensures u.Other?
  {
  }

  lemma NothingLexed(want: string)
    ensures Separators.Separators(Spell([])) == Texts(Breaks([]))
        && Unlex(WithRun(Lex(Spell([])), want)) == WithBreak([], want)
  {
  }

  lemma LexBreak(s: string, run: string, rest: string, want: string)
    requires s == run + rest && RunLen(s) == |run| > 0
    ensures Separators.Separators(s) == [run] + Separators.Separators(rest)
    ensures Unlex(WithRun(Lex(s), want)) == want + Unlex(WithRun(Lex(rest), want))
  {
    hide RunLen, TokenLen;
    assert s[..|run|] == run && s[|run|..] == rest;
    assert Lex(s) == Break([], run, Lex(rest));
    assert [] + want + Unlex(WithRun(Lex(rest), want)) == want + Unlex(WithRun(Lex(rest), want));
  }

  lemma LexOther(c: char, s: string, rest: string, want: string)
    requires s == UnitText(Other(c)) + rest && RunLen(s) == 0
    ensures Separators.Separators(s) == Separators.Separators(rest)
    ensures Unlex(WithRun(Lex(s), want)) == UnitText(Other(c)) + Unlex(WithRun(Lex(rest), want))
  {
    hide RunLen, TokenLen;
    assert s[1..] == rest;
    assert Lex(s) == Prepend(c, Lex(rest));
    UnlexPrepend(c, WithRun(Lex(rest), want));
    assert WithRun(Prepend(c, Lex(rest)), want) == Prepend(c, WithRun(Lex(rest), want));
  }

  // -------------------------------------------------------------- single tokens

  lemma OneTokenIsSep(u: Unit)
    requires IsToken(u)
    ensures Spell([u]) == UnitText(u) && IsSep(UnitText(u))
  {
    assert [u][1..] == [] && UnitText(u) + [] == UnitText(u);
  }

  lemma MoreIsNoSep(u: Unit, tail: string)
    requires IsToken(u) && ReadAs(u, tail) && tail != []
    ensures !IsSep(UnitText(u) + tail)
  {
    var s := UnitText(u) + tail;
    if |s| == 4 {
      assert |UnitText(u)| == 2 ==> s[2] == tail[0] && s[3] == tail[1];
    }
  }

  /** Several tokens never read as one. */
  lemma SeveralAreNoSep(us: seq<Unit>)
    requires Proper(us) && |us| >= 2 && IsToken(us[0])
    ensures !IsSep(Spell(us))
  {
    hide IsSep, ReadAs, UnitText;
    ProperUnfold(us);
    var rest := us[1..];
    TokenNotEmpty(rest[0]);
    assert Spell(rest) == UnitText(rest[0]) + Spell(rest[1..]);
    MoreIsNoSep(us[0], Spell(rest));
  }

  lemma {:induction false} LeadingTokens(us: seq<Unit>)
    ensures forall u :: u in us[..Leading(us)] ==> IsToken(u)
  {
    if us != [] && IsToken(us[0]) {
      LeadingTokens(us[1..]);
      assert us[..Leading(us)] == [us[0]] + us[1..][..Leading(us[1..])];
    }
  }

  lemma {:induction false} ProperHead(us: seq<Unit>, n: nat)
    requires Proper(us) && n <= |us| && (n < |us| ==> Leading(us[n..]) == 0)
    requires forall i :: 0 <= i < n ==> IsToken(us[i])
    ensures forall i :: 0 <= i < n ==> IsToken(us[..n][i])
    ensures Proper(us[..n])
  {
    if n > 0 {
      var rest := us[1..];
      assert rest[n - 1..] == us[n..] && forall i :: 0 <= i < n - 1 ==> rest[i] == us[i + 1];
      ProperHead(rest, n - 1);
      assert us[..n] == [us[0]] + rest[..n - 1];
      SpellCons(us[0], rest[..n - 1]);
      SpellConcat(rest[..n - 1], rest[n - 1..]);
      assert rest == rest[..n - 1] + rest[n - 1..];
      ReadAsFront(us[0], Spell(rest[..n - 1]), Spell(rest[n - 1..]));
    }
  }

  lemma ReadAsFront(u: Unit, a: string, b: string)
    requires IsToken(u) && ReadAs(u, a + b)
    ensures ReadAs(u, a)
  {
    assert |a| >= 2 ==> (a + b)[0] == a[0] && (a + b)[1] == a[1];
  }

  lemma {:induction false} LeadingEnds(us: seq<Unit>)
    ensures Leading(us) < |us| ==> Leading(us[Leading(us)..]) == 0
  {
    if us != [] && IsToken(us[0]) {
      LeadingEnds(us[1..]);
      assert us[1..][Leading(us[1..])..] == us[Leading(us)..];
    }
  }

  /** A run is a separator exactly when it is a single token. */
  lemma SingleExact(us: seq<Unit>)
    requires Proper(us) && us != [] && IsToken(us[0])
    ensures var b := us[..Leading(us)];
      && b != [] && (IsSep(Spell(b)) <==> |b| == 1) && (|b| == 1 ==> Spell(b) == UnitText(b[0]) && IsToken(b[0]))
  {
    hide ReadAs, UnitText, Spell, Proper, IsSep;
    var n := Leading(us);
    var b := us[..n];
    LeadingTokens(us);
    LeadingEnds(us);
    assert forall i :: 0 <= i < n ==> us[i] == b[i] && b[i] in b;
    ProperHead(us, n);
    if n == 1 {
      assert b == [us[0]];
      OneTokenIsSep(us[0]);
    } else {
      SeveralAreNoSep(b);
    }
  }

  /** The separator a text goes by is its first break that is a single token. */
  lemma {:induction false} ConventionIs(us: seq<Unit>)
    requires Proper(us)
    ensures FirstToken(Texts(Breaks(us))) == match Wanted(us) case None => None case Some(u) => Some(UnitText(u))
    ensures Wanted(us).Some? ==> IsToken(Wanted(us).value)
    decreases |us|
  {
    hide ReadAs, UnitText, Proper, IsSep, Spell;
    if us != [] {
      ProperUnfold(us);
      if IsToken(us[0]) {
        SingleExact(us);
        ProperTail(us, Leading(us));
        ConventionIs(us[Leading(us)..]);
        BreaksCons(us);
      } else {
        ConventionIs(us[1..]);
      }
    }
  }

  lemma BreaksCons(us: seq<Unit>)
    requires us != [] && IsToken(us[0])
    ensures var b, rest := us[..Leading(us)], Breaks(us[Leading(us)..]);
      && Breaks(us) == [b] + rest && FirstSingle([b] + rest) == (if |b| == 1 then Some(b[0]) else FirstSingle(rest))
      && Texts([b] + rest) == [Spell(b)] + Texts(rest)
      && FirstToken([Spell(b)] + Texts(rest)) == if IsSep(Spell(b)) then Some(Spell(b)) else FirstToken(Texts(rest))
  {
    hide IsSep, Spell;
    var b, rest := us[..Leading(us)], Breaks(us[Leading(us)..]);
    assert ([b] + rest)[1..] == rest && ([Spell(b)] + Texts(rest))[1..] == Texts(rest);
  }

  lemma {:induction false} TextsEmpty(breaks: seq<seq<Unit>>)
    ensures Texts(breaks) == [] <==> breaks == []
  {
  }

  /** The whole repair, token by token: where the source has a break that is one token, every break of the target,
      however many tokens it has come to, becomes that token; everything else stays. */
  lemma RepairExact(source: seq<Unit>, target: seq<Unit>)
    requires Proper(source) && Proper(target)
    ensures MatchSource(Spell(source), Spell(target))
         == if Wanted(source).Some? && Breaks(target) != [] then WithBreak(target, UnitText(Wanted(source).value))
            else Spell(target)
  {
    hide Lex, UnitText, Spell, Proper, Wanted, Breaks, Texts, FirstToken, WithBreak;
    LexIs(source, []);
    ConventionIs(source);
    TextsEmpty(Breaks(target));
    if Wanted(source).Some? {
      LexIs(target, UnitText(Wanted(source).value));
    } else {
      LexIs(target, []);
    }
  }
}
