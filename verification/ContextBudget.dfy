/** Fitting context blocks into a token budget by tier (context.py `estimate_tokens`,
    `ContextAssembler.assemble`, `_trim`). Rational arithmetic stands for the source's floats. */
module ContextBudget {
  import opened Text
  import opened StableSort

  // --------------------------------------------------------------- estimating

  predicate Cjk(c: char) {
    var n := c as int;
    0x3000 <= n <= 0x9fff || 0xff00 <= n <= 0xffef || 0xac00 <= n <= 0xd7af
  }

  function CjkCount(s: string): (n: nat)
    ensures n <= |s|
  {
    if s == [] then 0 else (if Cjk(s[0]) then 1 else 0) + CjkCount(s[1..])
  }

  /** 1.5 characters per token for CJK, 4 for the rest: `int(cjk / 1.5 + other / 4) + 1`. */
  function Tokens(s: string): nat {
    if s == [] then 0 else (8 * CjkCount(s) + 3 * (|s| - CjkCount(s))) / 12 + 1
  }

  lemma {:induction false} CjkCountConcat(a: string, b: string)
    ensures CjkCount(a + b) == CjkCount(a) + CjkCount(b)
  {
    if a == [] {
      assert a + b == b;
    } else {
      assert (a + b)[1..] == a[1..] + b;
      CjkCountConcat(a[1..], b);
    }
  }

  /** The estimate is subadditive and monotone under extension. */
  lemma TokensConcat(a: string, b: string)
    ensures Tokens(a) <= Tokens(a + b) <= Tokens(a) + Tokens(b)
  {
    CjkCountConcat(a, b);
    if a == [] {
      assert a + b == b;
    } else if b == [] {
      assert a + b == a;
    }
  }

  // ----------------------------------------------------------------- trimming

  const MIN_TRIM := 120

  function MarkHead(): string {
    "\n\U{2026}[TRUNCATED: ~"
  }

  function MarkTail(): string {
    Tail1() + (Tail2() + Tail3())
  }

  function Tail1(): string {
    " tokens not shown. Do NOT des"
  }

  function Tail2(): string {
    "cribe content beyond this po"
  }

  function Tail3(): string {
    "int \U{2014} request it explicitly.]"
  }

  function Marker(dropped: nat): string {
    MarkHead() + (Decimal(dropped) + MarkTail())
  }

  /** What the source charges for the marker: its text with six digits. */
  function MarkerCost(est: string -> nat): nat {
    est(MarkHead() + ("000000" + MarkTail()))
  }

  function Max(a: int, b: int): int {
    if a > b then a else b
  }

  function HeadAllowance(est: string -> nat, allowance: nat): nat {
    Max(1, allowance - MarkerCost(est))
  }

  /** Characters kept: the head allowance at the text's own characters per token, less a tenth. */
  function KeepChars(est: string -> nat, text: string, allowance: nat): nat {
    Max(1, (HeadAllowance(est, allowance) * |text| * 9) / (10 * Max(1, est(text))))
  }

  function Head(est: string -> nat, text: string, allowance: nat): string {
    var k := KeepChars(est, text, allowance);
    if k <= |text| then text[..k] else text
  }

  function Dropped(est: string -> nat, text: string, allowance: nat): nat {
    Max(0, est(text) - est(Head(est, text, allowance)))
  }

  function Trim(est: string -> nat, text: string, allowance: nat): string {
    Head(est, text, allowance) + Marker(Dropped(est, text, allowance))
  }

  lemma {:induction false} NoCjk(s: string)
    requires forall c :: c in s ==> !Cjk(c)
    ensures CjkCount(s) == 0
  {
    if s != [] {
      assert s[0] in s && forall c :: c in s[1..] ==> c in s;
      NoCjk(s[1..]);
    }
  }

  lemma {:induction false} OnlyCjk(s: string)
    requires forall c :: c in s ==> Cjk(c)
    ensures CjkCount(s) == |s|
  {
    if s != [] {
      assert s[0] in s && forall c :: c in s[1..] ==> c in s;
      OnlyCjk(s[1..]);
    }
  }

  lemma HeadPart()
    ensures |MarkHead()| == 15 && CjkCount(MarkHead()) == 0
  {
    assert forall i :: 0 <= i < 15 ==> !Cjk(MarkHead()[i]);
    NoCjk(MarkHead());
  }

  lemma TailPart1()
    ensures |Tail1()| == 29 && CjkCount(Tail1()) == 0
  {
    assert forall i :: 0 <= i < 29 ==> !Cjk(Tail1()[i]);
    NoCjk(Tail1());
  }

  lemma TailPart2()
    ensures |Tail2()| == 28 && CjkCount(Tail2()) == 0
  {
    assert forall i :: 0 <= i < 28 ==> !Cjk(Tail2()[i]);
    NoCjk(Tail2());
  }

  lemma TailPart3()
    ensures |Tail3()| == 29 && CjkCount(Tail3()) == 0
  {
    assert forall i :: 0 <= i < 29 ==> !Cjk(Tail3()[i]);
    NoCjk(Tail3());
  }

  lemma MarkerParts()
    ensures |MarkHead()| + |MarkTail()| == 101
    ensures CjkCount(MarkHead()) == 0 && CjkCount(MarkTail()) == 0
  {
    HeadPart();
    TailPart1();
    TailPart2();
    TailPart3();
    hide MarkHead, Tail1, Tail2, Tail3;
    CjkCountConcat(Tail2(), Tail3());
    CjkCountConcat(Tail1(), Tail2() + Tail3());
  }

  lemma MarkerSize(digits: string)
    requires digits != [] && forall c :: c in digits ==> '0' <= c <= '9'
    ensures var m := MarkHead() + (digits + MarkTail()); |m| == 101 + |digits| && CjkCount(m) == 0
  {
    hide MarkHead, MarkTail;
    MarkerParts();
    NoCjk(digits);
    CjkCountConcat(digits, MarkTail());
    CjkCountConcat(MarkHead(), digits + MarkTail());
  }

  lemma MarkerCostIs27()
    ensures MarkerCost(Tokens) == 27
  {
    MarkerSize("000000");
  }

  lemma DivMul(x: nat, d: nat)
    requires d > 0
    ensures d * (x / d) <= x
  {
  }

  lemma MulLe(a: nat, b: int, c: int)
    requires b <= c
    ensures a * b <= a * c
  {
  }

  lemma MulLt(a: nat, b: int, c: int)
    requires a * b < a * c
    ensures b < c
  {
  }

  lemma CutBound(hn: nat, full: nat, k: nat)
    requires full > 0 && k <= (hn * 9) / (10 * full)
    ensures 10 * (k * full) <= 9 * hn
  {
    DivMul(hn * 9, 10 * full);
    MulLe(10 * full, k, (hn * 9) / (10 * full));
    assert (10 * full) * k == 10 * (k * full);
  }

  /** The quotient by which the head is cut, against the whole and its token count. */
  lemma HeadCut(text: string, allowance: nat)
    requires text != [] && allowance >= MIN_TRIM
    ensures var k := |Head(Tokens, text, allowance)|;
      HeadAllowance(Tokens, allowance) == allowance - 27 && 1 <= k
      && (k == 1 || 10 * (k * Tokens(text)) <= 9 * ((allowance - 27) * |text|))
  {
    MarkerCostIs27();
    hide MarkerCost, Tokens;
    var full, hn := Tokens(text), (allowance - 27) * |text|;
    TokensPositive(text);
    var k := |Head(Tokens, text, allowance)|;
    if k > 1 {
      CutBound(hn, full, k);
    }
  }

  lemma TokensPositive(s: string)
    requires s != []
    ensures Tokens(s) > 0
  {
  }

  /** Twelfths of a token a text costs: 8 for a CJK character, 3 for another. */
  function Twelfths(s: string): nat {
    5 * CjkCount(s) + 3 * |s|
  }

  lemma TwelfthsBound(s: string)
    requires s != []
    ensures Twelfths(s) < 12 * Tokens(s) <= Twelfths(s) + 12
  {
  }

  /** The head that is kept is no denser in CJK than the whole text. */
  predicate NoDenser(text: string, allowance: nat) {
    CjkCount(Head(Tokens, text, allowance)) * |text| <= CjkCount(text) * |Head(Tokens, text, allowance)|
  }

  /** A head that is no denser than the whole costs less than nine tenths of its share. */
  lemma HeadShare(text: string, allowance: nat)
    requires text != [] && allowance >= MIN_TRIM && NoDenser(text, allowance)
    ensures 10 * Twelfths(Head(Tokens, text, allowance)) < 108 * (allowance - 27)
  {
    HeadCut(text, allowance);
    TwelfthsBound(text);
    hide Head, Tokens, HeadAllowance;
    var head := Head(Tokens, text, allowance);
    if |head| > 1 {
      Scaled(|text|, |head|, CjkCount(head), CjkCount(text));
      ShareBound(|text|, allowance - 27, |head|, Tokens(text), Twelfths(head), Twelfths(text));
    }
  }

  lemma Scaled(n: nat, k: nat, ck: nat, c: nat)
    requires ck * n <= c * k
    ensures n * (5 * ck + 3 * k) <= k * (5 * c + 3 * n)
  {
    assert n * (5 * ck + 3 * k) == 5 * (ck * n) + 3 * (k * n);
    assert k * (5 * c + 3 * n) == 5 * (c * k) + 3 * (k * n);
  }

  lemma Scale(c: int, a: int, b: int)
    ensures a * (c * b) == c * (a * b)
  {
  }

  lemma ShareBound(n: nat, h: nat, k: nat, full: nat, y: nat, t: nat)
    requires n > 0 && k > 0 && 10 * (k * full) <= 9 * (h * n) && n * y <= k * t && t < 12 * full
    ensures 10 * y < 108 * h
  {
    MulLe(k, t, 12 * full - 1);
    assert k * (12 * full - 1) == k * (12 * full) - k;
    Scale(12, k, full);
    Scale(10, n, y);
    Scale(108, n, h);
    MulLt(n, 10 * y, 108 * h);
  }

  /** A block trimmed to an allowance of at least MIN_TRIM costs at most that allowance, marker included, when the
      kept head is no denser than the whole and the count of dropped tokens has at most 44 digits. */
  lemma TrimFits(text: string, allowance: nat)
    requires text != [] && allowance >= MIN_TRIM && NoDenser(text, allowance)
    requires |Decimal(Dropped(Tokens, text, allowance))| <= 44
    ensures Tokens(Trim(Tokens, text, allowance)) <= allowance
  {
    hide Head, NoDenser, MarkHead, MarkTail;
    var dropped := Dropped(Tokens, text, allowance);
    var head, marker := Head(Tokens, text, allowance), Marker(dropped);
    HeadShare(text, allowance);
    MarkerSize(Decimal(dropped));
    CjkCountConcat(head, marker);
    assert Twelfths(head + marker) == Twelfths(head) + 3 * |marker|;
    TwelfthsBound(head + marker);
  }

  /** All CJK or all not: the density the estimate assumes is the same everywhere in the text. */
  predicate Uniform(text: string) {
    (forall c :: c in text ==> Cjk(c)) || (forall c :: c in text ==> !Cjk(c))
  }

  /** Whatever is kept of a uniform text is exactly as dense as the whole. */
  lemma UniformNoDenser(text: string, allowance: nat)
    requires Uniform(text)
    ensures NoDenser(text, allowance)
  {
    var head := Head(Tokens, text, allowance);
    assert forall c :: c in head ==> c in text;
    if forall c :: c in text ==> Cjk(c) {
      OnlyCjk(head);
      OnlyCjk(text);
    } else {
      NoCjk(head);
      NoCjk(text);
    }
  }

  /** Whatever the text, the head alone costs less than 2.4 times its share of the allowance plus one. */
  lemma MixedHeadBound(text: string, allowance: nat)
    requires text != [] && allowance >= MIN_TRIM
    ensures 5 * Tokens(Head(Tokens, text, allowance)) < 12 * (allowance - 27) + 5
  {
    HeadCut(text, allowance);
    var head := Head(Tokens, text, allowance);
    TwelfthsBound(head);
    TwelfthsBound(text);
    hide Head, HeadAllowance, Tokens;
    if |head| > 1 {
      MixedBound(|text|, allowance - 27, |head|, Tokens(text));
    }
  }

  lemma MixedBound(n: nat, h: nat, k: nat, full: nat)
    requires n > 0 && k > 0 && 10 * (k * full) <= 9 * (h * n) && n < 4 * full
    ensures 10 * k < 36 * h
  {
    MulLe(k, n + 1, 4 * full);
    assert k * (n + 1) == k * n + k;
    Scale(4, k, full);
    Scale(10, n, k);
    Scale(36, n, h);
    MulLt(n, 10 * k, 36 * h);
  }

  lemma {:induction false} Repeated(c: char, n: nat)
    ensures CjkCount(seq(n, _ => c)) == if Cjk(c) then n else 0
  {
    if n > 0 {
      Repeated(c, n - 1);
      assert seq(n, _ => c)[1..] == seq(n - 1, _ => c);
    }
  }

  /** Mixed text can exceed its allowance: 600 CJK characters in front of 6000 letters, trimmed to 200
      tokens, keep a head that alone costs 353. */
  lemma MixedOverflows()
    ensures var text := seq(600, _ => '\U{4E00}') + seq(6000, _ => 'a');
      Tokens(text) > 200 && Tokens(Trim(Tokens, text, 200)) >= 353 && !NoDenser(text, 200)
  {
    var a, b := seq(600, _ => '\U{4E00}'), seq(6000, _ => 'a');
    var text := a + b;
    Repeated('\U{4E00}', 600);
    Repeated('a', 6000);
    CjkCountConcat(a, b);
    MarkerCostIs27();
    assert Tokens(text) == 1901;
    var k := KeepChars(Tokens, text, 200);
    assert k == (173 * 6600 * 9) / 19010 == 540;
    var head := Head(Tokens, text, 200);
    assert head == seq(540, _ => '\U{4E00}');
    Repeated('\U{4E00}', 540);
    TokensConcat(head, Marker(Dropped(Tokens, text, 200)));
  }

  // --------------------------------------------------------------- assembling

  datatype Block = Block(tier: nat, text: string, blockLabel: string, trimmable: bool, order: int)

  datatype Elision = Elision(tier: nat, blockLabel: string, dropped: nat, trimmed: bool)

  /** Tiers 0 to 2: system, task, evidence. */
  predicate Protected(b: Block) {
    b.tier <= 2
  }

  /** Lower tier first, within a tier higher order (newer) first. */
  predicate Ahead(a: Block, b: Block) {
    a.tier < b.tier || (a.tier == b.tier && a.order >= b.order)
  }

  lemma AheadIsPreorder()
    ensures TotalPreorder(Ahead)
  {
  }

  datatype Fate = Whole | Forced | Cut | Gone

  /** What happens to a block when `spent` tokens are used: it fits, it is cut to what remains, it is
      protected and kept past the budget, or it goes. */
  function FateOf(est: string -> nat, b: Block, spent: nat, budget: nat): Fate {
    if spent + est(b.text) <= budget then Whole
    else if b.trimmable && budget - spent >= MIN_TRIM then Cut
    else if Protected(b) then Forced
    else Gone
  }

  function CutTo(est: string -> nat, b: Block, allowance: nat): Block {
    b.(text := Trim(est, b.text, allowance), trimmable := false)
  }

  /** Blocks kept, elisions and tokens spent, from `spent` on. */
  datatype Account = Account(kept: seq<Block>, elisions: seq<Elision>, spent: nat)

  function Step(est: string -> nat, b: Block, spent: nat, budget: nat): Account {
    match FateOf(est, b, spent, budget)
    case Whole => Account([b], [], spent + est(b.text))
    case Forced => Account([b], [], spent + est(b.text))
    case Gone => Account([], [Elision(b.tier, b.blockLabel, est(b.text), false)], spent)
    case Cut =>
      var c := CutTo(est, b, Max(0, budget - spent));
      Account([c], [Elision(b.tier, b.blockLabel, Dropped(est, b.text, Max(0, budget - spent)), true)],
              spent + est(c.text))
  }

  function Fill(est: string -> nat, bs: seq<Block>, spent: nat, budget: nat): Account
    decreases |bs|
  {
    if bs == [] then Account([], [], spent)
    else
      var s := Step(est, bs[0], spent, budget);
      var r := Fill(est, bs[1..], s.spent, budget);
      Account(s.kept + r.kept, s.elisions + r.elisions, r.spent)
  }

  /** `assemble` up to the rendering of the kept blocks. */
  method Assemble(est: string -> nat, blocks: seq<Block>, budget: nat)
    returns (ordered: seq<Block>, kept: seq<Block>, elisions: seq<Elision>, overBudget: bool, spent: nat)
    ensures ordered == Sort(blocks, Ahead) && multiset(ordered) == multiset(blocks)
    ensures Account(kept, elisions, spent) == Fill(est, ordered, 0, budget)
    ensures overBudget == (spent > budget)
  {
    hide TotalPreorder, Sort, Sorted, Trim, Dropped, Fill;
    AheadIsPreorder();
    SortSorts(blocks, Ahead);
    ordered := Sort(blocks, Ahead);
    kept, elisions, spent := [], [], 0;
    assert ordered[0..] == ordered;
    FillEnds(est, ordered, budget, kept, elisions, spent);
    for i := 0 to |ordered|
      invariant var r := Fill(est, ordered[i..], spent, budget);
        Fill(est, ordered, 0, budget) == Account(kept + r.kept, elisions + r.elisions, r.spent)
    {
      var b := ordered[i];
      FillUnfold(est, ordered, i, spent, budget, kept, elisions);
      var cost := est(b.text);
      if spent + cost <= budget {
        kept := kept + [b];
        spent := spent + cost;
        continue;
      }
      var remaining := budget - spent;
      if b.trimmable && remaining >= MIN_TRIM {
        var cut := CutTo(est, b, remaining);
        kept := kept + [cut];
        spent := spent + est(cut.text);
        elisions := elisions + [Elision(b.tier, b.blockLabel, Dropped(est, b.text, remaining), true)];
        continue;
      }
      if Protected(b) {
        kept := kept + [b];
        spent := spent + cost;
        continue;
      }
      elisions := elisions + [Elision(b.tier, b.blockLabel, cost, false)];
    }
    assert ordered[|ordered|..] == [];
    FillEnds(est, [], budget, kept, elisions, spent);
    overBudget := spent > budget;
  }

  lemma FillEnds(est: string -> nat, bs: seq<Block>, budget: nat, kept: seq<Block>, elisions: seq<Elision>, spent: nat)
    ensures var r := Fill(est, bs, spent, budget); [] + r.kept == r.kept && [] + r.elisions == r.elisions
    ensures var r := Fill(est, [], spent, budget);
      kept + r.kept == kept && elisions + r.elisions == elisions && r.spent == spent
  {
  }

  lemma FillUnfold(est: string -> nat, bs: seq<Block>, i: nat, spent: nat, budget: nat,
                   kept: seq<Block>, elisions: seq<Elision>)
    requires i < |bs|
    ensures var s := Step(est, bs[i], spent, budget);
      var r, t := Fill(est, bs[i..], spent, budget), Fill(est, bs[i + 1..], s.spent, budget);
      && kept + r.kept == (kept + s.kept) + t.kept && elisions + r.elisions == (elisions + s.elisions) + t.elisions
      && r.spent == t.spent
      && (s.kept == [] ==> kept + s.kept == kept) && (s.elisions == [] ==> elisions + s.elisions == elisions)
  {
    hide Step;
    assert bs[i..][0] == bs[i] && bs[i..][1..] == bs[i + 1..];
  }

  // --------------------------------------------------------------- properties

  /** Tokens spent when block i comes up. */
  function SpentBefore(est: string -> nat, bs: seq<Block>, budget: nat, i: nat): nat
    requires i <= |bs|
  {
    Fill(est, bs[..i], 0, budget).spent
  }

  function FateAt(est: string -> nat, bs: seq<Block>, budget: nat, i: nat): Fate
    requires i < |bs|
  {
    FateOf(est, bs[i], SpentBefore(est, bs, budget, i), budget)
  }

  function Left(est: string -> nat, bs: seq<Block>, budget: nat, i: nat): nat
    requires i <= |bs|
  {
    Max(0, budget - SpentBefore(est, bs, budget, i))
  }

  lemma {:induction false} FillConcat(est: string -> nat, a: seq<Block>, b: seq<Block>, spent: nat, budget: nat)
    ensures var x := Fill(est, a, spent, budget); var y := Fill(est, b, x.spent, budget);
      Fill(est, a + b, spent, budget) == Account(x.kept + y.kept, x.elisions + y.elisions, y.spent)
    decreases |a|
  {
    hide Step;
    if a == [] {
      assert a + b == b;
      FillEnds(est, b, budget, [], [], spent);
      var y := Fill(est, b, spent, budget);
      assert [] + y.kept == y.kept && [] + y.elisions == y.elisions;
    } else {
      assert (a + b)[1..] == a[1..] + b;
      FillConcat(est, a[1..], b, Step(est, a[0], spent, budget).spent, budget);
    }
  }

  lemma FillAt(est: string -> nat, bs: seq<Block>, budget: nat, i: nat)
    requires i < |bs|
    ensures var s := Step(est, bs[i], SpentBefore(est, bs, budget, i), budget);
      && SpentBefore(est, bs, budget, i + 1) == s.spent
      && (forall b :: b in s.kept ==> b in Fill(est, bs, 0, budget).kept)
      && (forall e :: e in s.elisions ==> e in Fill(est, bs, 0, budget).elisions)
  {
    hide Step, Fill;
    var x, y := bs[..i], bs[i + 1..];
    var spent := SpentBefore(est, bs, budget, i);
    var s := Step(est, bs[i], spent, budget);
    assert bs == x + ([bs[i]] + y) && bs[..i + 1] == x + [bs[i]];
    FillConcat(est, x, [bs[i]] + y, 0, budget);
    FillConcat(est, [bs[i]], y, spent, budget);
    FillConcat(est, x, [bs[i]], 0, budget);
    FillOne(est, bs[i], spent, budget);
  }

  lemma FillOne(est: string -> nat, b: Block, spent: nat, budget: nat)
    ensures Fill(est, [b], spent, budget) == Step(est, b, spent, budget)
  {
  }

  /** Every block is accounted for: kept whole, kept cut with one elision naming the cut, or dropped with one
      elision naming it; and no system, task or evidence block is ever dropped. */
  lemma EveryBlockAccounted(est: string -> nat, bs: seq<Block>, budget: nat, i: nat)
    requires i < |bs|
    ensures var a, b, left := Fill(est, bs, 0, budget), bs[i], Left(est, bs, budget, i);
      match FateAt(est, bs, budget, i)
      case Whole => b in a.kept
      case Forced => b in a.kept && Protected(b)
      case Cut => CutTo(est, b, left) in a.kept
        && Elision(b.tier, b.blockLabel, Dropped(est, b.text, left), true) in a.elisions
      case Gone => !Protected(b) && Elision(b.tier, b.blockLabel, est(b.text), false) in a.elisions
  {
    FillAt(est, bs, budget, i);
    hide Fill, Trim, Dropped;
    var s := Step(est, bs[i], SpentBefore(est, bs, budget, i), budget);
    assert s.kept == [] || s.kept[0] in s.kept;
    assert s.elisions == [] || s.elisions[0] in s.elisions;
  }

  function Count(est: string -> nat, bs: seq<Block>, spent: nat, budget: nat, f: Fate): nat
    decreases |bs|
  {
    if bs == [] then 0
    else (if FateOf(est, bs[0], spent, budget) == f then 1 else 0)
         + Count(est, bs[1..], Step(est, bs[0], spent, budget).spent, budget, f)
  }

  function Cost(est: string -> nat, bs: seq<Block>): nat {
    if bs == [] then 0 else est(bs[0].text) + Cost(est, bs[1..])
  }

  lemma StepAdds(est: string -> nat, b: Block, spent: nat, budget: nat)
    ensures var s, f := Step(est, b, spent, budget), FateOf(est, b, spent, budget);
      && |s.kept| == (if f == Gone then 0 else 1) && |s.elisions| == (if f == Gone || f == Cut then 1 else 0)
      && s.spent == spent + if s.kept == [] then 0 else est(s.kept[0].text)
  {
    hide FateOf, CutTo, Dropped;
  }

  /** Nothing is counted twice: as many blocks are kept as are not dropped, there is one elision per cut or
      dropped block, and the tokens spent are those of the blocks kept. */
  lemma {:induction false} NothingTwice(est: string -> nat, bs: seq<Block>, spent: nat, budget: nat)
    ensures var a := Fill(est, bs, spent, budget);
      && |a.kept| + Count(est, bs, spent, budget, Gone) == |bs|
      && |a.elisions| == Count(est, bs, spent, budget, Gone) + Count(est, bs, spent, budget, Cut)
      && a.spent == spent + Cost(est, a.kept)
    decreases |bs|
  {
    hide Step, FateOf;
    if bs != [] {
      var s := Step(est, bs[0], spent, budget);
      var r := Fill(est, bs[1..], s.spent, budget);
      StepAdds(est, bs[0], spent, budget);
      NothingTwice(est, bs[1..], s.spent, budget);
      if s.kept == [] {
        assert s.kept + r.kept == r.kept;
      } else {
        assert (s.kept + r.kept)[1..] == r.kept;
      }
    }
  }

  lemma {:induction false} SpentGrows(est: string -> nat, bs: seq<Block>, budget: nat, i: nat, j: nat)
    requires i <= j <= |bs|
    ensures SpentBefore(est, bs, budget, i) <= SpentBefore(est, bs, budget, j)
  {
    if i < j {
      SpentGrows(est, bs, budget, i, j - 1);
      FillAt(est, bs, budget, j - 1);
      hide Fill, Trim, Dropped;
    }
  }

  /** Once spending passes the budget no later unprotected block is admitted, whole or cut. */
  lemma NoneAfterOverspend(est: string -> nat, bs: seq<Block>, budget: nat, i: nat, j: nat)
    requires i <= j < |bs| && SpentBefore(est, bs, budget, i) > budget
    ensures FateAt(est, bs, budget, j) == if Protected(bs[j]) then Forced else Gone
  {
    SpentGrows(est, bs, budget, i, j);
  }

  /** Block i was cut to more than what was left for it. */
  predicate CutOverflows(est: string -> nat, bs: seq<Block>, budget: nat, i: nat)
    requires i < |bs|
  {
    var left := Left(est, bs, budget, i);
    FateAt(est, bs, budget, i) == Cut && est(Trim(est, bs[i].text, left)) > left
  }

  /** Every cut block fits what was left for it. */
  predicate CutsFit(est: string -> nat, bs: seq<Block>, budget: nat) {
    forall i :: 0 <= i < |bs| ==> !CutOverflows(est, bs, budget, i)
  }

  lemma {:induction false} WithinBudget(est: string -> nat, bs: seq<Block>, budget: nat, i: nat)
    requires i <= |bs|
    requires forall j :: 0 <= j < i ==> FateAt(est, bs, budget, j) != Forced && !CutOverflows(est, bs, budget, j)
    ensures SpentBefore(est, bs, budget, i) <= budget
  {
    if i > 0 {
      WithinBudget(est, bs, budget, i - 1);
      FillAt(est, bs, budget, i - 1);
      assert FateAt(est, bs, budget, i - 1) != Forced && !CutOverflows(est, bs, budget, i - 1);
      hide Fill, Trim, Dropped;
    }
  }

  lemma PassesBudget(est: string -> nat, bs: seq<Block>, budget: nat, i: nat)
    requires i < |bs| && (FateAt(est, bs, budget, i) == Forced || CutOverflows(est, bs, budget, i))
    ensures SpentBefore(est, bs, budget, i + 1) > budget
  {
    FillAt(est, bs, budget, i);
    hide Fill, Trim, Dropped;
  }

  /** The context is over budget exactly when a protected block was kept past the limit, or a block was cut to more than
      what was left for it. */
  lemma OverBudgetExact(est: string -> nat, bs: seq<Block>, budget: nat)
    ensures Fill(est, bs, 0, budget).spent > budget
       <==> exists i :: 0 <= i < |bs| && (FateAt(est, bs, budget, i) == Forced || CutOverflows(est, bs, budget, i))
  {
    hide FateAt, CutOverflows, Fill;
    assert bs[..|bs|] == bs;
    if i :| 0 <= i < |bs| && (FateAt(est, bs, budget, i) == Forced || CutOverflows(est, bs, budget, i)) {
      PassesBudget(est, bs, budget, i);
      SpentGrows(est, bs, budget, i + 1, |bs|);
    } else {
      WithinBudget(est, bs, budget, |bs|);
    }
  }

  /** A cut to what is left keeps a head no denser than the text, and a count of dropped tokens of at most 44 digits. */
  predicate EvenCut(text: string, allowance: nat) {
    NoDenser(text, allowance) && |Decimal(Dropped(Tokens, text, allowance))| <= 44
  }

  /** With the built-in estimate the cuts fit whenever each is even. */
  lemma EvenCutsFit(bs: seq<Block>, budget: nat)
    requires forall i :: 0 <= i < |bs| && FateAt(Tokens, bs, budget, i) == Cut
                         ==> EvenCut(bs[i].text, Left(Tokens, bs, budget, i))
    ensures CutsFit(Tokens, bs, budget)
  {
    hide NoDenser, Trim, Dropped;
    forall i | 0 <= i < |bs| && FateAt(Tokens, bs, budget, i) == Cut ensures !CutOverflows(Tokens, bs, budget, i) {
      CutText(bs[i], SpentBefore(Tokens, bs, budget, i), budget);
      TrimFits(bs[i].text, Left(Tokens, bs, budget, i));
    }
  }

  /** In particular whenever trimmable text is of uniform density. */
  lemma UniformCutsFit(bs: seq<Block>, budget: nat)
    requires forall b :: b in bs && b.trimmable ==> Uniform(b.text)
    requires forall b, n: nat :: b in bs && b.trimmable ==> |Decimal(Dropped(Tokens, b.text, n))| <= 44
    ensures CutsFit(Tokens, bs, budget)
  {
    hide NoDenser, Dropped, Uniform, CutsFit;
    forall i | 0 <= i < |bs| && FateAt(Tokens, bs, budget, i) == Cut
      ensures EvenCut(bs[i].text, Left(Tokens, bs, budget, i))
    {
      assert bs[i] in bs;
      CutText(bs[i], SpentBefore(Tokens, bs, budget, i), budget);
      UniformNoDenser(bs[i].text, Left(Tokens, bs, budget, i));
    }
    EvenCutsFit(bs, budget);
  }

  lemma CutText(b: Block, spent: nat, budget: nat)
    requires FateOf(Tokens, b, spent, budget) == Cut
    ensures b.text != [] && Max(0, budget - spent) >= MIN_TRIM && b.trimmable
  {
  }

  // ------------------------------------------------------------- kept history

  /** A past turn: neither protected nor trimmable. */
  predicate IsHistory(b: Block) {
    !Protected(b) && !b.trimmable
  }

  /** How many turns fit from the newest on, without skipping any. */
  function Fitting(est: string -> nat, bs: seq<Block>, spent: nat, budget: nat): (i: nat)
    ensures i <= |bs|
  {
    if bs == [] || spent + est(bs[0].text) > budget then 0
    else 1 + Fitting(est, bs[1..], spent + est(bs[0].text), budget)
  }

  predicate TooDear(est: string -> nat, bs: seq<Block>, spent: nat, budget: nat) {
    forall b :: b in bs ==> spent + est(b.text) > budget
  }

  /** No turn behind the first one that does not fit could still be afforded. */
  predicate NoneFitsLater(est: string -> nat, bs: seq<Block>, spent: nat, budget: nat) {
    var i := Fitting(est, bs, spent, budget);
    i < |bs| ==> TooDear(est, bs[i + 1..], spent + Cost(est, bs[..i]), budget)
  }

  lemma FillFits(est: string -> nat, bs: seq<Block>, spent: nat, budget: nat)
    requires bs != []
    ensures spent + est(bs[0].text) <= budget ==>
      Fill(est, bs, spent, budget).kept == [bs[0]] + Fill(est, bs[1..], spent + est(bs[0].text), budget).kept
    ensures spent + est(bs[0].text) > budget && IsHistory(bs[0]) ==>
      Fill(est, bs, spent, budget).kept == Fill(est, bs[1..], spent, budget).kept
  {
    hide CutTo, Dropped, Tokens;
    var r := Fill(est, bs[1..], spent, budget);
    assert [] + r.kept == r.kept;
  }

  lemma {:induction false} NothingFits(est: string -> nat, bs: seq<Block>, spent: nat, budget: nat)
    requires forall b :: b in bs ==> IsHistory(b)
    ensures Fill(est, bs, spent, budget).kept == [] <==> TooDear(est, bs, spent, budget)
    ensures Fill(est, bs, spent, budget).kept != [] ==> spent + est(Fill(est, bs, spent, budget).kept[0].text) <= budget
    decreases |bs|
  {
    if bs == [] {
      assert Fill(est, bs, spent, budget).kept == [];
    } else {
      hide Fill, IsHistory;
      assert bs[0] in bs && forall b :: b in bs <==> b == bs[0] || b in bs[1..];
      NothingFits(est, bs[1..], spent, budget);
      FillFits(est, bs, spent, budget);
    }
  }

  lemma FitStep(est: string -> nat, bs: seq<Block>, spent: nat, budget: nat)
    requires bs != [] && spent + est(bs[0].text) <= budget
    ensures NoneFitsLater(est, bs, spent, budget) <==> NoneFitsLater(est, bs[1..], spent + est(bs[0].text), budget)
  {
    hide TooDear;
    var i := Fitting(est, bs[1..], spent + est(bs[0].text), budget);
    assert bs[..i + 1][1..] == bs[1..][..i];
    if i < |bs[1..]| {
      assert bs[i + 2..] == bs[1..][i + 1..];
    }
  }

  /** Nothing is afforded behind a turn that does not fit, or not a prefix is kept. */
  lemma SkippedFirst(est: string -> nat, bs: seq<Block>, spent: nat, budget: nat)
    requires bs != [] && (forall b :: b in bs ==> IsHistory(b)) && spent + est(bs[0].text) > budget
    ensures Fill(est, bs, spent, budget).kept <= bs <==> NoneFitsLater(est, bs, spent, budget)
  {
    hide Fill, IsHistory, TooDear;
    assert bs[0] in bs && forall b :: b in bs[1..] ==> b in bs;
    FillFits(est, bs, spent, budget);
    NothingFits(est, bs[1..], spent, budget);
    assert Fitting(est, bs, spent, budget) == 0 && Cost(est, bs[..0]) == 0;
  }

  lemma NoHistory(est: string -> nat, spent: nat, budget: nat)
    ensures Fill(est, [], spent, budget).kept == [] && NoneFitsLater(est, [], spent, budget)
  {
  }

  /** The turns kept are the newest ones exactly when no turn behind the first one skipped could be afforded. */
  lemma {:induction false} KeptHistoryExact(est: string -> nat, bs: seq<Block>, spent: nat, budget: nat)
    requires forall b :: b in bs ==> IsHistory(b)
    ensures Fill(est, bs, spent, budget).kept <= bs <==> NoneFitsLater(est, bs, spent, budget)
    decreases |bs|
  {
    hide *;
    if bs == [] {
      NoHistory(est, spent, budget);
    } else if spent + est(bs[0].text) > budget {
      SkippedFirst(est, bs, spent, budget);
    } else {
      var next := spent + est(bs[0].text);
      assert forall b :: b in bs[1..] ==> b in bs;
      KeptHistoryExact(est, bs[1..], next, budget);
      FitStep(est, bs, spent, budget);
      FillFits(est, bs, spent, budget);
      assert bs == [bs[0]] + bs[1..];
      PrefixCons(bs[0], Fill(est, bs[1..], next, budget).kept, bs[1..]);
    }
  }

  lemma PrefixCons(x: Block, a: seq<Block>, b: seq<Block>)
    ensures [x] + a <= [x] + b <==> a <= b
  {
    assert ([x] + a)[1..] == a && ([x] + b)[1..] == b;
  }

  /** Behind the other tiers of a context: of its history the newest turns are kept, and no others, exactly then. */
  lemma HistoryInContext(est: string -> nat, front: seq<Block>, history: seq<Block>, budget: nat)
    requires forall b :: b in history ==> IsHistory(b)
    ensures var x, all := Fill(est, front, 0, budget), Fill(est, front + history, 0, budget);
      x.kept <= all.kept && (all.kept[|x.kept|..] <= history <==> NoneFitsLater(est, history, x.spent, budget))
  {
    hide Fill, NoneFitsLater;
    var x := Fill(est, front, 0, budget);
    FillConcat(est, front, history, 0, budget);
    KeptHistoryExact(est, history, x.spent, budget);
    var h := Fill(est, history, x.spent, budget).kept;
    assert (x.kept + h)[|x.kept|..] == h;
  }

  /** It can fail: a turn that does not fit is skipped and an older, smaller one behind it is kept. */
  lemma HistoryNotSuffix()
    ensures var est := (s: string) => |s|;
      var new_, mid := Block(5, "new", "t2", false, 2), Block(5, "too long", "t1", false, 1);
      var aged := Block(5, "old", "t0", false, 0);
      Sorted([new_, mid, aged], Ahead) && Fill(est, [new_, mid, aged], 0, 6).kept == [new_, aged]
  {
    var est := (s: string) => |s|;
    var n, m, o := Block(5, "new", "t2", false, 2), Block(5, "too long", "t1", false, 1),
        Block(5, "old", "t0", false, 0);
    assert [n, m, o][1..] == [m, o] && [m, o][1..] == [o];
    FillOne(est, o, 3, 6);
    assert Fill(est, [m, o], 3, 6).kept == [] + [o];
    assert Fill(est, [n, m, o], 0, 6).kept == [n] + [o];
  }
}
