/** What becomes of each block of a context, and in which order blocks are considered (context.py `estimate_tokens`,
    `ContextAssembler.assemble`, `_trim`). */
module ContextBlocks {
  import opened Text
  import opened StableSort
  import opened ContextBudget

  // ------------------------------------------------------------------ estimate

  /** Ideographs, kana and their punctuation; full-width forms; Hangul. */
  predicate IsDense(c: char) {
    '\U{3000}' <= c <= '\U{9FFF}' || '\U{FF00}' <= c <= '\U{FFEF}' || '\U{AC00}' <= c <= '\U{D7AF}'
  }

  function Dense(s: string): nat {
    if s == [] then 0 else Dense(s[..|s| - 1]) + if IsDense(s[|s| - 1]) then 1 else 0
  }

  lemma {:induction false} DenseIsCount(s: string)
    ensures Dense(s) == CjkCount(s)
  {
    if s != [] {
      var t, c := s[..|s| - 1], s[|s| - 1];
      assert s == t + [c];
      DenseIsCount(t);
      CjkCountConcat(t, [c]);
      assert [c][1..] == [];
    }
  }

  /** The empty text costs nothing; any other costs one more than the whole part of two thirds of its dense characters
      and a quarter of the others. */
  lemma TokensExact(s: string)
    ensures s == [] ==> Tokens(s) == 0
    ensures s != [] ==>
      var others := |s| - Dense(s);
      12 * (Tokens(s) - 1) <= 8 * Dense(s) + 3 * others < 12 * Tokens(s)
  {
    DenseIsCount(s);
  }

  // ------------------------------------------------------------------- trimming

  /** What is said behind the number of tokens that were cut. */
  function Notice(): string {
    " tokens not shown. Do NOT des" + ("cribe content beyond this po" + "int \U{2014} request it explicitly.]")
  }

  /** The marker names the number of tokens that were cut; it is charged as if that number had six digits. */
  lemma MarkerExact(est: string -> nat, dropped: nat)
    ensures Marker(dropped) == "\n\U{2026}[TRUNCATED: ~" + (Decimal(dropped) + Notice())
    ensures MarkerCost(est) == est("\n\U{2026}[TRUNCATED: ~" + ("000000" + Notice()))
  {
    hide Decimal;
    NoticeIs();
  }

  lemma NoticeIs()
    ensures MarkTail() == Notice() && MarkHead() == "\n\U{2026}[TRUNCATED: ~"
  {
  }

  lemma Quotient(x: nat, d: nat)
    requires d > 0
    ensures d * (x / d) <= x < d * (x / d + 1)
  {
  }

  lemma QuotientOrOne(x: nat, d: nat)
    requires d > 0
    ensures var k := Max(1, x / d); k >= 1 && x < d * (k + 1) && (k > 1 ==> d * k <= x)
  {
    Quotient(x, d);
    if x / d == 0 {
      assert d * (0 + 1) <= d * (1 + 1);
    }
  }

  /** What is kept of a text cut to an allowance: a head of at least one character and no more than nine tenths of what
      the allowance, less the marker, buys at the density of the text. */
  lemma HeadExact(est: string -> nat, text: string, allowance: nat) returns (k: nat)
    ensures var paid := if allowance > MarkerCost(est) then allowance - MarkerCost(est) else 1;
      var cost := if est(text) == 0 then 1 else est(text);
      && k >= 1 && 9 * (paid * |text|) < (10 * cost) * (k + 1)
      && (k > 1 ==> (10 * cost) * k <= 9 * (paid * |text|))
    ensures Head(est, text, allowance) == if k <= |text| then text[..k] else text
  {
    hide MarkerCost;
    var paid := if allowance > MarkerCost(est) then allowance - MarkerCost(est) else 1;
    var cost := if est(text) == 0 then 1 else est(text);
    k := KeepChars(est, text, allowance);
    var x, d := paid * |text| * 9, 10 * cost;
    assert k == Max(1, x / d);
    hide KeepChars, HeadAllowance, Head;
    QuotientOrOne(x, d);
    assert x == 9 * (paid * |text|);
  }

  // --------------------------------------------------------------------- blocks

  /** The number of tokens the cut is said to drop: what the text costs beyond its head, if that is more. */
  function Lost(est: string -> nat, text: string, allowance: nat): nat {
    var head := Head(est, text, allowance);
    if est(text) > est(head) then est(text) - est(head) else 0
  }

  /** What becomes of a block when that many tokens are spent. Whole when it fits; cut when it may be and at least 120
      tokens are left; kept past the budget in tiers 0, 1 and 2; dropped otherwise. What is cut is not cut again. */
  lemma BlockExact(est: string -> nat, b: Block, spent: nat, budget: nat)
    ensures var a, cost := Fill(est, [b], spent, budget), est(b.text);
      if spent + cost <= budget then a == Account([b], [], spent + cost)
      else if b.trimmable && budget >= spent + 120 then
        var left := budget - spent;
        var dropped := Lost(est, b.text, left);
        var text := Head(est, b.text, left) + Marker(dropped);
        a == Account([Block(b.tier, text, b.blockLabel, false, b.order)],
                     [Elision(b.tier, b.blockLabel, dropped, true)], spent + est(text))
      else if b.tier == 0 || b.tier == 1 || b.tier == 2 then a == Account([b], [], spent + cost)
      else a == Account([], [Elision(b.tier, b.blockLabel, cost, false)], spent)
  {
    hide Head, MarkHead, MarkTail, Decimal;
    FillOne(est, b, spent, budget);
  }

  predicate Before(a: Block, b: Block) {
    a.tier < b.tier || (a.tier == b.tier && a.order > b.order)
  }

  /** Blocks are considered by tier, lowest first; within a tier by order, highest first; and those of one tier and
      order as they came: in whatever relation the blocks came, those that tie still stand in it. */
  lemma AssembleOrder(blocks: seq<Block>, came: (Block, Block) -> bool)
    requires Pairwise(blocks, came)
    ensures var ordered := Sort(blocks, Ahead);
      forall i, j :: 0 <= i < j < |ordered| ==>
        var a, b := ordered[i], ordered[j];
        Before(a, b) || (a.tier == b.tier && a.order == b.order && came(a, b))
  {
    hide Sort;
    AheadIsPreorder();
    SortStable(blocks, Ahead, came);
    var ordered := Sort(blocks, Ahead);
    forall i, j | 0 <= i < j < |ordered|
      ensures var a, b := ordered[i], ordered[j];
        Before(a, b) || (a.tier == b.tier && a.order == b.order && came(a, b)) {
      assert Stably(ordered[i], ordered[j], Ahead, came);
    }
  }
}
