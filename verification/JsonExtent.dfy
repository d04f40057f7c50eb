/** What the JSON scan returns for any completion, in terms of the text alone (llm.py `extract_json`). */
module JsonExtent {
  import opened Text
  import opened Wrappers
  import opened JsonScan

  /** How many backslashes stand right in front of position k. */
  function Backslashes(t: string, k: nat): nat
    requires k <= |t|
  {
    if k > 0 && t[k - 1] == '\\' then Backslashes(t, k - 1) + 1 else 0
  }

  /** Behind an odd number of backslashes, inside a string or not. */
  predicate Escaped(t: string, k: nat)
    requires k <= |t|
  {
    Backslashes(t, k) % 2 == 1
  }

  /** How many quotes in front of k open or close a string. */
  function Quotes(t: string, k: nat): nat
    requires k <= |t|
  {
    if k == 0 then 0 else Quotes(t, k - 1) + if t[k - 1] == '\"' && !Escaped(t, k - 1) then 1 else 0
  }

  predicate Inside(t: string, k: nat)
    requires k <= |t|
  {
    Quotes(t, k) % 2 == 1
  }

  /** Character c stands at k and counts: it is not escaped and in no string. */
  predicate Counts(t: string, k: nat, c: char)
    requires k < |t|
  {
    t[k] == c && !Escaped(t, k) && !Inside(t, k)
  }

  function Number(t: string, k: nat, c: char): nat
    requires k <= |t|
  {
    if k == 0 then 0 else Number(t, k - 1, c) + if Counts(t, k - 1, c) then 1 else 0
  }

  /** The closing bracket at k balances the text from its first character on. */
  predicate Balances(t: string, k: nat, opener: char, closer: char)
    requires k < |t|
  {
    Counts(t, k, closer) && Number(t, k + 1, opener) == Number(t, k + 1, closer)
  }

  /** k is the first position that does. */
  ghost predicate EndsAt(t: string, k: nat, opener: char, closer: char) {
    && k < |t| && Balances(t, k, opener, closer)
    && forall j :: 0 <= j < k ==> !Balances(t, j, opener, closer)
  }

  /** The state of the scan in front of position k. */
  function StateAt(t: string, k: nat, opener: char, closer: char): Scan
    requires k <= |t|
  {
    Scan(Number(t, k, opener) - Number(t, k, closer), Inside(t, k), Escaped(t, k))
  }

  lemma ParityNext(t: string, k: nat)
    requires k < |t|
    ensures Escaped(t, k + 1) <==> t[k] == BS && !Escaped(t, k)
    ensures Inside(t, k + 1) <==> if t[k] == QUOTE && !Escaped(t, k) then !Inside(t, k) else Inside(t, k)
  {
  }

  lemma StateNext(t: string, k: nat, opener: char, closer: char)
    requires k < |t| && opener != closer && opener !in {BS, QUOTE} && closer !in {BS, QUOTE}
    ensures Step(t[k], opener, closer, StateAt(t, k, opener, closer)) == StateAt(t, k + 1, opener, closer)
    ensures Ends(t[k], closer, StateAt(t, k, opener, closer), StateAt(t, k + 1, opener, closer))
       <==> Balances(t, k, opener, closer)
  {
    hide Escaped, Inside;
    ParityNext(t, k);
  }

  /** The scan from position k on: it ends at the first position that balances. */
  lemma {:induction false} ScanIs(t: string, k: nat, opener: char, closer: char)
    requires k <= |t| && opener != closer && opener !in {BS, QUOTE} && closer !in {BS, QUOTE}
    requires forall j :: 0 <= j < k ==> !Balances(t, j, opener, closer)
    ensures var r := ScanFrom(t[k..], opener, closer, StateAt(t, k, opener, closer));
      && (r.Some? ==> r.value >= 1 && EndsAt(t, k + r.value - 1, opener, closer))
      && (r.None? ==> forall j :: 0 <= j < |t| ==> !Balances(t, j, opener, closer))
    decreases |t| - k
  {
    hide Step, Ends, StateAt, Balances;
    if k < |t| {
      assert t[k..][0] == t[k] && t[k..][1..] == t[k + 1..];
      StateNext(t, k, opener, closer);
      if !Balances(t, k, opener, closer) {
        ScanIs(t, k + 1, opener, closer);
      }
    }
  }

  /** The extracted text starts at the first opening bracket and ends at the first closing bracket of the same kind that
      balances it, counting brackets of that kind only, outside strings and not behind a backslash. */
  ghost predicate IsExtent(text: string, i: nat, n: nat) {
    && i < |text| && (text[i] == '{' || text[i] == '[') && (forall j :: 0 <= j < i ==> text[j] != '{' && text[j] != '[')
    && n >= 1 && EndsAt(text[i..], n - 1, text[i], if text[i] == '{' then '}' else ']')
  }

  lemma StartState(t: string, opener: char, closer: char)
    ensures StateAt(t, 0, opener, closer) == Scan(0, false, false)
  {
  }

  lemma EndUnique(t: string, k: nat, j: nat, opener: char, closer: char)
    requires EndsAt(t, k, opener, closer) && EndsAt(t, j, opener, closer)
    ensures k == j
  {
    hide Balances;
  }

  /** Where it starts, and that it ends at a bracket that balances. */
  lemma ExtentFacts(text: string, start: nat, i: nat, n: nat)
    requires start < |text| && text[start] in {'{', '['} && forall j :: 0 <= j < start ==> text[j] !in {'{', '['}
    ensures IsExtent(text, i, n) ==> i == start && EndsAt(text[start..], n - 1, text[start], Closer(text[start]))
  {
    hide EndsAt;
  }

  lemma ExtentUnique(text: string, i: nat, n: nat, j: nat, m: nat)
    requires IsExtent(text, i, n) && IsExtent(text, j, m)
    ensures i == j && n == m
  {
    hide EndsAt;
    ExtentFacts(text, i, j, m);
    ExtentFacts(text, i, i, n);
    EndUnique(text[i..], n - 1, m - 1, text[i], Closer(text[i]));
  }

  /** For every completion: something is extracted exactly when there is such a stretch, and then it is that one. */
  lemma ExtractsExtent(text: string)
    ensures Extract(text) == None <==> forall i: nat, n: nat :: !IsExtent(text, i, n)
    ensures forall i: nat, n: nat :: IsExtent(text, i, n) ==>
      i + n <= |text| && Extract(text) == Some(text[i..i + n])
  {
    hide StateAt, ScanFrom, Balances;
    var start := FirstBracket(text);
    if start < |text| {
      var t, opener, closer := text[start..], text[start], Closer(text[start]);
      StartState(t, opener, closer);
      ScanIs(t, 0, opener, closer);
      assert t[0..] == t;
      var r := ScanFrom(t, opener, closer, Scan(0, false, false));
      if r.Some? {
        assert IsExtent(text, start, r.value);
        forall i: nat, n: nat | IsExtent(text, i, n) ensures i == start && n == r.value {
          ExtentUnique(text, i, n, start, r.value);
        }
      } else {
        forall i: nat, n: nat ensures !IsExtent(text, i, n) {
          NoExtent(text, start, i, n);
        }
      }
    }
  }

  lemma NoExtent(text: string, start: nat, i: nat, n: nat)
    requires start < |text| && text[start] in {'{', '['} && forall j :: 0 <= j < start ==> text[j] !in {'{', '['}
    requires forall j :: 0 <= j < |text[start..]| ==> !Balances(text[start..], j, text[start], Closer(text[start]))
    ensures !IsExtent(text, i, n)
  {
    hide Balances, IsExtent;
    ExtentFacts(text, start, i, n);
    PositiveExtent(text, i, n);
  }

  lemma PositiveExtent(text: string, i: nat, n: nat)
    ensures IsExtent(text, i, n) ==> n >= 1
  {
  }
}
