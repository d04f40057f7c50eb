/** String operations the localization code takes from Python: `str.replace`, `str.strip`, prefix tests. */
module Text {

  const BS := '\\'
  const QUOTE := '\"'
  const CR := '\r'
  const LF := '\n'
  const TAB := '\t'

  /** `str.replace` of a one-character pattern. */
  function ReplaceChar(s: string, c: char, rep: string): string {
    if s == [] then [] else (if s[0] == c then rep else [s[0]]) + ReplaceChar(s[1..], c, rep)
  }

  /** `str.replace` of a two-character pattern: leftmost, non-overlapping. */
  function ReplacePair(s: string, b: char, c: char, rep: string): string {
    if s == [] then []
    else if |s| >= 2 && s[0] == b && s[1] == c then rep + ReplacePair(s[2..], b, c, rep)
    else [s[0]] + ReplacePair(s[1..], b, c, rep)
  }

  lemma ReplacePairSkip(p: char, rest: string, b: char, c: char, rep: string)
    requires !(p == b && rest != [] && rest[0] == c)
    ensures ReplacePair([p] + rest, b, c, rep) == [p] + ReplacePair(rest, b, c, rep)
  {
  }

  lemma ReplacePairEmpty(b: char, c: char, rep: string)
    ensures ReplacePair([], b, c, rep) == []
  {
  }

  lemma ReplacePairHit(rest: string, b: char, c: char, rep: string)
    ensures ReplacePair([b, c] + rest, b, c, rep) == rep + ReplacePair(rest, b, c, rep)
  {
  }

  /** The characters `str.isspace` accepts, which `str.strip` removes and the regex class `\s` matches. */
  predicate IsSpace(c: char) {
    var n := c as int;
    || 0x09 <= n <= 0x0d || 0x1c <= n <= 0x20 || n == 0x85 || n == 0xa0 || n == 0x1680
    || 0x2000 <= n <= 0x200a || n == 0x2028 || n == 0x2029 || n == 0x202f || n == 0x205f || n == 0x3000
  }

  /** One by one: the ASCII blanks and separators, NEL, and the Unicode space separators. */
  lemma SpacesAre(c: char)
    ensures IsSpace(c) <==> c as int in {
        9, 10, 11, 12, 13, 28, 29, 30, 31, 32, 133, 160, 5760, 8192, 8193, 8194, 8195, 8196, 8197, 8198, 8199, 8200,
        8201, 8202, 8232, 8233, 8239, 8287, 12288}
  {
  }

  function LStrip(s: string): string {
    if s != [] && IsSpace(s[0]) then LStrip(s[1..]) else s
  }

  function RStrip(s: string): string {
    if s != [] && IsSpace(s[|s| - 1]) then RStrip(s[..|s| - 1]) else s
  }

  function Strip(s: string): string {
    RStrip(LStrip(s))
  }

  /** Starts and ends with a character `strip` keeps. */
  predicate IsTrimmed(s: string) {
    s == [] || (!IsSpace(s[0]) && !IsSpace(s[|s| - 1]))
  }

  lemma {:induction false} RStripSuffix(s: string)
    ensures RStrip(s) <= s
    ensures RStrip(s) == [] || !IsSpace(RStrip(s)[|RStrip(s)| - 1])
  {
    if s != [] && IsSpace(s[|s| - 1]) {
      RStripSuffix(s[..|s| - 1]);
    }
  }

  lemma {:induction false} LStripHead(s: string)
    ensures LStrip(s) == [] || !IsSpace(LStrip(s)[0])
    ensures forall c :: c in LStrip(s) ==> c in s
  {
    if s != [] && IsSpace(s[0]) {
      LStripHead(s[1..]);
    }
  }

  /** What `strip` returns is itself stripped, and holds no character its argument lacks. */
  lemma StripIsTrim(s: string)
    ensures IsTrimmed(Strip(s))
    ensures forall c :: c in Strip(s) ==> c in s
  {
    LStripHead(s);
    RStripSuffix(LStrip(s));
  }

  /** Stripping stops at a kept character: trailing blanks go, the trimmed text stays. */
  lemma {:induction false} StripKeeps(s: string, blanks: string)
    requires IsTrimmed(s)
    requires forall c :: c in blanks ==> IsSpace(c)
    requires s != []
    ensures Strip(s + blanks) == s
  {
    assert LStrip(s + blanks) == s + blanks;
    RStripKeeps(s, blanks);
  }

  lemma {:induction false} RStripKeeps(s: string, blanks: string)
    requires s == [] || !IsSpace(s[|s| - 1])
    requires forall c :: c in blanks ==> IsSpace(c)
    ensures RStrip(s + blanks) == s
  {
    if blanks == [] {
      assert s + blanks == s;
    } else {
      assert blanks[|blanks| - 1] in blanks;
      assert (s + blanks)[..|s + blanks| - 1] == s + blanks[..|blanks| - 1];
      RStripKeeps(s, blanks[..|blanks| - 1]);
    }
  }

  lemma {:induction false} LStripHolds(s: string, c: char)
    requires c in s && !IsSpace(c)
    ensures c in LStrip(s)
  {
    if IsSpace(s[0]) {
      LStripHolds(s[1..], c);
    }
  }

  lemma {:induction false} RStripHolds(s: string, c: char)
    requires c in s && !IsSpace(c)
    ensures c in RStrip(s)
  {
    var n := |s| - 1;
    if IsSpace(s[n]) {
      assert s == s[..n] + [s[n]];
      RStripHolds(s[..n], c);
    }
  }

  /** `strip` keeps every character that is no blank. */
  lemma StripHolds(s: string, c: char)
    requires c in s && !IsSpace(c)
    ensures c in Strip(s)
  {
    LStripHolds(s, c);
    RStripHolds(LStrip(s), c);
  }

  lemma StripTrimmed(s: string)
    requires IsTrimmed(s)
    ensures Strip(s) == s
  {
  }

  lemma {:induction false} ReplaceCharConcat(a: string, b: string, c: char, rep: string)
    ensures ReplaceChar(a + b, c, rep) == ReplaceChar(a, c, rep) + ReplaceChar(b, c, rep)
  {
    if a == [] {
      assert a + b == b;
    } else {
      assert (a + b)[1..] == a[1..] + b;
      ReplaceCharConcat(a[1..], b, c, rep);
    }
  }

  /** The decimal digits of n, as Python's `f"{n}"` prints them. */
  function Decimal(n: nat): (s: string)
    ensures s != []
    ensures forall c :: c in s ==> '0' <= c <= '9'
  {
    if n < 10 then ["0123456789"[n]] else Decimal(n / 10) + ["0123456789"[n % 10]]
  }

  /** The number some digits stand for. */
  function NumberOf(digits: string): int {
    if digits == [] then 0
    else 10 * NumberOf(digits[..|digits| - 1]) + (digits[|digits| - 1] as int - '0' as int)
  }

  /** The digits of n stand for n, without a zero in front. */
  lemma {:induction false} DecimalExact(n: nat)
    ensures NumberOf(Decimal(n)) == n && (Decimal(n)[0] == '0' ==> n == 0)
  {
    if n >= 10 {
      DecimalExact(n / 10);
      assert Decimal(n)[..|Decimal(n)| - 1] == Decimal(n / 10);
      assert 10 * (n / 10) + n % 10 == n;
    }
  }
}
