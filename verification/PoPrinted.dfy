/** The text of a printed file, character by character (po_sanity.py `write_unreal_po`). */
module PoPrinted {
  import opened Text
  import opened Wrappers
  import opened PoEscape
  import opened PoFile

  /** Every line with its end. */
  function Ended(ls: seq<string>): string {
    if ls == [] then [] else ls[0] + ['\n'] + Ended(ls[1..])
  }

  /** The text of the header, a quoted line for each of its lines: what stands between the first and the last quote. */
  function Folded(t: string): string {
    if t == [] then [] else (if t[0] == '\n' then "\\n\"\n\"" else EncodeChar(t[0])) + Folded(t[1..])
  }

  function PrintedHeader(h: PoEntry, t: string): string {
    Ended(h.comments) + ("msgid \"\"\nmsgstr \"\"\n\"" + (Folded(t) + "\\n\"\n\n"))
  }

  function PrintedCtxt(ctxt: Option<string>): string {
    if ctxt.Some? then "msgctxt \"" + (Encode(ctxt.value) + "\"\n") else ""
  }

  /** One physical line a string, the newlines of the translation as CRLF, and a blank line behind. */
  function PrintedEntry(e: PoEntry): string {
    Ended(e.comments)
    + (PrintedCtxt(e.ctxt)
       + ("msgid \"" + (Encode(e.id) + "\"\nmsgstr \"") + (Encode(Newlines(e.str, "\r\n")) + "\"\n\n")))
  }

  function PrintedEntries(es: seq<PoEntry>): string {
    if es == [] then [] else PrintedEntry(es[0]) + PrintedEntries(es[1..])
  }

  // ------------------------------------------------------------------- lines

  lemma {:induction false} EndedConcat(a: seq<string>, b: seq<string>)
    ensures Ended(a + b) == Ended(a) + Ended(b)
  {
    if a == [] {
      assert a + b == b;
    } else {
      assert (a + b)[1..] == a[1..] + b;
      EndedConcat(a[1..], b);
    }
  }

  lemma EndedOne(l: string)
    ensures Ended([l]) == l + ['\n']
  {
    assert [l][1..] == [];
  }

  lemma {:induction false} JoinEnded(ls: seq<string>)
    requires ls != []
    ensures Join(ls) + ['\n'] == Ended(ls)
  {
    if |ls| == 1 {
      EndedOne(ls[0]);
      assert ls == [ls[0]];
    } else {
      JoinEnded(ls[1..]);
    }
  }

  // ------------------------------------------------------------------ strings

  lemma EndedTwo(k: string, l: string)
    ensures Ended([k, l]) == k + (['\n'] + (l + ['\n']))
  {
    assert [k, l] == [k] + [l];
    EndedConcat([k], [l]);
    EndedOne(k);
    EndedOne(l);
  }

  lemma StringsEnded(e: PoEntry)
    ensures Ended([Quoted("msgid", Esc(e.id)), Quoted("msgstr", Esc(NewlineChain(e.str, [CR, LF])))] + [[]])
         == "msgid \"" + (Encode(e.id) + "\"\nmsgstr \"") + (Encode(Newlines(e.str, "\r\n")) + "\"\n\n")
  {
    hide Esc, Encode, Newlines, NewlineChain, Ended;
    EscIsEncode(e.id);
    assert "\r\n" == [CR, LF];
    NewlineChainIsNewlines(e.str, [CR, LF]);
    EscIsEncode(Newlines(e.str, [CR, LF]));
    var k, l := Quoted("msgid", Esc(e.id)), Quoted("msgstr", Esc(NewlineChain(e.str, [CR, LF])));
    EndedConcat([k, l], [[]]);
    EndedTwo(k, l);
    EndedOne([]);
    QuotedIs("msgid", Encode(e.id));
    QuotedIs("msgstr", Encode(Newlines(e.str, "\r\n")));
    Glue(Encode(e.id), Encode(Newlines(e.str, "\r\n")));
  }

  lemma QuotedIs(word: string, body: string)
    ensures Quoted(word, body) == word + (" \"" + (body + "\""))
  {
  }

  lemma Glue(a: string, b: string)
    ensures ("msgid" + (" \"" + (a + "\""))) + (['\n'] + (("msgstr" + (" \"" + (b + "\""))) + ['\n'])) + ([] + ['\n'])
         == "msgid \"" + (a + "\"\nmsgstr \"") + (b + "\"\n\n")
  {
    assert "msgid" + " \"" == "msgid \"";
    assert "\"" + (['\n'] + ("msgstr" + " \"")) == "\"\nmsgstr \"";
    assert "\"" + ['\n'] + ['\n'] == "\"\n\n";
  }

  lemma CtxtEnded(ctxt: Option<string>)
    ensures Ended(if ctxt.Some? then [Quoted("msgctxt", Esc(ctxt.value))] else []) == PrintedCtxt(ctxt)
  {
    hide Esc, Encode;
    if ctxt.Some? {
      EscIsEncode(ctxt.value);
      EndedOne(Quoted("msgctxt", Esc(ctxt.value)));
      QuotedIs("msgctxt", Encode(ctxt.value));
      assert "msgctxt" + " \"" == "msgctxt \"" && "\"" + ['\n'] == "\"\n";
    }
  }

  lemma EntryEnded(e: PoEntry)
    ensures Ended(EntryLines(e)) == PrintedEntry(e)
  {
    hide Ended, Quoted, Esc, Encode, Newlines, NewlineChain, PrintedCtxt;
    var ctxt := if e.ctxt.Some? then [Quoted("msgctxt", Esc(e.ctxt.value))] else [];
    var rest := [Quoted("msgid", Esc(e.id)), Quoted("msgstr", Esc(NewlineChain(e.str, [CR, LF])))] + [[]];
    EndedConcat(e.comments, ctxt + rest);
    EndedConcat(ctxt, rest);
    CtxtEnded(e.ctxt);
    StringsEnded(e);
  }

  lemma {:induction false} EntriesEnded(es: seq<PoEntry>)
    ensures Ended(AllEntryLines(es)) == PrintedEntries(es)
  {
    hide PrintedEntry, EntryLines;
    if es != [] {
      EntriesEnded(es[1..]);
      EntryEnded(es[0]);
      EndedConcat(EntryLines(es[0]), AllEntryLines(es[1..]));
    }
  }

  // ------------------------------------------------------------------- header

  /** The quoted lines of some lines, without the first quote. */
  function Unopened(ls: seq<string>): string
    requires ls != []
  {
    Encode(ls[0]) + ("\\n\"\n" + Ended(HeaderText(ls[1..])))
  }

  lemma HeaderLineIs(body: string)
    ensures ([QUOTE] + (body + [BS, 'n']) + [QUOTE]) + ['\n'] == ['\"'] + (body + "\\n\"\n")
  {
    assert [BS, 'n'] + ([QUOTE] + ['\n']) == "\\n\"\n";
  }

  lemma HeaderTextCons(ls: seq<string>)
    requires ls != []
    ensures HeaderText(ls) == [[QUOTE] + (Encode(ls[0]) + [BS, 'n']) + [QUOTE]] + HeaderText(ls[1..])
  {
    hide Esc, Encode;
    EscIsEncode(ls[0]);
  }

  lemma HeaderTextEnded(ls: seq<string>)
    requires ls != []
    ensures Ended(HeaderText(ls)) == ['\"'] + Unopened(ls)
  {
    hide Encode, HeaderText, Ended;
    var line := [QUOTE] + (Encode(ls[0]) + [BS, 'n']) + [QUOTE];
    HeaderTextCons(ls);
    EndedConcat([line], HeaderText(ls[1..]));
    EndedOne(line);
    HeaderLineIs(Encode(ls[0]));
    var more := Ended(HeaderText(ls[1..]));
    assert (['\"'] + (Encode(ls[0]) + "\\n\"\n")) + more == ['\"'] + (Encode(ls[0]) + ("\\n\"\n" + more));
  }

  lemma {:induction false} LinesFolded(t: string)
    ensures Unopened(Split(t)) == Folded(t) + "\\n\"\n"
  {
    if t == [] {
      assert Unopened([[]]) == "\\n\"\n";
    } else {
      var rest := Split(t[1..]);
      LinesFolded(t[1..]);
      if t[0] == '\n' {
        NewlineFolded(rest, Folded(t[1..]));
      } else {
        CharFolded(t[0], rest);
        assert EncodeChar(t[0]) + (Folded(t[1..]) + "\\n\"\n") == (EncodeChar(t[0]) + Folded(t[1..])) + "\\n\"\n";
      }
    }
  }

  lemma NewlineFolded(rest: seq<string>, folded: string)
    requires rest != [] && Unopened(rest) == folded + "\\n\"\n"
    ensures Unopened([[]] + rest) == ("\\n\"\n\"" + folded) + "\\n\"\n"
  {
    hide HeaderText, Unopened;
    HeaderTextEnded(rest);
    assert ([[]] + rest)[1..] == rest;
    FirstEmpty(rest);
    assert "\\n\"\n" + (['\"'] + (folded + "\\n\"\n")) == ("\\n\"\n\"" + folded) + "\\n\"\n";
  }

  lemma FirstEmpty(rest: seq<string>)
    ensures Unopened([[]] + rest) == "\\n\"\n" + Ended(HeaderText(rest))
  {
    hide HeaderText, Ended;
    assert ([[]] + rest)[1..] == rest && ([[]] + rest)[0] == [];
    assert Encode([]) == [];
  }

  lemma CharFolded(c: char, rest: seq<string>)
    requires rest != []
    ensures Unopened([[c] + rest[0]] + rest[1..]) == EncodeChar(c) + Unopened(rest)
  {
    hide EncodeChar, HeaderText, Ended;
    assert ([[c] + rest[0]] + rest[1..])[1..] == rest[1..];
    assert ([c] + rest[0])[1..] == rest[0];
    var tail := "\\n\"\n" + Ended(HeaderText(rest[1..]));
    assert (EncodeChar(c) + Encode(rest[0])) + tail == EncodeChar(c) + (Encode(rest[0]) + tail);
  }

  lemma {:induction false} RStripLfIs(t: string, n: nat)
    requires t == [] || t[|t| - 1] != '\n'
    ensures RStripLf(t + seq(n, i => '\n')) == t
  {
    if n == 0 {
      assert t + seq(n, i => '\n') == t;
    } else {
      var s := t + seq(n, i => '\n');
      assert s[..|s| - 1] == t + seq(n - 1, i => '\n');
      RStripLfIs(t, n - 1);
    }
  }

  lemma HeaderEnded(h: PoEntry, t: string)
    requires RStripLf(h.str) == t
    ensures Ended(HeaderLines(h)) == PrintedHeader(h, t)
  {
    hide Ended, HeaderText, Folded, Split, RStripLf;
    var opening := [Quoted("msgid", []), Quoted("msgstr", [])];
    var text := HeaderText(Split(t));
    EndedConcat(h.comments, opening + (text + [[]]));
    EndedConcat(opening, text + [[]]);
    EndedConcat(text, [[]]);
    EndedTwo(Quoted("msgid", []), Quoted("msgstr", []));
    EndedOne([]);
    HeaderTextEnded(Split(t));
    LinesFolded(t);
    OpeningIs();
    HeaderGlue(Folded(t));
  }

  lemma OpeningIs()
    ensures Quoted("msgid", []) + (['\n'] + (Quoted("msgstr", []) + ['\n'])) == "msgid \"\"\nmsgstr \"\"\n"
  {
  }

  lemma HeaderGlue(folded: string)
    ensures "msgid \"\"\nmsgstr \"\"\n" + ((['\"'] + (folded + "\\n\"\n")) + ([] + ['\n']))
         == "msgid \"\"\nmsgstr \"\"\n\"" + (folded + "\\n\"\n\n")
  {
    assert "msgid \"\"\nmsgstr \"\"\n" + ['\"'] == "msgid \"\"\nmsgstr \"\"\n\"";
    assert "\\n\"\n" + ['\n'] == "\\n\"\n\n";
  }

  /** The whole printed text: the header with its text line by line, newlines at the end of it aside, then the entries,
      each followed by a blank line; the last line has no end. Nothing is printed of nothing. */
  lemma PrintExact(h: Option<PoEntry>, es: seq<PoEntry>, t: string, n: nat)
    requires t == [] || t[|t| - 1] != '\n'
    requires h.Some? ==> h.value.str == t + seq(n, i => '\n')
    ensures h == None && es == [] ==> Print(h, es) == ""
    ensures h.Some? || es != [] ==>
      Print(h, es) + "\n" == (if h.Some? then PrintedHeader(h.value, t) else "") + PrintedEntries(es)
  {
    hide Ended, HeaderLines, EntryLines, PrintedHeader, PrintedEntry, RStripLf, Join;
    RStripLfIs(t, n);
    var head := if h.Some? then HeaderLines(h.value) else [];
    if h.Some? {
      HeaderEnded(h.value, t);
    }
    NothingEnded();
    EndedConcat(head, AllEntryLines(es));
    EntriesEnded(es);
    if h.Some? || es != [] {
      SomethingPrinted(h, es);
      JoinEnded(PrintLines(h, es));
    }
  }

  lemma SomethingPrinted(h: Option<PoEntry>, es: seq<PoEntry>)
    requires h.Some? || es != []
    ensures PrintLines(h, es) != []
  {
    hide Quoted, Esc, HeaderText;
  }

  lemma NothingEnded()
    ensures Ended([]) == [] && Join([]) == []
  {
  }
}
