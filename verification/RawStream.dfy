/** The line streams of the PO delivery: the raw reader, the two patchers and the separator repair of a whole
    file (po_patch.py `read_raw_entries`, `patch_po_raw_lines`, `patch_po_lines`, `repair_po_separators`). */
module RawStream {
  import opened Text
  import opened Wrappers
  import opened PoEscape
  import opened Separators

  // ------------------------------------------------------------------- lines

  /** What a line is to the streams, with the text behind its keyword. */
  datatype Kind = Ctxt(field: string) | Id(field: string) | Str(field: string) | Quoted | Other

  const CTXT := "msgctxt "
  const ID := "msgid "
  const STR := "msgstr "

  function Classify(line: string): Kind {
    var s := Strip(line);
    if CTXT <= s then Ctxt(s[|CTXT|..])
    else if ID <= s then Id(s[|ID|..])
    else if STR <= s then Str(s[|STR|..])
    else if s != [] && s[0] == QUOTE then Quoted
    else Other
  }

  /** `[1:-1]` after a strip: the text between the quotes. */
  function Unquote(field: string): string {
    var s := Strip(field);
    if |s| < 2 then [] else s[1..|s| - 1]
  }

  predicate IsEol(c: char) {
    c == CR || c == LF
  }

  /** The line's own terminator; a bare newline when it has none. */
  function Eol(line: string): (e: string)
    ensures e != [] && forall c :: c in e ==> IsEol(c)
  {
    var e := EolSuffix(line);
    if e == [] then [LF] else e
  }

  function EolSuffix(line: string): (e: string)
    ensures forall c :: c in e ==> IsEol(c)
  {
    if line != [] && IsEol(line[|line| - 1]) then EolSuffix(line[..|line| - 1]) + [line[|line| - 1]] else []
  }

  function MsgstrLine(raw: string, line: string): string {
    STR + [QUOTE] + raw + [QUOTE] + Eol(line)
  }

  lemma StripPatched(raw: string, line: string)
    ensures Strip(MsgstrLine(raw, line)) == STR + ([QUOTE] + raw + [QUOTE])
  {
    hide Strip, Eol;
    var q := [QUOTE] + raw + [QUOTE];
    var s := STR + q;
    assert s[0] == 'm' && s[|s| - 1] == QUOTE;
    StripKeeps(s, Eol(line));
    assert MsgstrLine(raw, line) == s + Eol(line);
  }

  /** A substituted line is read as a msgstr line carrying exactly the bytes that were put in. */
  lemma ClassifyPatched(raw: string, line: string)
    ensures Classify(MsgstrLine(raw, line)).Str?
    ensures Unquote(Classify(MsgstrLine(raw, line)).field) == raw
  {
    hide Strip, MsgstrLine;
    var q := [QUOTE] + raw + [QUOTE];
    var s := STR + q;
    StripPatched(raw, line);
    assert s[|STR|..] == q;
    assert s[3] == 's' && CTXT[3] == 'c' && ID[3] == 'i';
    StripTrimmed(q);
    assert q[1..|q| - 1] == raw;
  }

  // ------------------------------------------------------------------ reader

  function EntryOf(key: string, src: Option<string>, field: string): Entry {
    Entry(key, if src.Some? then src.value else [], Unquote(field))
  }

  /** What the reader reports from the remaining lines, given the key and msgid it holds. */
  function ReadFrom(lines: seq<string>, key: Option<string>, src: Option<string>): seq<Entry> {
    if lines == [] then []
    else
      match Classify(lines[0])
      case Ctxt(f) => ReadFrom(lines[1..], Some(Unquote(f)), src)
      case Id(f) => ReadFrom(lines[1..], key, Some(Unquote(f)))
      case Str(f) =>
        if key.None? then ReadFrom(lines[1..], key, src)
        else [EntryOf(key.value, src, f)] + ReadFrom(lines[1..], None, None)
      case _ => ReadFrom(lines[1..], key, src)
  }

  function Read(lines: seq<string>): seq<Entry> {
    ReadFrom(lines, None, None)
  }

  /** `read_raw_entries` over the lines of a file. */
  method ReadRawEntries(lines: seq<string>) returns (out: seq<Entry>)
    ensures out == Read(lines)
  {
    hide Classify, Unquote;
    out := [];
    var key: Option<string>, src: Option<string> := None, None;
    for i := 0 to |lines|
      invariant out + ReadFrom(lines[i..], key, src) == Read(lines)
    {
      assert lines[i..][0] == lines[i] && lines[i..][1..] == lines[i + 1..];
      match Classify(lines[i])
      case Ctxt(f) => key := Some(Unquote(f));
      case Id(f) => src := Some(Unquote(f));
      case Str(f) =>
        if key.Some? {
          out := out + [EntryOf(key.value, src, f)];
          key, src := None, None;
        }
      case _ =>
    }
  }

  // ----------------------------------------------------------------- patcher

  /** How a patcher reads the key of a msgctxt line: raw bytes, or through the chained decoder. */
  datatype KeyReader = RawKey | DecodedKey

  function StripQuotes(s: string): string {
    if s != [] && s[0] == QUOTE then StripQuotes(s[1..])
    else if s != [] && s[|s| - 1] == QUOTE then StripQuotes(s[..|s| - 1])
    else s
  }

  function KeyOf(reader: KeyReader, field: string): string {
    match reader
    case RawKey => Unquote(field)
    case DecodedKey => UnescapeChain(StripQuotes(Strip(field)))
  }

  /** What the patcher carries from line to line. */
  datatype State = State(key: Option<string>, skipping: bool)

  /** One line: the lines yielded, the keys applied, and the state after it. */
  datatype Step = Step(out: seq<string>, applied: seq<string>, next: State)

  function PatchStep(line: string, r: KeyReader, raws: map<string, string>, st: State): Step {
    var k := Classify(line);
    if st.skipping && k.Quoted? then Step([], [], st)
    else if k.Str? && st.key.Some? && st.key.value in raws then
      Step([MsgstrLine(raws[st.key.value], line)], [st.key.value], State(st.key, true))
    else Step([line], [], State(if k.Ctxt? then Some(KeyOf(r, k.field)) else st.key, false))
  }

  /** The patched stream and the keys patched, from a patcher state on. */
  function PatchFrom(lines: seq<string>, r: KeyReader, raws: map<string, string>, st: State)
    : (seq<string>, seq<string>)
  {
    if lines == [] then ([], [])
    else
      var s := PatchStep(lines[0], r, raws, st);
      var (rest, applied) := PatchFrom(lines[1..], r, raws, s.next);
      (s.out + rest, s.applied + applied)
  }

  function Patched(lines: seq<string>, r: KeyReader, raws: map<string, string>): seq<string> {
    PatchFrom(lines, r, raws, State(None, false)).0
  }

  function Applied(lines: seq<string>, r: KeyReader, raws: map<string, string>): seq<string> {
    PatchFrom(lines, r, raws, State(None, false)).1
  }

  lemma PatchUnfold(lines: seq<string>, i: nat, r: KeyReader, raws: map<string, string>, st: State,
                    out: seq<string>, applied: seq<string>)
    requires i < |lines|
    ensures var s := PatchStep(lines[i], r, raws, st);
      && out + PatchFrom(lines[i..], r, raws, st).0 == (out + s.out) + PatchFrom(lines[i + 1..], r, raws, s.next).0
      && applied + PatchFrom(lines[i..], r, raws, st).1
         == (applied + s.applied) + PatchFrom(lines[i + 1..], r, raws, s.next).1
  {
    hide PatchStep;
    assert lines[i..][0] == lines[i] && lines[i..][1..] == lines[i + 1..];
  }

  /** The loop both patchers share; they differ in how they read a key and in the bytes they write. */
  method PatchLines(lines: seq<string>, r: KeyReader, raws: map<string, string>)
    returns (out: seq<string>, applied: seq<string>)
    ensures out == Patched(lines, r, raws) && applied == Applied(lines, r, raws)
  {
    hide Classify, MsgstrLine, KeyOf, PatchFrom;
    out, applied := [], [];
    assert lines[0..] == lines;
    var currentKey: Option<string>, skipping := None, false;
    for i := 0 to |lines|
      invariant var rest := PatchFrom(lines[i..], r, raws, State(currentKey, skipping));
        out + rest.0 == Patched(lines, r, raws) && applied + rest.1 == Applied(lines, r, raws)
    {
      PatchUnfold(lines, i, r, raws, State(currentKey, skipping), out, applied);
      assert out + [] == out && applied + [] == applied;
      var kind := Classify(lines[i]);
      if skipping {
        if kind.Quoted? {
          continue;
        }
        skipping := false;
      }
      if kind.Ctxt? {
        currentKey := Some(KeyOf(r, kind.field));
      } else if kind.Str? && currentKey.Some? && currentKey.value in raws {
        out := out + [MsgstrLine(raws[currentKey.value], lines[i])];
        applied := applied + [currentKey.value];
        skipping := true;
        continue;
      }
      out := out + [lines[i]];
    }
    assert lines[|lines|..] == [];
    PatchDone(r, raws, State(currentKey, skipping), out, applied);
  }

  lemma PatchDone(r: KeyReader, raws: map<string, string>, st: State, out: seq<string>, applied: seq<string>)
    ensures out + PatchFrom([], r, raws, st).0 == out && applied + PatchFrom([], r, raws, st).1 == applied
  {
  }

  /** `patch_po_lines`: decoded replacements, escaped for a single line in the newline style of the file. */
  method PatchPoLines(lines: seq<string>, replacements: map<string, string>, crlf: bool)
    returns (out: seq<string>, applied: seq<string>)
    ensures var raws := map k | k in replacements :: EscapeLine(replacements[k], crlf);
      out == Patched(lines, DecodedKey, raws) && applied == Applied(lines, DecodedKey, raws)
  {
    out, applied := PatchLines(lines, DecodedKey, map k | k in replacements :: EscapeLine(replacements[k], crlf));
  }

  // --------------------------------------------------------------- read-back

  function Substitute(es: seq<Entry>, raws: map<string, string>): seq<Entry> {
    if es == [] then []
    else [if es[0].key in raws then es[0].(tgt := raws[es[0].key]) else es[0]] + Substitute(es[1..], raws)
  }

  /** What the reader holds after a line. */
  function After(k: Kind, key: Option<string>, src: Option<string>): (Option<string>, Option<string>) {
    match k
    case Ctxt(f) => (Some(Unquote(f)), src)
    case Id(f) => (key, Some(Unquote(f)))
    case Str(_) => if key.None? then (key, src) else (None, None)
    case _ => (key, src)
  }

  /** What it reports at a line. */
  function Emitted(k: Kind, key: Option<string>, src: Option<string>): seq<Entry> {
    if k.Str? && key.Some? then [EntryOf(key.value, src, k.field)] else []
  }

  lemma ReadCons(line: string, rest: seq<string>, key: Option<string>, src: Option<string>)
    ensures var (key', src') := After(Classify(line), key, src);
      ReadFrom([line] + rest, key, src) == Emitted(Classify(line), key, src) + ReadFrom(rest, key', src')
  {
  }

  /** Reading past a line the patcher leaves alone, or past the one it writes in its place. */
  lemma ReadPatchedStep(line: string, line': string, rest: seq<string>, rest': seq<string>,
                        raws: map<string, string>, key: Option<string>, src: Option<string>)
    requires var k, k' := Classify(line), Classify(line');
      if k.Str? && key.Some? && key.value in raws then k'.Str? && Unquote(k'.field) == raws[key.value]
      else k' == k || (k.Str? && k'.Str? && key.None?)
    requires var (key', src') := After(Classify(line), key, src);
      ReadFrom(rest', key', src') == Substitute(ReadFrom(rest, key', src'), raws)
    ensures ReadFrom([line'] + rest', key, src) == Substitute(ReadFrom([line] + rest, key, src), raws)
  {
  }

  lemma {:induction false} ReadPatchedFrom(lines: seq<string>, raws: map<string, string>, st: State,
                                           key: Option<string>, src: Option<string>)
    requires key.Some? ==> key == st.key
    ensures ReadFrom(PatchFrom(lines, RawKey, raws, st).0, key, src) == Substitute(ReadFrom(lines, key, src), raws)
  {
    if lines == [] {
      return;
    }
    hide Classify, MsgstrLine, Unquote, ReadFrom, Substitute;
    var line, rest := lines[0], lines[1..];
    var s := PatchStep(line, RawKey, raws, st);
    var (key', src') := After(Classify(line), key, src);
    assert lines == [line] + rest;
    ReadPatchedFrom(rest, raws, s.next, key', src');
    var rest' := PatchFrom(rest, RawKey, raws, s.next).0;
    if s.out == [] {
      ReadCons(line, rest, key, src);
      assert [] + rest' == rest' && [] + ReadFrom(rest, key', src') == ReadFrom(rest, key', src');
    } else {
      if s.applied != [] {
        ClassifyPatched(raws[st.key.value], line);
      }
      ReadPatchedStep(line, s.out[0], rest, rest', raws, key, src);
    }
  }

  /** Patched streams read back as substitution, for every file and every set of replacements: the reader
      sees the msgstr bytes replaced exactly at the keys replaced and everything else as before. */
  lemma ReadPatched(lines: seq<string>, raws: map<string, string>)
    ensures Read(Patched(lines, RawKey, raws)) == Substitute(Read(lines), raws)
  {
    ReadPatchedFrom(lines, raws, State(None, false), None, None);
  }

  // ------------------------------------------------- which lines are touched

  /** The key of the last msgctxt line among the first i lines. */
  function LastKey(lines: seq<string>, r: KeyReader, i: nat): Option<string>
    requires i <= |lines|
  {
    if i == 0 then None
    else if Classify(lines[i - 1]).Ctxt? then Some(KeyOf(r, Classify(lines[i - 1]).field))
    else LastKey(lines, r, i - 1)
  }

  /** Line i is a msgstr line governed by a key that has a replacement. */
  predicate Rewritten(lines: seq<string>, r: KeyReader, raws: map<string, string>, i: nat)
    requires i < |lines|
  {
    var key := LastKey(lines, r, i);
    Classify(lines[i]).Str? && key.Some? && key.value in raws
  }

  /** Line i is a continuation line directly below (through continuation lines only) a rewritten one. */
  predicate Dropped(lines: seq<string>, r: KeyReader, raws: map<string, string>, i: nat)
    requires i < |lines|
  {
    Classify(lines[i]).Quoted? && i > 0 && (Rewritten(lines, r, raws, i - 1) || Dropped(lines, r, raws, i - 1))
  }

  function StateAt(lines: seq<string>, r: KeyReader, raws: map<string, string>, i: nat): State
    requires i <= |lines|
  {
    State(LastKey(lines, r, i), i > 0 && (Rewritten(lines, r, raws, i - 1) || Dropped(lines, r, raws, i - 1)))
  }

  /** The file with every rewritten line replaced, every dropped line gone and every other line as it was. */
  function Expected(lines: seq<string>, r: KeyReader, raws: map<string, string>, i: nat): seq<string>
    requires i <= |lines|
    decreases |lines| - i
  {
    if i == |lines| then []
    else (if Rewritten(lines, r, raws, i) then [MsgstrLine(raws[LastKey(lines, r, i).value], lines[i])]
          else if Dropped(lines, r, raws, i) then [] else [lines[i]])
         + Expected(lines, r, raws, i + 1)
  }

  lemma {:induction false} PatchIsLocalFrom(lines: seq<string>, r: KeyReader, raws: map<string, string>, i: nat)
    requires i <= |lines|
    ensures PatchFrom(lines[i..], r, raws, StateAt(lines, r, raws, i)).0 == Expected(lines, r, raws, i)
    decreases |lines| - i
  {
    if i < |lines| {
      hide Classify, MsgstrLine, KeyOf;
      PatchIsLocalFrom(lines, r, raws, i + 1);
      assert lines[i..][0] == lines[i] && lines[i..][1..] == lines[i + 1..];
    }
  }

  /** The patcher changes the decided msgstr blocks and nothing else: the stream is the file line by line,
      in order, with rewritten lines replaced and their old continuations dropped. */
  lemma PatchIsLocal(lines: seq<string>, r: KeyReader, raws: map<string, string>)
    ensures Patched(lines, r, raws) == Expected(lines, r, raws, 0)
  {
    PatchIsLocalFrom(lines, r, raws, 0);
    assert lines[0..] == lines;
  }

  lemma {:induction false} NothingRewritten(lines: seq<string>, r: KeyReader, raws: map<string, string>, i: nat)
    requires i <= |lines|
    requires forall j :: 0 <= j < |lines| ==> !Rewritten(lines, r, raws, j)
    ensures Expected(lines, r, raws, i) == lines[i..]
    decreases |lines| - i
  {
    if i < |lines| {
      NothingRewritten(lines, r, raws, i + 1);
      NothingDropped(lines, r, raws, i);
    }
  }

  lemma {:induction false} NothingDropped(lines: seq<string>, r: KeyReader, raws: map<string, string>, i: nat)
    requires i < |lines|
    requires forall j :: 0 <= j < |lines| ==> !Rewritten(lines, r, raws, j)
    ensures !Dropped(lines, r, raws, i)
  {
    if i > 0 {
      NothingDropped(lines, r, raws, i - 1);
    }
  }

  /** A file none of whose governed msgstr lines has a replacement is forwarded byte for byte; in
      particular every file is when there are no replacements. */
  lemma UntouchedFile(lines: seq<string>, r: KeyReader, raws: map<string, string>)
    requires forall j :: 0 <= j < |lines| ==> !Rewritten(lines, r, raws, j)
    ensures Patched(lines, r, raws) == lines
  {
    PatchIsLocal(lines, r, raws);
    NothingRewritten(lines, r, raws, 0);
    assert lines[0..] == lines;
  }

  // ------------------------------------------------------------- overreach

  /** The reader reports line i: a msgstr line with no other msgstr line since the last msgctxt line. */
  predicate Reported(lines: seq<string>, i: nat)
    requires i < |lines|
  {
    && Classify(lines[i]).Str?
    && exists c :: 0 <= c < i && Classify(lines[c]).Ctxt? && forall m :: c < m < i ==> !Classify(lines[m]).Str?
  }

  /** A second msgstr line below a rewritten one, with no msgctxt line between them. */
  predicate SecondMsgstr(lines: seq<string>, r: KeyReader, raws: map<string, string>, i: nat, j: nat)
    requires i < j < |lines|
  {
    && Rewritten(lines, r, raws, i) && Classify(lines[j]).Str?
    && forall m :: i < m < j ==> !Classify(lines[m]).Ctxt?
  }

  lemma {:induction false} SameLastKey(lines: seq<string>, r: KeyReader, i: nat, j: nat)
    requires i <= j <= |lines| && forall m :: i <= m < j ==> !Classify(lines[m]).Ctxt?
    ensures LastKey(lines, r, i) == LastKey(lines, r, j)
  {
    if i < j {
      SameLastKey(lines, r, i, j - 1);
    }
  }

  lemma {:induction false} LastCtxt(lines: seq<string>, r: KeyReader, j: nat) returns (c: nat)
    requires j <= |lines| && LastKey(lines, r, j).Some?
    ensures c < j && Classify(lines[c]).Ctxt? && forall m :: c < m < j ==> !Classify(lines[m]).Ctxt?
  {
    if Classify(lines[j - 1]).Ctxt? {
      c := j - 1;
    } else {
      c := LastCtxt(lines, r, j - 1);
    }
  }

  lemma Unreported(lines: seq<string>, r: KeyReader, raws: map<string, string>, j: nat)
    requires j < |lines| && Rewritten(lines, r, raws, j) && !Reported(lines, j)
    ensures exists i :: 0 <= i < j && SecondMsgstr(lines, r, raws, i, j)
  {
    var c := LastCtxt(lines, r, j);
    var i :| c < i < j && Classify(lines[i]).Str?;
    SameLastKey(lines, r, i, j);
    assert SecondMsgstr(lines, r, raws, i, j);
  }

  /** The patcher keeps its key after a msgstr line, the reader drops it. So the patcher rewrites only
      lines the reader reports exactly when no rewritten msgstr is followed by another one before the next
      msgctxt line; an un-keyed entry below a decided one is overwritten, out of the reader's sight. */
  lemma OverreachExact(lines: seq<string>, r: KeyReader, raws: map<string, string>)
    ensures (forall j :: 0 <= j < |lines| && Rewritten(lines, r, raws, j) ==> Reported(lines, j))
       <==> (forall i, j :: 0 <= i < j < |lines| ==> !SecondMsgstr(lines, r, raws, i, j))
  {
    hide Classify;
    if i, j :| 0 <= i < j < |lines| && SecondMsgstr(lines, r, raws, i, j) {
      SameLastKey(lines, r, i, j);
      assert Rewritten(lines, r, raws, j) && !Reported(lines, j);
    } else {
      forall j | 0 <= j < |lines| && Rewritten(lines, r, raws, j) ensures Reported(lines, j) {
        if !Reported(lines, j) {
          Unreported(lines, r, raws, j);
        }
      }
    }
  }

  // -------------------------------------------------- repairing a whole file

  /** The entry with its own fix, when it gets one. */
  function Own(e: Entry): Entry {
    if Fix(e).Some? then e.(tgt := Fix(e).value) else e
  }

  /** The entry with what is filed under its key. */
  function AsFiled(e: Entry, raws: map<string, string>): Entry {
    if e.key in raws then e.(tgt := raws[e.key]) else e
  }

  /** Entry j is the last of its key that gets a fix. */
  predicate Files(es: seq<Entry>, j: nat)
    requires j < |es|
  {
    Fix(es[j]).Some? && forall m :: j < m < |es| && es[m].key == es[j].key ==> Fix(es[m]) == None
  }

  lemma FixesSnoc(es: seq<Entry>, e: Entry)
    ensures Fixes(es + [e]) == if Fix(e).Some? then Fixes(es)[e.key := Fix(e).value] else Fixes(es)
  {
    hide Fix;
    assert (es + [e])[..|es|] == es;
  }

  /** The audit files under a key the fix of the last entry of that key that gets one. */
  lemma {:induction false} FiledFix(es: seq<Entry>, k: string)
    ensures k in Fixes(es) <==> exists e :: e in es && e.key == k && Fix(e).Some?
    ensures k in Fixes(es) ==>
      exists j :: 0 <= j < |es| && Files(es, j) && es[j].key == k && Fixes(es)[k] == Fix(es[j]).value
  {
    hide Fix;
    if es != [] {
      var t, e, n := es[..|es| - 1], es[|es| - 1], |es| - 1;
      FiledFix(t, k);
      FixesSnoc(t, e);
      assert es == t + [e];
      if k in Fixes(es) {
        if e.key == k && Fix(e).Some? {
          assert Files(es, n);
        } else {
          var j :| 0 <= j < n && Files(t, j) && t[j].key == k && Fixes(t)[k] == Fix(t[j]).value;
          assert Files(es, j);
        }
      }
    }
  }

  lemma {:induction false} SubstituteAt(es: seq<Entry>, raws: map<string, string>, i: nat)
    requires i < |es|
    ensures |Substitute(es, raws)| == |es|
    ensures Substitute(es, raws)[i] == AsFiled(es[i], raws)
  {
    if i > 0 {
      SubstituteAt(es[1..], raws, i - 1);
    } else if |es| > 1 {
      SubstituteAt(es[1..], raws, 0);
    }
  }

  lemma {:induction false} SubstituteLength(es: seq<Entry>, raws: map<string, string>)
    ensures |Substitute(es, raws)| == |es|
  {
    if es != [] {
      SubstituteLength(es[1..], raws);
    }
  }

  /** Entries that share a key would all be given the same text. */
  ghost predicate TwinsAgree(es: seq<Entry>) {
    forall a, b :: a in es && b in es && a.key == b.key && Fix(b).Some? ==> Fix(b).value == Own(a).tgt
  }

  lemma TwinsFiled(es: seq<Entry>)
    ensures TwinsAgree(es) <==> forall e :: e in es ==> AsFiled(e, Fixes(es)) == Own(e)
  {
    hide Fix, Fixes;
    var fixes := Fixes(es);
    forall k
      ensures k in fixes <==> exists b :: b in es && b.key == k && Fix(b).Some?
      ensures k in fixes ==> exists b :: b in es && b.key == k && Fix(b).Some? && fixes[k] == Fix(b).value {
      FiledFix(es, k);
    }
    if forall e :: e in es ==> AsFiled(e, fixes) == Own(e) {
      forall a, b | a in es && b in es && a.key == b.key && Fix(b).Some? ensures Fix(b).value == Own(a).tgt {
        assert AsFiled(a, fixes) == Own(a) && AsFiled(b, fixes) == Own(b);
        assert b.key in fixes;
      }
    }
  }

  /** Every repaired file read back: entry for entry, and each with its own repair exactly when the fix filed under its
      key, if there is one, is its own; all of them, exactly when entries that share a key agree. */
  lemma RepairReads(lines: seq<string>)
    ensures var es := Read(lines);
      var after := Read(Patched(lines, RawKey, Fixes(es)));
      && |after| == |es|
      && (forall i :: 0 <= i < |es| ==> after[i] == AsFiled(es[i], Fixes(es)))
      && (forall i :: 0 <= i < |es| ==>
            (after[i] == Own(es[i]) <==> es[i].key in Fixes(es) ==> Fixes(es)[es[i].key] == Own(es[i]).tgt))
      && ((forall i :: 0 <= i < |es| ==> after[i] == Own(es[i])) <==> TwinsAgree(es))
  {
    hide Fix, Patched, Read, Fixes, TwinsAgree;
    var es := Read(lines);
    var fixes := Fixes(es);
    ReadPatched(lines, fixes);
    SubstituteLength(es, fixes);
    forall i | 0 <= i < |es|
      ensures Substitute(es, fixes)[i] == AsFiled(es[i], fixes)
      ensures AsFiled(es[i], fixes) == Own(es[i]) <==> es[i].key in fixes ==> fixes[es[i].key] == Own(es[i]).tgt {
      SubstituteAt(es, fixes, i);
      FiledFix(es, es[i].key);
    }
    TwinsFiled(es);
    assert forall e :: e in es <==> exists i :: 0 <= i < |es| && es[i] == e;
  }

  predicate Settles(e: Entry) {
    Fix(Own(e)) == None
  }

  lemma {:induction false} NoFixes(es: seq<Entry>)
    ensures Fixes(es) == map[] <==> forall i :: 0 <= i < |es| ==> Fix(es[i]) == None
  {
    hide Fix;
    if es != [] {
      var t, e := es[..|es| - 1], es[|es| - 1];
      NoFixes(t);
      FixesSnoc(t, e);
      assert es == t + [e];
      assert forall i :: 0 <= i < |t| ==> es[i] == t[i];
      if Fix(e).Some? {
        assert e.key in Fixes(es) && es[|t|] == e;
      }
    }
  }

  lemma FixChanges(e: Entry)
    ensures Fix(e).Some? ==> Own(e) != e
  {
    hide RepairRaw, Untranslated, BreaksLost;
  }

  /** A repair that has something to do changes the file. */
  lemma RepairChanges(lines: seq<string>)
    ensures Patched(lines, RawKey, Fixes(Read(lines))) == lines <==> Fixes(Read(lines)) == map[]
  {
    hide Fix, Patched, Read, Fixes;
    var es := Read(lines);
    if Fixes(es) == map[] {
      UntouchedFile(lines, RawKey, map[]);
    } else {
      var k :| k in Fixes(es);
      FiledFix(es, k);
      var j :| 0 <= j < |es| && Files(es, j) && es[j].key == k && Fixes(es)[k] == Fix(es[j]).value;
      RepairReads(lines);
      FixChanges(es[j]);
    }
  }

  /** `repair_po_separators` on any file: auditing the repaired file proposes nothing, and repairing it again changes no
      byte, exactly when no entry gets a fix once it holds the one filed under its key; where entries that share a key
      agree, exactly when one fix is enough for each. */
  lemma RepairFileExact(lines: seq<string>)
    ensures var es := Read(lines);
      var once := Patched(lines, RawKey, Fixes(es));
      && (Fixes(Read(once)) == map[] <==> forall e :: e in es ==> Fix(AsFiled(e, Fixes(es))) == None)
      && (Patched(once, RawKey, Fixes(Read(once))) == once <==> Fixes(Read(once)) == map[])
      && (TwinsAgree(es) ==> (Fixes(Read(once)) == map[] <==> forall e :: e in es ==> Settles(e)))
  {
    hide Fix, Patched, Read, Fixes, TwinsAgree;
    var es := Read(lines);
    var once := Patched(lines, RawKey, Fixes(es));
    RepairReads(lines);
    NoFixes(Read(once));
    RepairChanges(once);
    TwinsFiled(es);
    assert forall e :: e in es <==> exists i :: 0 <= i < |es| && es[i] == e;
  }

  /** In particular when the entries are safe to repair. */
  lemma RepairFileSettles(lines: seq<string>)
    requires TwinsAgree(Read(lines)) && forall e :: e in Read(lines) ==> SafeToRepair(e)
    ensures var once := Patched(lines, RawKey, Fixes(Read(lines)));
      Fixes(Read(once)) == map[] && Patched(once, RawKey, Fixes(Read(once))) == once
  {
    hide Patched, Read, Fix, SafeToRepair, Fixes, TwinsAgree;
    forall e | e in Read(lines) ensures Settles(e) {
      if Fix(e).Some? {
        FixSettles(e);
      }
    }
    RepairFileExact(lines);
  }

  // ------------------------------------------------------- two entries of one key

  function Quotes(raw: string): string {
    [QUOTE] + raw + [QUOTE]
  }

  /** A file that holds the entries, three lines for each. */
  function Written(es: seq<Entry>): seq<string> {
    if es == [] then []
    else
      [CTXT + Quotes(es[0].key) + [LF], ID + Quotes(es[0].src) + [LF], STR + Quotes(es[0].tgt) + [LF]]
      + Written(es[1..])
  }

  lemma ClassifyWritten(keyword: string, raw: string)
    requires keyword in [CTXT, ID, STR]
    ensures Classify(keyword + Quotes(raw) + [LF])
         == if keyword == CTXT then Ctxt(Quotes(raw)) else if keyword == ID then Id(Quotes(raw)) else Str(Quotes(raw))
    ensures Unquote(Quotes(raw)) == raw
  {
    hide Strip;
    var q := Quotes(raw);
    var s := keyword + q;
    assert s[0] == 'm' && s[|s| - 1] == QUOTE;
    StripKeeps(s, [LF]);
    assert s[|keyword|..] == q;
    assert STR[3] == 's' && CTXT[3] == 'c' && ID[3] == 'i';
    StripTrimmed(q);
    assert q[1..|q| - 1] == raw;
  }

  /** Three lines read as one entry. */
  lemma ReadThree(e: Entry, rest: seq<string>, src: Option<string>)
    ensures var c, i, t := CTXT + Quotes(e.key) + [LF], ID + Quotes(e.src) + [LF], STR + Quotes(e.tgt) + [LF];
      ReadFrom([c] + ([i] + ([t] + rest)), None, src) == [e] + ReadFrom(rest, None, None)
  {
    hide Classify, Unquote, Quotes, ReadFrom;
    var c, i, t := CTXT + Quotes(e.key) + [LF], ID + Quotes(e.src) + [LF], STR + Quotes(e.tgt) + [LF];
    ClassifyWritten(CTXT, e.key);
    ClassifyWritten(ID, e.src);
    ClassifyWritten(STR, e.tgt);
    ReadCons(c, [i] + ([t] + rest), None, src);
    ReadCons(i, [t] + rest, Some(e.key), src);
    ReadCons(t, rest, Some(e.key), Some(e.src));
    NothingBefore(ReadFrom([i] + ([t] + rest), Some(e.key), src));
    NothingBefore(ReadFrom([t] + rest, Some(e.key), Some(e.src)));
  }

  lemma NothingBefore(es: seq<Entry>)
    ensures [] + es == es
  {
  }

  lemma WrittenCons(e: Entry, es: seq<Entry>)
    ensures Written([e] + es) == [CTXT + Quotes(e.key) + [LF]] + ([ID + Quotes(e.src) + [LF]]
                                 + ([STR + Quotes(e.tgt) + [LF]] + Written(es)))
  {
    hide Quotes;
    assert ([e] + es)[1..] == es;
  }

  lemma {:induction false} ReadWritten(es: seq<Entry>, src: Option<string>)
    ensures ReadFrom(Written(es), None, src) == es
  {
    hide *;
    if es == [] {
      ReadNone(src);
    } else {
      assert es == [es[0]] + es[1..];
      WrittenCons(es[0], es[1..]);
      ReadThree(es[0], Written(es[1..]), src);
      ReadWritten(es[1..], None);
    }
  }

  lemma ReadNone(src: Option<string>)
    ensures ReadFrom(Written([]), None, src) == []
  {
  }

  /** The docstring promises that only entries that disagree with their own msgid are rewritten. Of two entries of one
      key of which only one gets a fix, the other one is rewritten with that fix, whichever comes first. */
  lemma TwinOverwritten(lines: seq<string>, a: Entry, b: Entry)
    requires Read(lines) in [[a, b], [b, a]]
    requires a.key == b.key && Fix(a) == None && Fix(b).Some?
    ensures var after := Read(Patched(lines, RawKey, Fixes(Read(lines))));
      after == if Read(lines) == [a, b] then [a.(tgt := Fix(b).value), Own(b)] else [Own(b), a.(tgt := Fix(b).value)]
  {
    hide Fix, Read, Patched, Fixes;
    var es := Read(lines);
    assert a in es && b in es;
    FiledFix(es, a.key);
    RepairReads(lines);
  }

  lemma CleanTwin(a: Entry)
    requires a == Entry("k", "y", "x")
    ensures Fix(a) == None
  {
    hide Fix, Lex;
    assert UnescapeRaw("y") == "y" && UnescapeRaw("x") == "x" by {
      assert "y"[1..] == [] && "x"[1..] == [];
    }
    LexHead([]);
    LexCons('y', [], End([]));
    assert ['y'] + [] == "y";
    CleanEntryKept(a);
  }

  lemma DefectiveTwin(b: Entry)
    requires b == Entry("k", [BS, 'n'], [BS, BS, 'n'])
    ensures Fix(b) == Some([BS, 'n'])
  {
    hide Lex, MatchSource, EscapeRaw, Strip;
    assert UnescapeRaw([]) == [];
    assert [BS, 'n'][2..] == [] && [BS, BS, 'n'][2..] == ['n'] && ['n'][1..] == [];
    assert UnescapeRaw(['n']) == ['n'];
    assert UnescapeRaw(b.src) == [LF] && UnescapeRaw(b.tgt) == [BS, 'n'];
    LexHead([]);
    LexRunThen([LF], [], End([]));
    assert [LF] + [] == [LF] && [BS, 'n'] + [] == [BS, 'n'];
    LexSource();
    OneBreak([LF], [BS, 'n'], [], [BS, 'n'], []);
    assert [] + [LF] + [] == [LF];
    EscapeRawIsPerCharacter([LF]);
    assert [LF][1..] == [] && Encode([LF]) == [BS, 'n'];
    OneRun([], [BS, 'n'], []);
    StripHolds(b.tgt, BS);
  }

  /** Such a file: one entry without a break, and one of the same msgctxt whose break was escaped once too often. */
  lemma CleanEntryLost()
    ensures var a, b := Entry("k", "y", "x"), Entry("k", [BS, 'n'], [BS, BS, 'n']);
      var lines := Written([a, b]);
      && Read(lines) == [a, b] && Fix(a) == None
      && Read(Patched(lines, RawKey, Fixes(Read(lines)))) == [a.(tgt := [BS, 'n']), b.(tgt := [BS, 'n'])]
  {
    hide Fix, Patched, Written, Fixes, ReadFrom;
    var a, b := Entry("k", "y", "x"), Entry("k", [BS, 'n'], [BS, BS, 'n']);
    ReadWritten([a, b], None);
    CleanTwin(a);
    DefectiveTwin(b);
    TwinOverwritten(Written([a, b]), a, b);
  }
}
