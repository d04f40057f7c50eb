/** What the one-level decoder makes of any bytes, character by character (po_patch.py `po_unescape_raw`). */
module EscapeUnits {
  import opened Text
  import opened PoEscape

  /** A backslash with the character behind it, or a character on its own. */
  datatype Unit = Escape(c: char) | Char(c: char)

  function UnitText(u: Unit): string {
    if u.Escape? then ['\\', u.c] else [u.c]
  }

  function Spell(us: seq<Unit>): string {
    if us == [] then [] else UnitText(us[0]) + Spell(us[1..])
  }

  /** A backslash stands on its own at the end and in front of a newline only. */
  predicate ReadAs(u: Unit, rest: string) {
    if u.Escape? then u.c != '\n' else u.c == '\\' ==> rest == [] || rest[0] == '\n'
  }

  predicate Proper(us: seq<Unit>) {
    us == [] || (ReadAs(us[0], Spell(us[1..])) && Proper(us[1..]))
  }

  /** An escape stands for a control character or for the character behind the backslash. */
  function Meaning(u: Unit): char {
    match u
    case Char(c) => c
    case Escape(c) => if c == 'n' then '\n' else if c == 'r' then '\r' else if c == 't' then '\t' else c
  }

  function Meanings(us: seq<Unit>): string {
    if us == [] then [] else [Meaning(us[0])] + Meanings(us[1..])
  }

  lemma SpellCons(u: Unit, us: seq<Unit>)
    ensures Spell([u] + us) == UnitText(u) + Spell(us)
    ensures Proper([u] + us) <==> ReadAs(u, Spell(us)) && Proper(us)
  {
    assert ([u] + us)[1..] == us;
  }

  /** All bytes can be read so. */
  lemma {:induction false} EveryTextRead(raw: string) returns (us: seq<Unit>)
    ensures Proper(us) && Spell(us) == raw
    decreases |raw|
  {
    us := [];
    if raw != [] {
      var u := if raw[0] == '\\' && |raw| >= 2 && raw[1] != '\n' then Escape(raw[1]) else Char(raw[0]);
      var rest := raw[|UnitText(u)|..];
      us := EveryTextRead(rest);
      SpellCons(u, us);
      us := [u] + us;
      assert raw == UnitText(u) + rest;
    }
  }

  lemma UnitRead(u: Unit, rest: string)
    requires ReadAs(u, rest)
    ensures UnescapeRaw(UnitText(u) + rest) == [Meaning(u)] + UnescapeRaw(rest)
  {
    var raw := UnitText(u) + rest;
    assert raw[|UnitText(u)|..] == rest;
  }

  /** The decoder replaces each escape by what it stands for, once. */
  lemma {:induction false} DecodeExact(us: seq<Unit>)
    requires Proper(us)
    ensures UnescapeRaw(Spell(us)) == Meanings(us)
  {
    hide UnescapeRaw, Meaning, UnitText, ReadAs;
    if us == [] {
      NothingRead();
    } else {
      DecodeExact(us[1..]);
      UnitRead(us[0], Spell(us[1..]));
    }
  }

  lemma NothingRead()
    ensures UnescapeRaw([]) == []
  {
  }
}
