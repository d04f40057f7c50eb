/** A termbase entry, and what the editor, the merger and the checker of glossaries share. A field the program
    leaves out of its dictionary, or tests for truth only, is "" here. */
module GlossaryTerms {
  import opened Text

  datatype Term = Term(
    translation: string, locked: bool, kind: string, evidence: string, variantOf: string, aliasOf: string,
    supersedes: string, supersedesRendering: string, category: string, note: string, check: string)

  type Terms = map<string, Term>

  /** An entry that holds nothing but a rendering, its standing and its provenance. */
  function Bare(translation: string, locked: bool, kind: string, evidence: string): Term {
    Term(translation, locked, kind, evidence, "", "", "", "", "", "", "")
  }

  /** `lstrip("; ")`. */
  function StripMarks(s: string): string {
    if s != [] && (s[0] == ';' || s[0] == ' ') then StripMarks(s[1..]) else s
  }

  function WithEvidence(evidence: string, remark: string): string {
    StripMarks(evidence + "; " + remark)
  }

  /** Term zh is a ruling that renders as `translation`. */
  ghost predicate Rules(terms: Terms, zh: string, translation: string) {
    zh in terms && terms[zh].locked && terms[zh].translation == translation
  }
}
