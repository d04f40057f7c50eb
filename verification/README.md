# A verified model of orbit8's text, gate, planning and glossary logic

orbit8 takes game text through localization: it ingests strings, freezes glossaries, translates, audits, and delivers
patched gettext PO files. This project models the parts of it in which an error is silent, and proves what they promise.

* **PO bytes** (`PoEscape`, `Separators`, `BreakMarker`, `RawStream`, `PoFile`, `Delivery`, `PoReader`). The escape
  layers and when each decoder inverts them; the repair of line separators that a drop escaped once too often; the break
  marker a rewrite inherits; the stream patchers that change decided msgstr blocks and nothing else; the parser and
  printer of the format (GNU gettext manual, "The Format of PO Files"); the decision loop that turns review rows into
  replacements, and the decoded reader that finds them in the delivered file.
* **The Job Controller** (`Controller`). The stage is derived from artifacts and gate approvals. Every run is in the
  model: steps, approvals, failing executors and artifacts deleted by hand, in any order.
* **Greedy selection and packing** (`TermSelection`, `TermTies`, `BriefGate`, `Grouping`, `StoryBatches`,
  `EntityBatches`, `ContextBudget`). Longest-match term selection, batches that keep conversations and entities whole, a
  token budget that cuts or drops.
* **The chat turn and the JSON scanner** (`TurnLoop`, `JsonScan`).
* **Glossary rulings** (`GlossaryTerms`, `GlossaryEdit`, `GlossaryCheck`, `GlossaryMerge`, `GlossaryRename`). What an
  operator edit, a unified variant group and a merge round do to rulings, when the checker agrees with the editor, and
  how long a retired spelling stays out.

Beside the module that holds an operation and its laws stands one that says what the operation makes of an input written
out in its parts, without the functions that compute it: `EscapeUnits`, `SeparatorUnits`, `SeparatorReport`,
`MarkerUnits`, `RawBlocks`, `PoBlocks`, `PoPrinted`, `ReaderBlocks` and `DeliveryRows` for text and files;
`ControllerChecks` for the steps of a job; `TermClaims`, `StoryOrder`, `EntityOrder` and `ContextBlocks` for selections,
plans and contexts; `TurnBreaker` and `JsonExtent` for a turn and a completion; `GlossaryReport`, `GlossaryEntries` and
`GlossaryIssues` for what is written and reported of a glossary.

Code of the program that changes things step by step is a class or a method with loops here, proved against a function
of the state; the laws are proved about those functions. `Text`, `Wrappers` and `StableSort` hold the Python operations
the modules share. Text is a sequence of Unicode characters, a file a sequence of lines or one text.

Where the code and what is said about it differ, the code is modelled:

* story packing is largest first, although its docstring says smallest first (`StoryBatches.Packed`);
* the choice among terms that tie can depend on the order of the term map, although the docstring says it never does
  (`TermSelection.TieFollowsOrder`; exactly when, `TermTies.OrderFreeExact`); the claimed spans do not;
* prompt and gate can disagree on which term governs a span, although the docstring says they cannot: the gate reads
  tier 1 only (`BriefGate.BriefCanOmit`; exactly when, `BriefGate.AgreeExact`);
* the kept history need not be the newest turns (`ContextBudget.HistoryNotSuffix`; exactly when it is,
  `ContextBudget.KeptHistoryExact`), and mixed text can exceed the allowance it is trimmed to
  (`ContextBudget.MixedOverflows`), which can put a context over
  budget (`ContextBudget.OverBudgetExact`);
* a separator repair can damage a target in which a lone backslash or CR stands right before a break
  (`Separators.RepairCanDamage`; exactly when one repair is enough, `Separators.RepairTwiceExact`);
* the separator repair files its fixes by msgctxt alone, so in a file that repeats a msgctxt a clean entry is rewritten
  with the fix of another, although the docstring says only entries that disagree with their own msgid are
  (`RawStream.CleanEntryLost`; exactly when each entry gets its own repair, `RawStream.RepairReads`);
* a rewrite for several keys takes the break marker of the first, although each entry is to keep its own (exactly when
  that is the same, `Delivery.FirstMarkerExact`);
* the patchers keep their key past a msgstr line, so an entry without msgctxt below a decided one is overwritten
  (`RawStream.OverreachExact`);
* the step that checks a glossary while blockers stand has no target locale and writes its report under the name "None"
  (`Controller.BlockerStep`); a job without locales never leaves CONTEXT (`Controller.NoLocalesStuck`);
* renaming a term to one of the edit's own forms removes that form (`GlossaryEdit.EditExact`), and a rename retires a
  ruling without `force`;
* an entry can be on record for one old spelling only. A rename into rulings that stand already records nothing; a
  second rename of the new name, in the same call or later, a forced rename into it, a unification into it without
  `keep` and a ruling on it each drop what was recorded; and a unification that retires several spellings records none
  of them. The next draft then brings the old spelling back (`GlossaryRename.LaterChangeForgets`; exactly when, over any
  run, `GlossaryRename.ComesBackExact`);
* the `unchanged` figure of a merge can be too small, even negative (`GlossaryMerge.UnchangedCanBeNegative`; exactly
  when it is right, `GlossaryMerge.UnchangedExact`);
* the decoded reader loses a double quote at the end of a delivered text, and reads on behind a comment that
  interrupts a replaced msgstr (exactly when the decision reads back, `PoReader.ReadBackExact`).

## Model

| member | source | states |
|---|---|---|
| PoEscape.EscapeRawIsPerCharacter | src/orbit8/po_patch.py:316-324 | the five replacements of the escaper never re-read each other's output: on every text they are one escape per character |
| PoEscape.DecodeAfterEncode | src/orbit8/po_patch.py:303-324 | the one-level decoder gives back every text that was escaped |
| PoEscape.EncodeAfterDecode | src/orbit8/po_patch.py:303-324 | bytes survive decode and re-encode exactly when they are canonical: each backslash opens one of the five escapes, no bare quote, CR, LF or TAB |
| EscapeUnits.DecodeExact | src/orbit8/po_patch.py:303-313 | on any bytes: the one-level decoder replaces each escape by what it stands for, once; a backslash at the end or in front of a newline stays |
| PoEscape.ChainedDecode | src/orbit8/po_patch.py:222-225 | what the five-step decoder makes of escaped text, in closed form: an n, r or t right behind a backslash of the text turns into the control character, everything else comes back |
| PoEscape.ChainedDecodeExact | src/orbit8/exports.py:63-66 | the five-step decoder gives the text back exactly when it has no backslash right before n, r or t |
| PoEscape.NewlineChainIsNewlines | src/orbit8/po_patch.py:217-219 | CRLF to LF, CR to LF, LF to the file's escape: the chain treats each newline of the text once, whatever its style |
| PoEscape.EscapeLineIsEncode | src/orbit8/po_patch.py:214-219 | the single-line escaper is the raw escaper on the text with its newlines in the file's style; nothing it writes breaks the line; how both decoders read it |
| Separators.UnlexLex | src/orbit8/po_patch.py:329-343 | cutting a text at its separator runs loses nothing |
| Separators.Retokenize | src/orbit8/po_patch.py:363-381 | the repaired text re-tokenizes to the wanted separator once per original run, with the same text between, exactly when no text piece merges with the separator put behind it |
| Separators.RepairNormalizes | src/orbit8/po_patch.py:346-381 | without a source separator to go by, or a break to replace, the target is returned unchanged; where no piece merges, the repair keeps the text pieces, leaves one source separator per run, and repairing again changes nothing |
| Separators.UnchangedExact | src/orbit8/po_patch.py:363-381 | for every target: the repair changes nothing exactly when the source has no usable separator or every run is that separator already, however the pieces merge |
| Separators.RepairTwiceExact | src/orbit8/po_patch.py:363-381 | repairing twice is repairing once exactly when every piece keeps apart from the separator behind it, or merges with a double backslash without harm |
| Separators.RepairCanDamage | src/orbit8/po_patch.py:363-381 | a concrete target on which the repair damages text and a second repair damages it further |
| Separators.AuditSeparators | src/orbit8/po_patch.py:404-432 | one pass yields the fixes by key, a later entry overwriting an earlier one, and the three report lists in order |
| Separators.FixExact | src/orbit8/po_patch.py:404-432 | every entry that is translated and kept its breaks gets no fix exactly when its bytes are canonical and its runs are those of its source |
| Separators.CleanEntryKept | src/orbit8/po_patch.py:404-432 | whatever the entry: one whose runs match and whose bytes are canonical gets no fix of its own |
| Separators.FixSettlesExact | src/orbit8/po_patch.py:384-432 | for every entry with a fix: the fixed entry gets no second one exactly when one repair is enough for its text |
| Separators.FixSettles | src/orbit8/po_patch.py:384-432 | where no piece merges, a fixed entry is canonical, has the runs of its source, stays on one line and gets no second fix |
| SeparatorUnits.EveryTextRead | src/orbit8/po_patch.py:326-343 | every text is a sequence of separator tokens and other characters, read so that no token is missed |
| SeparatorUnits.RepairExact | src/orbit8/po_patch.py:326-381 | the repair on every source and target, token by token: where the source has a break of a single token, every break of the target, of however many tokens, becomes the first such token; everything else stays |
| SeparatorReport.AuditExact | src/orbit8/po_patch.py:404-432 | the three lists and the fixes of a sweep, read off the entries: which ones changed, which lost their breaks, how many breaks drifted to how many, and under each key the repair of its last changed entry |
| RawStream.ClassifyPatched | src/orbit8/po_patch.py:458-484 | a substituted line is read as a msgstr line holding exactly the bytes put in |
| RawStream.ReadRawEntries | src/orbit8/po_patch.py:435-455 | the raw reader's loop over the lines of any file |
| RawStream.PatchLines | src/orbit8/po_patch.py:458-484 | the loop of the patchers, key and skipping state included, over any stream |
| RawStream.PatchPoLines | src/orbit8/po_patch.py:502-529 | the decoded patcher writes each replacement escaped in the file's newline style |
| RawStream.ReadPatched | src/orbit8/po_patch.py:435-484 | for every file and every set of replacements: reading the patched stream is reading the file with msgstr replaced at exactly the keys replaced |
| RawStream.PatchIsLocal | src/orbit8/po_patch.py:458-529 | the patched stream is the file line by line: governed msgstr lines rewritten, their continuations gone, every other line as it was and in order |
| RawStream.UntouchedFile | src/orbit8/po_patch.py:458-529 | a file without a governed msgstr line to replace is forwarded unchanged; so is every file when there are no replacements |
| RawStream.OverreachExact | src/orbit8/po_patch.py:435-484 | the patcher rewrites only lines the reader reports exactly when no rewritten msgstr is followed by another one before the next msgctxt |
| RawStream.RepairReads | src/orbit8/po_patch.py:404-499 | every repaired file reads entry for entry, each with its own repair exactly when the fix filed under its msgctxt, if there is one, is its own; all of them, exactly when entries of one msgctxt agree |
| RawStream.RepairFileExact | src/orbit8/po_patch.py:404-499 | on any file: the audit of the repaired file proposes nothing exactly when no entry gets a fix once it holds the one filed under its msgctxt; a second repair is byte-identical exactly when that audit proposes nothing; where entries of one msgctxt agree, exactly when one fix is enough for each |
| RawStream.RepairFileSettles | src/orbit8/po_patch.py:404-499 | in particular when entries of one msgctxt agree and no piece of any entry merges |
| RawStream.TwinOverwritten | src/orbit8/po_patch.py:404-499 | of two entries of one msgctxt of which only one gets a fix, the other is rewritten with that fix, whichever comes first |
| RawStream.CleanEntryLost | src/orbit8/po_patch.py:487-493 | a concrete file in which a clean entry is rewritten |
| RawBlocks.PatchBlocks | src/orbit8/po_patch.py:458-529 | on every file written in blocks the patchers put each replacement on one line with the line end of the msgstr line it replaces, drop that line's continuations, leave every other line as it is, and report the keys in file order |
| RawBlocks.ReadBlocks | src/orbit8/po_patch.py:435-455 | on every such file the raw reader reports one entry a block: the bytes between the quotes of its msgctxt, msgid and msgstr lines |
| BreakMarker.AlignMarksEveryBreak | src/orbit8/po_patch.py:242-275 | a rewrite of an entry that uses the marker has a backslash right before every newline, whatever was typed |
| BreakMarker.AlignIdempotent | src/orbit8/po_patch.py:242-275 | aligning again against the same entry changes nothing |
| BreakMarker.AlignLeavesExact | src/orbit8/po_patch.py:242-275 | against an entry that uses the marker, a text stays as it is exactly when it has no lost break and every newline directly follows a backslash |
| BreakMarker.AlignKeepsContent | src/orbit8/po_patch.py:242-275 | on CR-free replacements every escape pair and every other character survives, in order; only breaks are added or marked |
| MarkerUnits.EveryTextRead | src/orbit8/po_patch.py:242-275 | every text is a sequence of escape pairs, marked breaks, lost markers, newlines and other characters |
| MarkerUnits.AlignExact | src/orbit8/po_patch.py:242-275 | the alignment on every text, part by part: a text stays as it is when the entry has no marker, otherwise each part becomes what it is to become |
| PoFile.UnescapeEncoded | src/orbit8/po_sanity.py:75-96 | the parser's decoder inverts the escaper without an error, and escaped text is a well-formed quoted body |
| PoFile.ParsePo | src/orbit8/po_sanity.py:99-205 | the parser as an object that is fed line by line ends with the header, the entries and the number of errors of the functional parse |
| PoBlocks.ParseBlocks | src/orbit8/po_sanity.py:75-205 | every file written in blocks, lines ended by LF or CRLF and indented in any way: one entry for every block with a string, in order, each field its pieces unescaped and put one after the other, the line counts the numbers of pieces; the first entry with an empty msgid and no msgctxt is the header; the errors are the faults of the blocks |
| PoBlocks.ParseCutEntry | src/orbit8/po_sanity.py:134-205 | one entry whose msgctxt, msgid and msgstr are each cut into any pieces: exactly that entry, its fields the pieces put together, its line counts the numbers of pieces |
| PoBlocks.JunkCounts | src/orbit8/po_sanity.py:152-203 | a line that is no blank, comment, keyword or continuation line is exactly one error and has no other effect, wherever it stands in whatever file |
| PoFile.EscIsEncode | src/orbit8/po_sanity.py:515-519 | the printer's escaper, in its own order of replacements, is the same per-character escape |
| PoFile.ParseKeeps | src/orbit8/po_sanity.py:99-205 | what every parse guarantees of its comments and header, over every run of the machine |
| PoFile.RoundTrip | src/orbit8/po_sanity.py:510-536 | for every text: parsing, printing and parsing again gives the same entries in order and the header text with one trailing newline, newlines of msgstr as CRLF, one physical line each, and no error |
| PoFile.PrintSettles | src/orbit8/po_sanity.py:510-536 | writing twice is byte-identical to writing once |
| PoPrinted.PrintExact | src/orbit8/po_sanity.py:510-536 | the whole printed text, character by character: comments, the header text with a quoted line for each of its lines, each string of an entry on one line with newlines of the translation as CRLF, a blank line behind each |
| Delivery.DecideRows | src/orbit8/po_patch.py:701-751 | the decision loop: replacements, conflicts and the list each row lands in |
| Delivery.FirstMarkerExact | src/orbit8/po_patch.py:719-733 | each key of a row gets the text aligned with its own entry exactly when the text needs no alignment, or all its entries use the marker or none does |
| Delivery.DesiredExact | src/orbit8/po_patch.py:738-749 | a key gets a replacement exactly when the rows that decide it agree, and gets what they agree on |
| Delivery.ConflictExact | src/orbit8/po_patch.py:738-747 | a key is in conflict, and on record, exactly when two rows decide it differently |
| Delivery.DesiredOrderFree | src/orbit8/po_patch.py:701-749 | the order of the review rows changes no replacement |
| Delivery.RowsPartitioned | src/orbit8/po_patch.py:704-751 | every row is in exactly one of the four lists, but for decided rows all of whose keys are in conflict |
| DeliveryRows.FirstTyped | src/orbit8/po_patch.py:228-239 | the first line break typed in letters becomes a newline, together with the carriage return typed in front of it; what stands before stays, what follows is treated alike |
| DeliveryRows.TextExact | src/orbit8/po_patch.py:726-733 | the text a row writes: breaks normalized, blanks at the end cut, aligned with the current translation of its first key |
| DeliveryRows.ListsExact | src/orbit8/po_patch.py:704-751 | the four lists hold the rows in order: kept, undecided, without a key, and applied, that is with a key no other such row decides differently |
| DeliveryRows.ConflictsExact | src/orbit8/po_patch.py:738-747 | the conflicts on record, in order: each names the key, the row that decided it first, the row that disagrees, and both texts |
| Delivery.DeliverFile | src/orbit8/po_patch.py:753-763 | a file is patched with the replacements of its own keys |
| Delivery.DeliveredBlocks | src/orbit8/po_patch.py:701-763 | a delivered file differs from its source exactly in the msgstr blocks whose key the reviewers decided unanimously, each holding that decision |
| PoReader.ReadPoEntries | src/orbit8/exports.py:24-60 | the decoded reader over the lines of any file: key, source, target and location of every entry, numbering entries without a key |
| PoReader.ReadPatchedDecoded | src/orbit8/exports.py:24-60 | for every file and every set of replacements: the decoded reader finds the same entries in order, with the msgstr replaced at the replaced keys, followed by what stood behind an interruption of it |
| PoReader.BodyExact | src/orbit8/po_patch.py:214-219 | a delivered text decodes to itself, newlines in the file's style, exactly when it has no backslash before n, r or t and does not end in a double quote |
| PoReader.ReadBackExact | src/orbit8/exports.py:24-66 | a delivered file read back: key, source and location of every entry and the target of every undecided one are as before; a decided target reads as decided exactly under that condition and when no more of the old msgstr came behind an interruption |
| ReaderBlocks.ReadBlocks | src/orbit8/exports.py:24-60 | on every file written in blocks the decoded reader finds the blocks with a source text, in order, each string its pieces put together and decoded, the last reference line in front as its location, and a number as key where there is none |
| ReaderBlocks.PlainPiece | src/orbit8/exports.py:46-58 | a piece without double quotes at its ends is read as it is |
| Controller.Job.constructor | src/orbit8/controller.py:70-83 | a fresh job has its intake form and nothing else |
| Controller.Job.ApproveGate | src/orbit8/controller.py:94-111 | an approval is accepted exactly when its gate is the pending one, and then adds that gate only |
| Controller.Job.NextStep | src/orbit8/controller.py:192-211 | one step runs the handler of the derived stage on the job in place, or nothing at a gate |
| ControllerChecks.StepExact | src/orbit8/controller.py:192-211 | what a step writes, by the first unmet item of the checklist: the artifact it waits for and nothing else, a check's findings under its locale or under "None", nothing at a gate, at the end, without what the step works on, and when the executor raises |
| ControllerChecks.CheckExact | src/orbit8/controller.py:607-614 | a health check of a locale files exactly what it found and leaves every other report alone |
| ControllerChecks.ReportExact | src/orbit8/controller.py:590-614 | over every run: the report under a name is there, and has blockers or none, exactly as the last check filed under it found, if it has not been deleted since |
| ControllerChecks.ApprovedChecked | src/orbit8/controller.py:94-147 | so in no run a gate from G1 on is approved unless the last check of every locale is there and found no blocker |
| Controller.DeriveIsFirstUnmet | src/orbit8/controller.py:115-189 | the cascade of checks derives the stage of the first unmet item of one fixed checklist, INCREMENTAL when there is none |
| Controller.FreshJobGatesInOrder | src/orbit8/controller.py:94-188 | in every run of steps, approvals, failures and deletions the approved gates are a prefix of G0..G5 |
| Controller.GatesInOrder | src/orbit8/controller.py:94-188 | the prefix is kept from any such state on, and no approval is ever lost |
| Controller.ApprovalExact | src/orbit8/controller.py:94-111 | a gate can be approved exactly when everything before it on the checklist is met and it is not |
| Controller.BlockersHold | src/orbit8/controller.py:134-147 | while a health report has blockers no phase past ASSET is derived and no gate but G0 can be approved |
| Controller.ApprovedUnblocked | src/orbit8/controller.py:94-147 | over every run: a gate from G1 on that is approved was approved at a moment when it was pending and no report had blockers |
| Controller.NoLocalesStuck | src/orbit8/controller.py:120-133 | a job without locales never leaves CONTEXT, in any run |
| Controller.BlockerStep | src/orbit8/controller.py:590-614 | the step run while blockers stand leaves the derived stage alone, unless a locale is named "None", holds the only blockers and is reported clean |
| Controller.NextMakes | src/orbit8/controller.py:457-614 | in a healthy job every executing step writes exactly one artifact that was required and missing |
| Controller.PositionRises | src/orbit8/controller.py:115-211 | without deletions and blockers nothing lowers the derived position; an executing step or an accepted approval raises it |
| Controller.ExactRun | src/orbit8/controller.py:115-211 | every such run from a fresh job of n distinct locales to INCREMENTAL has exactly 5 + 7n executing steps and 6 approvals, however they interleave |
| Controller.FinishableExact | src/orbit8/controller.py:115-211 | a fresh job can be brought to INCREMENTAL exactly when it has a locale |
| TermSelection.TermSpansExact | src/orbit8/gate_checks.py:135-177 | the spans of a term are guarded occurrences, do not overlap, and every guarded occurrence is one or starts inside one; a term has spans exactly when it is in the text |
| TermSelection.MatchExact | src/orbit8/gate_checks.py:135-177 | a term occurs where it stands in the text and no Latin letter or digit at one of its edges has another of these beside it |
| TermSelection.ApplicableTerms | src/orbit8/gate_checks.py:214-251 | the claiming loop over the sorted candidates |
| TermSelection.ClaimedDisjoint | src/orbit8/gate_checks.py:243-251 | claimed spans are pairwise disjoint |
| TermSelection.LongestMatchWins | src/orbit8/gate_checks.py:229-251 | every occurrence of a term is claimed or overlaps a claimed span at least as long |
| TermSelection.ClaimedOrderFree | src/orbit8/gate_checks.py:233-250 | the claimed spans are the same for every order of the term map |
| TermSelection.ApplicableOrderFree | src/orbit8/gate_checks.py:233-251 | without ties on the sort key the applicable terms are too |
| TermSelection.TieFollowsOrder | src/orbit8/gate_checks.py:233-251 | with a tie the term that comes first takes the shared span |
| TermClaims.OrderedExact | src/orbit8/gate_checks.py:233-243 | occurrences are tried longest first, then those of the longer term, then leftmost, and as they came |
| TermClaims.ApplicableExact | src/orbit8/gate_checks.py:243-251 | in that order an occurrence is granted exactly when it meets none granted before it; the claimed spans are those of the granted ones, and each term with one has the rendering of its last |
| TermTies.OrderFreeExact | src/orbit8/gate_checks.py:233-251 | for distinct terms: the applicable terms are the same in every order of the map exactly when every term that meets others at a claimed span claims some span of its own |
| BriefGate.BriefFor | src/orbit8/glossary.py:94-120 | the brief is the glossary sorted, longer terms first and stable, reduced to the entries applicable to one of the texts |
| BriefGate.AgreeExact | src/orbit8/glossary.py:94-120 | prompt and gate agree on which tier-1 occurrence governs which span exactly when no occurrence of another tier claims a span that overlaps one the gate enforces |
| BriefGate.BriefMatchesGate | src/orbit8/glossary.py:63-120 | then the tier-1 entries in the brief are exactly those whose term the gate enforces on one of the texts |
| BriefGate.ApartTiersAgree | src/orbit8/glossary.py:63-120 | so it is when no occurrence of another tier overlaps one of tier 1, in particular when every entry is tier 1 |
| BriefGate.BriefCanOmit | src/orbit8/glossary.py:94-120 | whenever a longer term of another tier covers the only occurrence of a tier-1 term, the gate enforces a term that the brief omits |
| Grouping.PackFlattens | src/orbit8/grouping.py:192-203 | packing whole groups loses and reorders nothing |
| Grouping.PackKeepsWhole | src/orbit8/grouping.py:312-327 | a group that fits a batch stands in one batch as one stretch |
| Grouping.PackTight | src/orbit8/grouping.py:192-203 | any two adjacent packed batches together exceed the batch size |
| Grouping.TightBound | src/orbit8/grouping.py:192-203 | so two batches hold more than one batch size, which bounds their number |
| Grouping.PackGreedy | src/orbit8/grouping.py:192-203 | groups that fit are packed greedily: each batch is a run of whole groups, and had no room for the group that opens the next batch |
| Grouping.PackLong | src/orbit8/grouping.py:312-327 | a group longer than a batch is cut on its own; what stands in front of it and behind it is packed as if it were not there |
| StoryBatches.PlanStoryBatches | src/orbit8/grouping.py:147-207 | the planner with its buckets and loops returns the plan as a function of the segments |
| StoryOrder.PlanInOrder | src/orbit8/grouping.py:147-207 | of two planned segments the one in front may stand there, by their own fields: conversations one after the other, those longer than a batch first and by name, then longest first; within one by position, 0 without one, then by uid; segments without a conversation last |
| StoryOrder.LonersInOrder | src/orbit8/grouping.py:166-207 | segments without a conversation keep the order they came in |
| StoryBatches.PlanPermutes | src/orbit8/grouping.py:147-207 | every segment is planned exactly as often as it came in |
| StoryBatches.PlanSizes | src/orbit8/grouping.py:147-207 | no batch is empty and none exceeds the batch size |
| StoryBatches.ConversationKeptWhole | src/orbit8/grouping.py:181-203 | a conversation that fits stands whole in one batch, in sequence order |
| StoryBatches.LongConversationSplit | src/orbit8/grouping.py:181-191 | a longer one is cut into consecutive full stretches that are consecutive batches and read together as the conversation |
| StoryBatches.PackedIsTight | src/orbit8/grouping.py:192-203 | adjacent packed conversations exceed the batch size together, which bounds the packed batches |
| StoryBatches.GroupedOrderFree | src/orbit8/grouping.py:166-203 | the conversation part of the plan does not depend on arrival order when (seq, uid) is unique within a conversation |
| EntityBatches.EntityOfReference | src/orbit8/asset_paths.py:52-90 | a reference is keyed by asset and row, parsed from the right, whatever dots the asset path has |
| EntityOrder.EntityExact | src/orbit8/asset_paths.py:52-90 | a location has an entity exactly when, blanks aside, it is an asset, a row and a field with dots between, and then it is asset and row |
| EntityBatches.CollapsePairs | src/orbit8/grouping.py:210-228 | rows merged in place in a dictionary, first row kept, uids absorbed in order |
| EntityOrder.CollapseExact | src/orbit8/grouping.py:210-228 | row by row: the row with the same text and target takes the uid of the next, behind those it has; without one the next row is put at the end |
| EntityBatches.PlanSimilarityBatches | src/orbit8/grouping.py:283-327 | collapse, then partition by domain, then pack entities |
| EntityBatches.EntityGroupFacts | src/orbit8/asset_paths.py:140-165 | a group is the rows of its entity, sorted by role, then uid |
| EntityBatches.PlanPermutes | src/orbit8/grouping.py:283-327 | every row planned is in the batches exactly as often as it was handed in |
| EntityBatches.IdsConserved | src/orbit8/grouping.py:210-327 | collapsed or not, the uids the planned rows stand for are a permutation of the input uids |
| EntityBatches.NoDuplicateSlots | src/orbit8/grouping.py:262-269 | with collapse no two rows of the whole plan share text and target |
| EntityBatches.OnlyEqualRowsMerge | src/orbit8/grouping.py:210-228 | every uid a planned row stands for came in with that text and that target: rows with different targets never merge |
| EntityBatches.OneDomainPerBatch | src/orbit8/grouping.py:297-309 | under `by_domain` each batch holds rows of one domain |
| EntityBatches.PlanSizes | src/orbit8/grouping.py:310-327 | no batch is empty and none exceeds the batch size |
| EntityBatches.EntityKeptWhole | src/orbit8/grouping.py:310-327 | an entity no larger than a batch is never split |
| EntityBatches.EntityKeptWholeInDomain | src/orbit8/grouping.py:297-327 | nor are its rows within a domain |
| EntityOrder.PlanInOrder | src/orbit8/grouping.py:283-327 | of two planned rows the one in front may stand there, by their own fields: domains by name when kept apart, entities by name, rows of one by role and uid, rows without an entity last |
| EntityOrder.LooseRowsInOrder | src/orbit8/asset_paths.py:140-165 | rows without an entity keep the order they came in |
| ContextBudget.TokensConcat | src/orbit8/context.py:82-93 | the estimate is monotone and subadditive |
| ContextBlocks.TokensExact | src/orbit8/context.py:82-93 | the empty text costs nothing, any other one more than the whole part of two thirds of its CJK characters and a quarter of the others |
| ContextBlocks.MarkerExact | src/orbit8/context.py:268-278 | the marker behind a cut text names the number of tokens cut, and is charged as if that number had six digits |
| ContextBlocks.HeadExact | src/orbit8/context.py:253-280 | the head kept of a cut text: at least a character, and no more than nine tenths of what the allowance, less the marker, buys at the density of the text |
| ContextBudget.TrimFits | src/orbit8/context.py:253-280 | a block trimmed to at least the minimum costs at most its allowance, marker included, when the kept head is no denser in CJK than the whole |
| ContextBudget.UniformNoDenser | src/orbit8/context.py:253-280 | whatever is kept of a text of uniform density is no denser than the whole |
| ContextBudget.MixedHeadBound | src/orbit8/context.py:253-280 | whatever the text, the head costs less than 2.4 times its share plus one |
| ContextBudget.MixedOverflows | src/orbit8/context.py:253-280 | a concrete mixed text whose head is denser than the whole and which exceeds its allowance once trimmed |
| ContextBudget.Assemble | src/orbit8/context.py:193-251 | the loop over the blocks in tier order: kept blocks, elisions, tokens spent and the over-budget flag |
| ContextBlocks.AssembleOrder | src/orbit8/context.py:193-211 | blocks are considered by tier, lowest first, within one by order, highest first, and ties as they came |
| ContextBlocks.BlockExact | src/orbit8/context.py:212-251 | what becomes of a block by what is left: whole, cut with its elision, kept past the budget, or dropped with its elision |
| ContextBudget.EveryBlockAccounted | src/orbit8/context.py:212-251 | every block is kept whole, kept cut with one elision, or dropped with one elision; a system, task or evidence block is never dropped |
| ContextBudget.NothingTwice | src/orbit8/context.py:212-251 | kept blocks, elisions and tokens add up |
| ContextBudget.NoneAfterOverspend | src/orbit8/context.py:212-251 | once spending passes the budget no later unprotected block is admitted |
| ContextBudget.OverBudgetExact | src/orbit8/context.py:212-251 | the context is over budget exactly when a protected block was kept past the limit or a block was cut to more than what was left for it |
| ContextBudget.EvenCutsFit | src/orbit8/context.py:212-280 | with the built-in estimate no cut exceeds what was left whenever none keeps a head denser than its text |
| ContextBudget.UniformCutsFit | src/orbit8/context.py:212-280 | in particular whenever trimmable text is of uniform density |
| ContextBudget.KeptHistoryExact | src/orbit8/context.py:212-251 | of past turns, newest first, the newest ones are kept, and no others, exactly when no turn behind the first one skipped could still be afforded |
| ContextBudget.HistoryInContext | src/orbit8/context.py:309-322 | the same for the history behind the other tiers of a context |
| ContextBudget.HistoryNotSuffix | src/orbit8/context.py:309-322 | a concrete history in which a turn is skipped and an older one kept |
| JsonScan.ExtractJson | src/orbit8/llm.py:495-515 | the index loop, on every completion; None where the source raises |
| JsonExtent.ExtractsExtent | src/orbit8/llm.py:495-515 | for every completion: something is extracted exactly when the first opening bracket has a closing one that balances it, brackets of that kind counted outside strings; then it is the text from the one to the first such other |
| JsonScan.PassesValue | src/orbit8/llm.py:498-514 | a JSON value of RFC 8259 (sections 4, 5 and 7) leaves the scan where it was, at any depth, though one kind of bracket is counted |
| JsonScan.ExtractExact | src/orbit8/llm.py:495-515 | behind any prefix free of opening brackets and before any suffix, an object or array text is returned whole and nothing else |
| JsonScan.ObjectSpelled | src/orbit8/llm.py:495-515 | any members separated by commas, with whitespace around the commas and inside the braces, spell a value of the grammar the scan is measured against |
| JsonScan.ArraySpelled | src/orbit8/llm.py:495-515 | so do any values between brackets |
| JsonScan.ObjectExtracted | src/orbit8/llm.py:495-515 | hence every such object, compact or pretty-printed, is returned whole |
| JsonScan.ArrayExtracted | src/orbit8/llm.py:495-515 | and every such array |
| TurnLoop.MaxSteps | src/orbit8/orchestrator.py:77-92 | the step cap is always positive |
| TurnLoop.ChatOrchestrator.constructor | src/orbit8/orchestrator.py:343-364 | a session starts with an empty history |
| TurnLoop.ChatOrchestrator.RetireEvidence | src/orbit8/orchestrator.py:1676-1686 | the evidence is appended to the history in order, as tool entries |
| TurnLoop.ChatOrchestrator.Turn | src/orbit8/orchestrator.py:1688-1794 | the turn as a loop over what the model decides, within the configured cap: on each of the three ways out the history grows by exactly the turn's evidence, the message and the reply; a provider that raises leaves the history alone and raises the turn count; over a session every reply answers the message right before it |
| TurnLoop.CallBound | src/orbit8/orchestrator.py:1697-1789 | a turn whose calls have k distinct signatures makes at most 2k + 1 calls |
| TurnLoop.BoundAttained | src/orbit8/orchestrator.py:1697-1789 | for every k a turn with k signatures that makes 2k + 1 calls |
| TurnLoop.FailureBound | src/orbit8/orchestrator.py:1767-1788 | when every call fails, at most k + 1 |
| TurnLoop.StoppedExactly | src/orbit8/orchestrator.py:1767-1788 | the breaker trips at the second or third identical result, on a success always at the third |
| TurnBreaker.ReplyExact | src/orbit8/orchestrator.py:1697-1794 | the reply of a turn by its steps: a call stops it exactly when it is the second failure or the third result with the same tool, arguments and outcome; before that the first step that is no call decides; when every step is a call and none trips, the cap does |
| TurnBreaker.StoppedAtExact | src/orbit8/orchestrator.py:1762-1788 | a turn is stopped at a call exactly when it gets that far and that call is such a one |
| TurnBreaker.ChangingResultsGoOn | src/orbit8/orchestrator.py:1762-1788 | calls alike in tool and arguments whose results differ pairwise never stop a turn |
| TurnBreaker.ShownExact | src/orbit8/orchestrator.py:1739-1745 | of a long result the first 12000 characters are shown, with the number of those that are not |
| TurnBreaker.EntriesExact | src/orbit8/orchestrator.py:1676-1794 | the history of a turn: one entry a call, with tool, arguments and result shown, then the message and the reply |
| GlossaryEdit.Glossary.ApplyEdits | src/orbit8/glossary_edit.py:161-209 | the edit loops on the terms in place, with the report; an edit that names no form raises |
| GlossaryEdit.Glossary.UnifyTerms | src/orbit8/glossary_edit.py:97-158 | the unify loop on the terms in place; without a rendering to go by it raises and changes nothing |
| GlossaryEdit.RulingsSurvive | src/orbit8/glossary_edit.py:161-209 | without `force` a ruling keeps its translation through any edits, or is listed as retired with the translation it had |
| GlossaryEdit.OnlyRenamesRetire | src/orbit8/glossary_edit.py:205-209 | every retired name is the old name of one of the edits |
| GlossaryEdit.EveryFormReported | src/orbit8/glossary_edit.py:168-203 | every form of every edit is in exactly one of the five report lists, once |
| GlossaryReport.FormsExact | src/orbit8/glossary_edit.py:168-169 | an edit names the parts between its slashes, in order, blanks around them aside; empty parts are none |
| GlossaryReport.ReportExact | src/orbit8/glossary_edit.py:168-203 | the five lists are the forms of all edits in order, each in the one its entry and `force` call for: unchanged on a ruling that says the same, a conflict with the ruling's translation and evidence on one that says otherwise and is not forced, overwritten with the old translation on any other entry, added or aliased on none |
| GlossaryReport.RetiredExact | src/orbit8/glossary_edit.py:205-209 | the retired list is the old names that were there, in edit order, each with the translation it left with and the canonical form in its place |
| GlossaryReport.RulingExact | src/orbit8/glossary_edit.py:186-203 | every field of an entry an edit writes |
| GlossaryEdit.EditExact | src/orbit8/glossary_edit.py:168-209 | what one edit does to every term: each form it writes is a ruling on record for the old name of the rename, in place of any other, or for what it was on record for when the edit renames nothing; the renamed term is gone even when it is one of the forms; no other entry changes in the loop |
| GlossaryEdit.UnifyExact | src/orbit8/glossary_edit.py:97-158 | keeping its variants, unify locks the canonical entry and points each listed variant at it with the same rendering; no other entry changes |
| GlossaryEntries.UnifyReportExact | src/orbit8/glossary_edit.py:128-158 | the report of a unification: which listed variants it unified, retired or did not find, each in order |
| GlossaryEntries.VariantEntries | src/orbit8/glossary_edit.py:136-143 | the entry of a kept variant, field by field |
| GlossaryEntries.HeadExact | src/orbit8/glossary_edit.py:117-126 | the canonical entry, field by field |
| GlossaryEntries.CanonicalExact | src/orbit8/glossary_edit.py:121-126 | the canonical term renders as asked, or as it did when no rendering is given |
| GlossaryEntries.EvidenceExact | src/orbit8/glossary_edit.py:124-125 | a remark goes behind the evidence and a semicolon; semicolons and blanks in front of the whole go |
| GlossaryCheck.CheckVariantGroups | src/orbit8/glossary_check.py:109-161 | the audit loop over the renderings, in sorted order |
| GlossaryCheck.DeclaredExact | src/orbit8/glossary_check.py:116-146 | a group is reported as declared, with its canonical spelling, exactly when that is its only unmarked member and every other one points inside the group |
| GlossaryCheck.BlockedExact | src/orbit8/glossary_check.py:118-161 | the section reports an error exactly when, in some group of two or more spellings, one points outside the group or two unmarked ones are locked |
| GlossaryCheck.AuditOrderFree | src/orbit8/glossary_check.py:109-161 | the report does not depend on the order of the dictionary |
| GlossaryIssues.AuditExact | src/orbit8/glossary_check.py:109-161 | the whole report: the renderings two or more terms share, in order, and on each the variants of nothing, the variants of a term that renders differently, and the verdict with its severity, members and number of unmarked ones |
| GlossaryCheck.UnifyThenCheck | src/orbit8/glossary_edit.py:97-158 | after unify the checker declares the group exactly when, before the call, every unlisted spelling of the rendering already pointed inside the group to be |
| GlossaryCheck.AllListedIsDeclarable | src/orbit8/glossary_edit.py:97-119 | in particular when every term of the rendering is the canonical one or a listed variant |
| GlossaryMerge.ReviewRound | src/orbit8/glossary_merge.py:111-143 | the loop over the review rows |
| GlossaryMerge.MergeDraft | src/orbit8/glossary_merge.py:150-198 | the loop over the draft rows |
| GlossaryMerge.MergeRound | src/orbit8/glossary_merge.py:100-203 | both loops in sequence, with the spellings superseded after the first |
| GlossaryMerge.DraftsYield | src/orbit8/glossary_merge.py:148-198 | no draft row changes a locked translation, locks, unlocks or drops a term, or touches a superseded spelling |
| GlossaryMerge.RoundRulingHolds | src/orbit8/glossary_merge.py:100-198 | the last ruling of the round on a term, modification or acceptance, holds in the merged glossary, whatever the draft says |
| GlossaryMerge.UnruledStays | src/orbit8/glossary_merge.py:111-143 | a term on which no row may rule keeps translation and standing; keeping as-is locks nothing |
| GlossaryMerge.LastRulingWins | src/orbit8/glossary_merge.py:111-143 | the last row that rules on a term has the last word: the term is locked with the modification, or with the base of the accepted rendering |
| GlossaryMerge.ReviewReported | src/orbit8/glossary_merge.py:117-128 | the report lists exactly the modifications made and exactly the terms whose modification was left empty |
| GlossaryEntries.DecideExact | src/orbit8/glossary_merge.py:111-143 | the terms after one review row: a modification and an accepted rendering each replace the entry, keeping as-is leaves a remark, anything else nothing |
| GlossaryMerge.DraftsPartitioned | src/orbit8/glossary_merge.py:148-198 | the four delta lists are the draft rows in order, each in the one list its state calls for |
| GlossaryEntries.DraftExact | src/orbit8/glossary_merge.py:150-198 | the entry of a draft spelling after its row, by presence, ruling, agreement and confirmation, and its line in the drift list |
| GlossaryMerge.LastConfirmedWins | src/orbit8/glossary_merge.py:148-198 | on a term without a ruling the last confirmed draft row decides, up to the comparison the program makes |
| GlossaryMerge.MinedStays | src/orbit8/glossary_merge.py:148-198 | without a confirmed row a term that is there keeps its translation |
| GlossaryMerge.DraftCovered | src/orbit8/glossary_merge.py:148-198 | every draft spelling that is not superseded is in the merged glossary |
| GlossaryRename.RulingsForget | src/orbit8/glossary_merge.py:111-143 | over a whole round: exactly the terms some row rules on, judged by the terms the round starts from, lose what they supersede; all others keep presence, rendering and record |
| GlossaryRename.ReturnsExact | src/orbit8/glossary_merge.py:100-198 | for every round: a spelling is in the glossary it makes exactly when it was there, is ruled on, or is in the draft and every entry that supersedes it is ruled on |
| GlossaryRename.EditRecords | src/orbit8/glossary_edit.py:168-209 | after one edit an entry supersedes a spelling exactly when the edit wrote it as a rename of that spelling, or it did so before and the edit neither renamed it away nor wrote another old name over it |
| GlossaryRename.RunRecords | src/orbit8/glossary_edit.py:97-209 | over any run of edits, unifications and rounds: an entry supersedes a spelling exactly when it did at the start or some step recorded it, and no step since took it off the record |
| GlossaryRename.ComesBackExact | src/orbit8/glossary_merge.py:100-198 | a round at the end of any such run: a spelling of the draft that is neither in the list nor ruled on comes back exactly when the round rules on every entry still on record for it |
| GlossaryRename.RenameSticksExact | src/orbit8/glossary_edit.py:161-209 | the same for any list of edits of one call: the old name stays out of the round exactly when some entry it leaves unruled was written by the rename, or had it on record before, and no later edit of the list took it off |
| GlossaryRename.LaterChangeForgets | src/orbit8/glossary_edit.py:168-209 | a concrete rename that holds for the next round, and is forgotten after a second rename of the new name, a forced rename into it, a unification into it without `keep`, or a ruling on it |
| GlossaryRename.UnifyRecords | src/orbit8/glossary_edit.py:97-151 | a unification, entry by entry: the names it retires, each once and only without `keep`, are all the canonical term supersedes afterwards, joined to one string in place of any earlier record; every other record stays |
| GlossaryRename.UnifyRetiresExact | src/orbit8/glossary_edit.py:143-151 | a spelling retired by unification and not ruled on comes back with the next round exactly when the round rules on every entry that stays and superseded it before, and on the canonical term or more than one spelling was retired |
| GlossaryMerge.NamedExact | src/orbit8/glossary_merge.py:105-198 | over a whole round every term the delta names as changed is there, and every term it does not name keeps translation and standing |
| GlossaryMerge.UnchangedExact | src/orbit8/glossary_merge.py:200-202 | the unchanged figure never exceeds the number of terms not named, and equals it exactly when no term is named twice across the four lists |
| GlossaryMerge.UnchangedCanBeNegative | src/orbit8/glossary_merge.py:200-202 | two rulings of a round on its only term make the figure -1 |

## Left out

- ParsePo: line numbers, warnings and the text of messages, the byte-order mark and UTF-8 decoding; an index in brackets takes ASCII digits only.
- ReadRawEntries: splitting bytes into lines; a file is its sequence of lines.
- ReadPoEntries: a file is its sequence of lines; `splitlines` also splits at VT, FF, NEL and the Unicode line separators, which the escaper leaves in the text.
- DecideRows: which keys a location matches is part of the row, and report entries hold whole rows, not clipped text; the header relabel, the sanity verdicts and the consistency sweep of `deliver_from_review`.
- DesiredExact: the translation-memory write-back of delivered pairs.
- Job.NextStep: the wording of stages, partial writes of a handler that raises, `_freeze_glossaries` and `_absorb_flagged`, which change no artifact `derive` reads.
- TermSpansExact: lower-casing, which happens before, and `_inflected_spans`; `ApplicableTerms` and `BriefFor` take spans from any source.
- BriefFor: the tiers of a glossary are given; `from_layers`, `prefill` and rendering; single lookups.
- PlanSimilarityBatches: the template-family path, whose clustering is not part of this model; `field_role` is a parameter.
- PlanStoryBatches: `parse_key` and `derive_groups`, which name the conversation of a key.
- TrimFits: a dropped-token count of more than 44 digits; densities are exact fractions where the program uses floating point.
- Assemble: the reservations that make up the budget, the rendering of kept blocks, and the notice, whose length nothing in the source bounds.
- ExtractJson: the fence-stripping regex in front of the scan.
- PassesValue: scalars are any text free of quotes, backslashes and brackets, and the text between a name and its value any mix of blanks and colons; both include all the grammar allows.
- Turn: what the model decides and the tools return is an arbitrary stream; traces, callbacks and the wording of the two stop messages; the evidence a raising turn had gathered is lost with it.
- ApplyEdits: the family-rule recheck, which clears and rewrites the `check` remark of entries and nothing else, the metadata counts and the final ordering of the dictionary; a field that is absent and one that is empty are the same.
- RunRecords: a run takes the edits of a call one by one; a call that raises is the edits before the one that raised.
- BriefMatchesGate: which entries are listed is stated one way; the exact condition is that of `AgreeExact`, by occurrence.
- CheckVariantGroups: the other sections of `check_glossary`, and the wording of issues; `_norm` is a parameter.
- MergeRound: metadata, and which of several entries is named as the one that supersedes a spelling; an entry without a `locked` field, on which the source raises; `_en_base`, `lower` and `repr` are parameters.
- Reading workbooks, model calls, retries and deadlines, the store, the server and the command line: input, output and foreign behaviour.
- The translation memory and the run database: maps with one precedence rule, which would add easy members only.
