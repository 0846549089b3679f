# OCR-to-Label-Studio: the text corrector and the line grouping

The service reads a scanned German medical document with an OCR model. It
cleans up each recognised line and gathers the lines into the text of one
Label Studio task. This project models the parts of that pipeline that carry
logic, and proves properties of them:

- `german_word_correction` (post_processing.py). It repairs OCR misreadings in
  three fixed stages:
  - it grows the lexicon `corrections` in place with the case variants of its keys;
  - it replaces every lexicon key that stands as a whole word (`\bKEY\b`), in insertion order;
  - it applies eight stray-accent substitutions, then four unit patterns, in list order.
- `allowed_file` (app.py), the check on an upload's file extension.
- `post_process_text` (app.py), which strips a line and then corrects it.
- The grouping loop of `process_image` (app.py). It cleans every OCR line and
  skips lines that come out empty. A line more than 0.01 (vertically) away
  from the anchor `current_y` closes the pending output line and becomes the
  new anchor. Words are joined by spaces and output lines by newlines.

Modules, one per file:

- `Text` (text.dfy): the parts of Python's string model the code relies on.
  It covers the character classes behind `\w`, `\d`, `\s` and `[a-zA-Z]`, and
  `upper`, `lower`, `title`, `strip` and `join`. Classes are exact on Latin-1.
- `Rewrite` (rewrite.dfy): one left-to-right scanner for each shape of
  `re.sub` pattern the corrector uses. It also defines the rule table type
  and the rule-after-rule application.
- `PostProcessing` (post_processing.dfy): the lexicon as an ordered table with
  unique keys, where assignment overwrites in place or appends.
  - The imperative `GermanWordCorrection` has the three loops of the source.
  - `Correct` is the function it is proved against.
- `CorrectorProperties` (corrector_properties.dfy): what the corrector does to
  whole classes of texts and to the sample inputs its rules were written for.
- `LineGrouping` (line_grouping.dfy): the grouping as a fold over
  `(text, y)` entries, and what a well-formed grouping is.
- `UnitRules` (unit_rules.dfy): the four unit rules at the end of a text,
  whatever precedes that end.
- `App` (app.py's logic): `AllowedFile`, `PostProcessText`, and the imperative
  `ReconstructText`, whose loop is proved against the fold.

Facts about the code that the model records:

- **Key collisions.** The case variants are assigned with
  `corrections[...] = ...` (post_processing.py:16, 19), so a derived key that
  already exists would overwrite its entry; `Put` does the same. No collision
  happens with the shipped table (`PostProcessing.ExpansionOfBaseLexicon`).
- **Idempotence.** The corrector is not idempotent: `Abklarung7dl` becomes
  `Abklarung/dl`, which has a word boundary after `Abklarung`, so a second
  pass gives `Abklärung/dl` (`CorrectorProperties.NotIdempotent`).
- **Unit rules at the end of a text.** The last characters of a text are kept
  by every pass whose pattern cannot end inside them where it would match, so
  `/u1`, `g7dl`, `g7a1` and a count followed by `Apl` are rewritten at the end
  of any text, and left alone when a letter follows (`UnitRules`).

## Model

| member | source | states |
|---|---|---|
| Text.Upper | post_processing.py:18-19 | `upper()` maps every character by the Latin-1 upper-case map and keeps the length |
| Text.Lower | app.py:50 | `lower()` maps every character by the Latin-1 lower-case map and keeps the length |
| Text.TitleChars | post_processing.py:15-16 | `title()` upper-cases a character after an uncased one and lower-cases it after a cased one |
| Text.Strip | app.py:62 | `strip()` is the slice of the text between leading and trailing whitespace; it is empty exactly when the text is all whitespace, and otherwise starts and ends with a non-space |
| Text.JoinNonEmpty | app.py:114 | a join whose first part is non-empty is non-empty |
| Rewrite.NextWholeWord | post_processing.py:23 | the scan finds the leftmost index at or after `i` where `\bKEY\b` matches, or none |
| Rewrite.ReplaceWholeWordFrom | post_processing.py:23 | the whole-word substitution from index `i` on; with a replacement as long as the key it keeps the length of the rest of the text |
| Rewrite.WholeWordKeeps | post_processing.py:23 | with no whole-word match from `i` on, the rest of the text is copied unchanged |
| Rewrite.WholeWordFirstAt | post_processing.py:23 | at the leftmost match, the text before it is copied, the replacement is written, and the scan resumes after the key |
| Rewrite.WholeWordAtStart | post_processing.py:23 | a key at index 0 that starts and ends with a word character and is followed by a non-word character or the end is replaced there, and nothing else is, when the key's first character occurs nowhere else in the text |
| Rewrite.PartOfWordAtStart | post_processing.py:23 | a key at index 0 that runs on into a word character is not replaced, and the text comes back unchanged, when the key's first character occurs nowhere else in the text |
| Rewrite.WholeWordIsText | post_processing.py:23 | a text that is exactly a key is replaced whole |
| Rewrite.ReplaceCharEach | post_processing.py:26-27 | a one-character substitution keeps the length and changes exactly the stray character, everywhere |
| Rewrite.ReplaceChar | post_processing.py:26-27 | a one-character substitution keeps the length, and the stray character no longer occurs when it is replaced by another |
| Rewrite.NextNotBeforeLetter | post_processing.py:32-34 | the scan finds the leftmost occurrence of the pattern not followed by an ASCII letter, or none |
| Rewrite.ReplaceNotBeforeLetterFrom | post_processing.py:32-34 | the substitution of a pattern not followed by an ASCII letter; with a replacement as long as the pattern it keeps the length of the rest of the text |
| Rewrite.NotBeforeLetterFirstAt | post_processing.py:32-34 | at the leftmost such occurrence, the text before it is copied and the replacement written |
| Rewrite.NotBeforeLetterAtEnd | post_processing.py:32-34 | a pattern that ends the text is replaced there and nothing else changes, when the pattern's first character does not occur before it |
| Rewrite.CountUnitAt | post_processing.py:35 | a match of `(<\s*\d+\|\d+)\s*Apl` at `i` has group 1 ending before the misread unit, which ends the match |
| Rewrite.CountUnitAtMeans | post_processing.py:35 | the scanner reports `(g, e)` at `i` exactly when `s[i..e]` matches `(<\s*\d+\|\d+)\s*MISREAD` with group 1 `s[i..g]`: digits alone, or `<`, whitespace and digits, then whitespace, then the misread unit ending at `e` (for a unit that starts with neither a space nor a digit) |
| Rewrite.NextCountUnit | post_processing.py:35 | the scan finds the leftmost index where the count pattern matches, or none |
| Rewrite.CountUnitFirstAt | post_processing.py:35 | at the leftmost match, everything up to the end of group 1 is kept and ` /µl` is written in place of the rest |
| Rewrite.CountUnitKeeps | post_processing.py:35 | `ReplaceCountUnitFrom`, the count substitution, copies the rest of the text unchanged where the misread unit does not occur |
| Rewrite.RulesOutputChars | post_processing.py:39-40 | after the rules run, every character comes from the input (minus what the character rules removed) or from what the rules wrote |
| Rewrite.RulesNonEmpty | post_processing.py:39-40 | rules that write something never empty a non-empty text, and leave `""` empty |
| Rewrite.CharRulesPointwise | post_processing.py:39-40 | a run of character rules rewrites the text character by character |
| Rewrite.UnchangedByRules | post_processing.py:39-40 | rules that each leave the text alone leave it alone together |
| Rewrite.WholeWordSuffix | post_processing.py:23 | the whole-word pass keeps an end of the text inside which no key can end on a word boundary, and keeps such a text whole |
| Rewrite.NotBeforeLetterSuffix | post_processing.py:32-34 | the not-before-letter pass keeps an end of the text inside which the pattern cannot end unless a letter follows |
| Rewrite.NotBeforeLetterSuffixReplaced | post_processing.py:32-34 | a pattern whose first character does not recur in it and that ends the text is replaced there, whatever precedes it |
| Rewrite.CountUnitSuffix | post_processing.py:35 | the count pass keeps an end of the text inside which the misread unit cannot end |
| Rewrite.CountUnitSuffixReplaced | post_processing.py:35 | digits, whitespace and the misread unit ending the text come out as the digits and the unit, whatever precedes them |
| Rewrite.RulesSuffix | post_processing.py:39-40 | a run of rules keeps an end of the text that is clear of each of them |
| PostProcessing.PutAssigns | post_processing.py:16-19 | `d[k] = v` overwrites the value of an existing key in place, and appends a new key at the end |
| PostProcessing.PutKeepsUnique | post_processing.py:16-19 | assignment keeps the keys unique |
| PostProcessing.ExpandCaseVariants | post_processing.py:13-19 | the loop over a snapshot of the entries leaves the dict equal to the pass-by-pass expansion, with unique keys |
| PostProcessing.ExpandKeepsUnique | post_processing.py:13-19 | every pass of the expansion keeps the keys unique |
| PostProcessing.ExpandCapitalised | post_processing.py:13-19 | over capitalised unique keys, the expansion appends exactly one upper-case variant per key, in order |
| PostProcessing.BaseKeysAreTitleCase | post_processing.py:15-16 | the title-case branch adds nothing: every base key equals its title form |
| PostProcessing.ExpansionOfBaseLexicon | post_processing.py:5-19 | the expanded table is the three base entries followed by `ABKLARUNG→ABKLÄRUNG`, `AKTIVITAT→AKTIVITÄT` and `AKTIVITATSPARAMETER→AKTIVITÄTSPARAMETER` |
| PostProcessing.SubstituteWords | post_processing.py:22-23 | the word loop performs one whole-word substitution per entry, in insertion order |
| PostProcessing.ApplyPatterns | post_processing.py:39-40 | the pattern loop performs one substitution per rule, in list order |
| PostProcessing.GermanWordCorrection | post_processing.py:3-42 | the function as written equals the staged corrector; its result has no stray accent, and is empty exactly when the input is |
| PostProcessing.PatternRulesInOrder | post_processing.py:25-39 | the eight character rules come first, then the four unit rules, in list order |
| PostProcessing.PatternRulesRemoveAccents | post_processing.py:25-28 | every stray accent has a rule removing it, and no rule writes one |
| PostProcessing.NoStrayAccents | post_processing.py:25-40 | no output of the corrector contains `â ô û à Â Ô Û À` |
| PostProcessing.CorrectNonEmpty | post_processing.py:3-42 | the corrector's output is empty exactly when its input is |
| PostProcessing.AbsentKeysKeep | post_processing.py:22-23 | when no key occurs, the word stage leaves the text as it is |
| PostProcessing.LexiconNonEmpty | post_processing.py:22-23 | with non-empty replacements, the word stage empties no text |
| CorrectorProperties.SpecialCharsFix | post_processing.py:26-27 | the eight character rules in turn map each character by `â→ä, ô→ö, û→ü, à→ä, Â→Ä, Ô→Ö, Û→Ü, À→Ä` |
| CorrectorProperties.AccentsFixed | post_processing.py:25-40 | a text without `k`, `K`, `/`, `g` or `A` has every stray accent replaced by its umlaut, and nothing else changed |
| CorrectorProperties.CorrectUnchanged | post_processing.py:3-42 | a text in which no key, no special character and no unit pattern occurs comes back unchanged |
| CorrectorProperties.QuietUnchanged | post_processing.py:3-42 | a text with no character any rule reacts to comes back unchanged |
| CorrectorProperties.LexiconSkips | post_processing.py:22-23 | a text without `k` or `K` passes the word stage untouched |
| CorrectorProperties.MicroLitreAtEnd | post_processing.py:32 | `/u1` ending a text whose head has no `k`, `K`, `/`, `g`, `A` or stray accent comes out as that head followed by `/µl`, nothing else changed |
| CorrectorProperties.MicroLitreBeforeLetter | post_processing.py:32 | `/u1` and one ASCII letter ending a text, after a head with no `k`, `K`, `/`, `g`, `A` or stray accent, leave the text unchanged |
| CorrectorProperties.GramsPerDecilitreAtEnd | post_processing.py:33 | `g7dl` ending a text whose head has no `k`, `K`, `/`, `g`, `A` or stray accent comes out as that head followed by `g/dl` |
| CorrectorProperties.GramsMisreadA1AtEnd | post_processing.py:34 | `g7a1` ending a text whose head has no `k`, `K`, `/`, `g`, `A` or stray accent comes out as that head followed by `g/dl` |
| CorrectorProperties.CountPerMicroLitre | post_processing.py:35 | `<`, one space, digits, one space and `Apl` ending a text, after a head with no digit, no `<` and no `k`, `K`, `/`, `g`, `A` or stray accent, come out as the head, `<`, the space, the digits and ` /µl` |
| CorrectorProperties.AccentExample | post_processing.py:27 | `Âlter` becomes `Älter` |
| CorrectorProperties.MicroLitreExample | post_processing.py:32 | `120/u1` becomes `120/µl` |
| CorrectorProperties.MicroLitreBeforeLetterExample | post_processing.py:32 | `/u1x` is unchanged |
| CorrectorProperties.GramsPerDecilitreExample | post_processing.py:33 | `3.5 g7dl` becomes `3.5 g/dl` |
| CorrectorProperties.CountPerMicroLitreExample | post_processing.py:35 | `< 100 Apl` becomes `< 100 /µl` |
| CorrectorProperties.LongWordExample | post_processing.py:6-8 | `Aktivitatsparameter` becomes `Aktivitätsparameter`; the shorter key `Aktivitat` does not rewrite part of it |
| CorrectorProperties.CapitalsExample | post_processing.py:18-23 | `ABKLARUNG` is corrected through its upper-case variant to `ABKLÄRUNG` |
| CorrectorProperties.NotIdempotent | post_processing.py:22-40 | correcting twice differs from correcting once on `Abklarung7dl` |
| UnitRules.MicroLitreEnds | post_processing.py:32 | whatever precedes it, `/u1` ending a text comes out as `/µl` ending the corrected text |
| UnitRules.GramsPerDecilitreEnds | post_processing.py:33 | whatever precedes it, `g7dl` ending a text comes out as `g/dl` |
| UnitRules.GramsMisreadA1Ends | post_processing.py:34 | whatever precedes it, `g7a1` ending a text comes out as `g/dl` |
| UnitRules.MicroLitreBeforeLetterKept | post_processing.py:32 | whatever precedes it, `/u1` followed by an ASCII letter at the end of a text is kept |
| UnitRules.GramsBeforeLetterKept | post_processing.py:33-34 | whatever precedes it, `g7dl` or `g7a1` followed by an ASCII letter at the end of a text is kept |
| UnitRules.CountEnds | post_processing.py:35 | digits, whitespace and `Apl` ending a text, with no word character glued before the digits, come out as the digits followed by ` /µl`; a text that is just that comes out as exactly that |
| UnitRules.HundredAplExample | post_processing.py:35 | `100Apl` becomes `100 /µl` |
| App.LastDot | app.py:50 | finds the last `.` in the name, or reports that there is none |
| App.AllowedFile | app.py:49-50 | a name is allowed only when it has a `.` (its meaning in full is `AllowedFileMeans`) |
| App.AllowedFileMeans | app.py:49-50 | a name is allowed exactly when it has a `.` and the lower-cased text after its last `.` is an allowed extension; a name without `.` is refused |
| App.UpperCaseExtension | app.py:22 | `a.PNG` is allowed |
| App.DoubleExtension | app.py:49-50 | `a.png.exe` is refused |
| App.NoDot | app.py:49-50 | `png` is refused |
| App.PostProcessText | app.py:59-65 | the cleaned text is empty exactly when the input is all whitespace, and contains no stray accent |
| App.PostProcessIsCorrectStrip | app.py:59-65 | the cleaned text is always the corrected, stripped text; the guard for `""` changes nothing |
| App.ReconstructText | app.py:100-123 | the loop's output lines are the joined groups of the non-blank cleaned lines, and the full text is their newline join |
| App.LineTextsNonEmpty | app.py:113-121 | no output line is empty |
| App.FullTextEmpty | app.py:100-123 | the full text is empty exactly when every OCR line is blank |
| App.SameHeightOneLine | app.py:112-121 | lines at one height make one output line when one of them is not blank, and none otherwise |
| LineGrouping.NonBlankSkip | app.py:108-109 | a line whose cleaned text is empty changes nothing: not the anchor, not the pending group |
| LineGrouping.NonBlankKeep | app.py:108-109 | a line whose cleaned text is not empty is the next entry grouped |
| LineGrouping.NonBlankMembers | app.py:108-109 | every grouped entry is a cleaned line with non-empty text |
| LineGrouping.NonBlankEmpty | app.py:108-109 | nothing is grouped exactly when every cleaned text is empty |
| LineGrouping.Place | app.py:112-118 | one kept line adds at most one group, leaves every group but the last alone, and ends up last in the last group |
| LineGrouping.StartGroup | app.py:112-116 | an entry farther than 0.01 from the anchor closes the pending group, if any, and opens a new one, anchored at its own y |
| LineGrouping.JoinGroup | app.py:112-118 | an entry within 0.01 of the anchor joins the pending group and leaves the anchor |
| LineGrouping.PlaceKeepsShape | app.py:112-118 | placing one entry keeps the grouping well formed |
| LineGrouping.GroupsWellGrouped | app.py:112-118 | every grouping is well formed: groups are non-empty, each entry is within 0.01 of its group's anchor, and each group after the first starts more than 0.01 from the previous anchor; there are no groups exactly when there are no entries |
| LineGrouping.FlattenPlace | app.py:118 | placing an entry appends it to the concatenated groups |
| LineGrouping.GroupsFlatten | app.py:104-121 | the groups, concatenated, are exactly the entries in their original order: nothing dropped, duplicated or reordered |
| LineGrouping.GroupMembers | app.py:104-121 | every grouped entry is one of the entries |
| LineGrouping.SameHeightOneGroup | app.py:112-118 | entries that all share one y form at most one group |

## Left out

- Flask routes, request handling, `secure_filename`, saving and removing uploads (app.py:131-173): HTTP and file I/O.
- `save_json_response` (app.py:29-47): file writes and wall-clock timestamps.
- `create_label_studio_annotation` (app.py:67-78): a constant record plus `utcnow()` timestamps; `process_image` returns it around the full text.
- The OCR model, image loading, `stretch_image` and the numpy conversions (app.py:52-57, 83-97): library calls. The model takes their result as a sequence of OCR lines, each its words and `geometry[0][1]`.
- The page/block/line traversal (app.py:104-106): it is modelled as one flat sequence of lines in that order.
- Logging and the `try/except` re-raise paths (app.py:127-129): no logic of their own.
- `y` values and the 0.01 threshold: `real` stands for IEEE doubles, so rounding in `abs(line_y - current_y) > 0.01` is not modelled.
- Characters above U+00FF: the character classes, case maps and whitespace are exact on Latin-1 only. Above it, a character counts as neither a letter, a digit nor a space.
- Text.Upper: leaves `ß`, `ÿ` and `µ` unchanged, whereas Python maps them to `SS`, `Ÿ` and `Μ`, which lie beyond Latin-1. No lexicon key contains them.
- Text.TitleChars: `title()` likewise keeps `ß`, `ÿ` and `µ` where Python would upper-case them.
- Regular expressions in general: each `re.sub` is modelled by a scanner for its one fixed pattern, not by a regex engine.
