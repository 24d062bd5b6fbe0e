# OCR reference matching — a Dafny model

This project models the part of an OCR checking service that decides which piece of a
reference document an OCR text belongs to. It has four parts:

- **Normalization** (`worker/normalization.py`). The *strict* form of a text decides whether
  two texts are exactly equal, and so whether a match can pass without a person. The *soft*
  form is the strict form with every whitespace run collapsed, and it is used only for
  similarity scoring.
- **SectionExtractor** (`shared/docx_section_extractor.py`). Cuts the lines of a reference
  document into sections, and turns each section into a *section candidate*. A section starts
  at a header line (a numbered line such as `01. EMAIL` or a capitals-only line such as
  `BANNER`); when the document has no header line, sections are separated by runs of two or
  more blank lines.
- **ReferenceMatcher** (`shared/reference_matcher.py`). Filters the candidates by optional
  section hints (number, name) and scores each one against the OCR text. It then chooses the
  best candidate under confidence rules that decide whether a person must confirm the choice
  (`manual_required`).
- **LanguageTags** (part of `zip_processor.py`). Reads a language tag such as `ru`, `pt-PT` or
  `zh-Hans` from a file name. It indexes the reference texts of an upload by tag and chooses
  the reference text and the language for each image.

**Builtins** holds the Python string operations these modules rely on, each as a pure
function: `strip`, `rstrip`, `lstrip`, `split`, `join`, `replace`, `lower`, `in` on strings,
`endswith`, and string ordering. It also holds the `Option` type. Python's Unicode whitespace
(`str.isspace`, which `\s`, `split()` and `strip()` all use) is written out as a character
table.

Modules are files: `builtins.dfy`, `normalization.dfy`, `section_extractor.dfy`,
`reference_matcher.dfy` and `language_tags.dfy`.

Loops in the source become `while` loops in methods. Each method is proved equal to a
recursive function, and the lemmas are stated about those functions:

| loop | method | function |
|---|---|---|
| `_rstrip_ascii_space_only` | `RstripAsciiSpaceOnly` | — |
| `_segment_by_headers` | `SegmentByHeaders` | `HeaderSegments` |
| `_segment_by_blank_lines` | `SegmentByBlankLines` | `BlankSegments` |
| conversion loop of `extract_section_candidates` | `CandidatesOf` | `CandidatesFrom` |
| `_filter_by_hints` | `FilterByHints` | `HintFilter` |
| scoring loop of `select_best_section` | `ScoreCandidates` | `ScoreAll` |
| `texts_by_lang` loop | `BuildLanguageIndex` | `LanguageIndex` |
| per-image loop | `ChooseReferences` | `Choices` |
| prefix and stem searches | `FirstStemContainingLoop` | `FirstStemContaining` |

Parameters stand in for what the model cannot see:

- the Unicode NFC and case-folding tables (`UnicodeTables`);
- `difflib.SequenceMatcher.ratio` (`sim`, any function into `[0, 1]`);
- the normalisers that `select_best_section` is handed (`strict`, `soft`);
- `str.lower` for hint names (`lower`).

### Consequences of the code worth knowing

- **The strict form is not idempotent.** `"a\n"` normalises to `"a "`, and `"a "` normalises
  to `"a"`: trailing spaces are cut (`worker/normalization.py:83-84`) before line feeds become
  spaces (`worker/normalization.py:92-93`). See `StrictNotIdempotent`.
- **The short-OCR rule uses the strict form.** Words and characters of the OCR text are counted
  on its strict form (`shared/reference_matcher.py:297-298`, `TooShort`).
- **A candidate's content text can be empty.** A header followed by a single empty line gives a
  candidate whose content text is `""`, because the blank line counts as content during header
  segmentation and joining one empty line gives the empty text
  (`shared/docx_section_extractor.py:149-155`, `EmptyContentCandidate`). With more empty lines
  the content text is made of the line feeds that join them.
- **The placeholder check sees the bracketed text.** It runs on the original content text,
  before brackets are removed (`shared/reference_matcher.py:193`). The `[...]` pattern accepts
  any characters other than `]` (`PlaceholderIff`, `PercentPlaceholder`).
- **Keywords match inside words.** A keyword matches anywhere in the lower-cased name, so `im`
  also matches inside longer words. A name with a high keyword gets 1.2 even when it also holds
  a low keyword (`shared/reference_matcher.py:113-120`, `PriorityByKeywordSets`,
  `HighPriorityExample`).
- **One argument is unused.** `_score_candidate` accepts `ocr_text` and does not read it.
- **Blank lines never reach a block.** Blank-line segmentation drops blank lines, so a single
  blank line neither splits a block nor appears in it (`BlankSegmentsContent`,
  `BlankSegmentsSingleBlock`, `BlankSegmentsSplit`).
- **Subject lines do not interrupt a run of blank lines.** A subject line is skipped before
  the blank count is looked at (`shared/docx_section_extractor.py:171-176`), so the
  lines `A`, empty, `Subject: x`, empty, `B` give two blocks (`BlankSegmentsIgnoreSubjects`,
  `BlankSegmentsSubjectExample`).

## Model

| member | source | states |
|---|---|---|
| Normalization.MapQuotesToAscii | worker/normalization.py:24-56 | length is kept; the four single curly quotes become `'` and the four double ones `"`; every other character is copied; no curly quote remains |
| Normalization.MapQuotesIdentity | worker/normalization.py:48-56 | text without curly quotes comes back unchanged |
| Normalization.RstripAsciiSpaceOnly | worker/normalization.py:36-45 | the result is a prefix of the text; only U+0020 characters are cut off; the result does not end in U+0020 |
| Normalization.NewlineRunAt | worker/normalization.py:15 | length of the `[ ]*\n+[ ]*` match at the start: never beyond the text; a text starting with a line feed never gives 0 |
| Normalization.NewlineRunCovers | worker/normalization.py:15 | a match holds a line feed and only spaces and line feeds, and cannot be extended by a space |
| Normalization.NewlineRunShape | worker/normalization.py:15 | a match of length `l > 0` splits as spaces `[0, j)`, line feeds `[j, k)`, spaces `[k, l)` with each part maximal (no line feed at `k`, no space at `l`); a result of 0 means every line feed is preceded by a non-space |
| Normalization.NewlineRunAppend | worker/normalization.py:15 | the match at the start of `a + b` is the one of `a` and ends inside `a` when `a` ends in a character that is neither a space nor a line feed |
| Normalization.CollapseNewlines | worker/normalization.py:92-93 | no line feed remains; the result is never longer |
| Normalization.CollapseNewlinesAppend | worker/normalization.py:92-93 | collapsing distributes over `a + b` when `a` ends in a character that is neither a space nor a line feed: each run is replaced where it stands, by one space |
| Normalization.CollapseNewlinesTwoRuns | worker/normalization.py:92-93 | `[x, '\n', ' ', '\n', y]` (x, y neither space nor line feed) collapses to `[x, ' ', ' ', y]`: the second line feed starts a run of its own |
| Normalization.CollapseNewlinesTwoRunsExample | worker/normalization.py:92-93 | `"a\n \nb"` collapses to `"a  b"` |
| Normalization.CollapseNewlinesIdentity | worker/normalization.py:92-93 | text without a line feed is unchanged |
| Normalization.CollapseNewlinesKeepsOut | worker/normalization.py:92-93 | the substitution introduces no character except the space |
| Normalization.CollapseNewlinesEndsInSpace | worker/normalization.py:92-93 | text ending in a line feed collapses to text ending in a space |
| Normalization.CaseFoldKeepsLineBreaksOut | worker/normalization.py:95-96 | when folding maps no other character to CR or LF, folding adds no CR or LF |
| Normalization.CaseFoldIdentity | worker/normalization.py:95-96 | text whose characters fold to themselves is unchanged |
| Normalization.CaseFold | worker/normalization.py:95-96 | every character of the result comes from folding some character of the text |
| Normalization.NormalizeStrict | worker/normalization.py:59-101 | `None` gives `""`; the result holds no curly quote |
| Normalization.StrictHasNoLineBreaks | worker/normalization.py:59-101 | the strict form holds neither CR nor LF |
| Normalization.StrictIdentity | worker/normalization.py:59-101 | text already composed and folded, without CR, LF, curly quotes or a trailing space, is its own strict form; inner double spaces stay |
| Normalization.StrictEndsInSpace | worker/normalization.py:81-93 | a text whose composed form ends in a line feed has a strict form ending in a space |
| Normalization.StrictFinalLineFeed | worker/normalization.py:84-99 | `x + "\n"` normalises to `x + " "` for plain `x` |
| Normalization.StrictTrailingSpace | worker/normalization.py:83-84 | `x + " "` normalises to `x` for plain `x` |
| Normalization.StrictNotIdempotent | worker/normalization.py:59-101 | normalising the strict form of `x + "\n"` again changes it |
| Normalization.StrictNotIdempotentExample | worker/normalization.py:59-101 | with composition and case folding that change nothing, `"a\n"` normalises to `"a "` and `"a "` to `"a"` |
| Normalization.CollapseWhitespace | worker/normalization.py:116 | never longer; no two whitespace characters are adjacent in the result; every whitespace character of the result is the ASCII space; the first and the last character are whitespace exactly when they were before |
| Normalization.CollapseWhitespaceKeepsWords | worker/normalization.py:116 | the whitespace-separated words are unchanged |
| Normalization.NormalizeSoft | worker/normalization.py:104-117 | `None` gives `""`; never longer than the strict form; no adjacent whitespace; every whitespace character is the ASCII space; a non-empty strict form gives a non-empty result whose first and last characters are whitespace exactly when the strict form's are; the same words as the strict form |
| SectionExtractor.GroupStart | shared/docx_section_extractor.py:42 | where the greedy `\s*` ends before `(.+)$`: the last position in range at which the name group can start |
| SectionExtractor.NumberedHeader | shared/docx_section_extractor.py:42 | a match of `^(\d+)[.)]\s*(.+)$` gives digits only as the number, followed by `.` or `)`; the name is the non-empty rest of the first line, after spaces only; no leading digit means no match |
| SectionExtractor.ParseHeader | shared/docx_section_extractor.py:97-116 | a number only comes with a name; the number is a digit prefix of the line; the name is a suffix of its first line; without a number, the name is the whole line and the line matches `^([A-Z][A-Z\s]{2,})$`; a name exactly when one of the two patterns matches |
| SectionExtractor.HeaderNameInLine | shared/docx_section_extractor.py:97-116 | a parsed name occurs in its line |
| SectionExtractor.NumberedHeaderMatch | shared/docx_section_extractor.py:42 | digits, `.` or `)`, spaces, then a non-space single-line rest give exactly the digits and the rest as the two groups |
| SectionExtractor.NumberedHeaderParts | shared/docx_section_extractor.py:97-113 | such a line parses as (digits, rest) |
| SectionExtractor.CapsHeaderWhole | shared/docx_section_extractor.py:108-115 | a capitals-only line of three or more characters is its own name, with no number |
| SectionExtractor.NumberedHeaderExample | shared/docx_section_extractor.py:97-116 | `01. EMAIL TEXT` parses as (`01`, `EMAIL TEXT`) |
| SectionExtractor.UnnumberedHeaderExamples | shared/docx_section_extractor.py:97-116 | `BANNER` parses as (none, `BANNER`); `normal text` is no header |
| SectionExtractor.SubjectLineChars | shared/docx_section_extractor.py:119-121 | a subject line has at least 8 characters whose lower-cased forms spell `subject:` |
| SectionExtractor.SubjectLineIgnoresCase | shared/docx_section_extractor.py:119-121 | lower-casing a line does not change whether it is a subject line |
| SectionExtractor.SubjectLineExamples | shared/docx_section_extractor.py:119-121 | `Subject:`, `subject:` and `SUBJECT:` followed by anything are subject lines; a line not starting with `s` or `S` is not |
| SectionExtractor.IsSubjectLine | shared/docx_section_extractor.py:119-121 | a subject line has at least eight characters and does not start with whitespace, so it is never blank |
| SectionExtractor.Flush | shared/docx_section_extractor.py:143-144 | a section is emitted exactly when its content is non-empty, and it is that section |
| SectionExtractor.HeaderSegments | shared/docx_section_extractor.py:124-157 | every section has non-empty content |
| SectionExtractor.BodyLinesSkip | shared/docx_section_extractor.py:134-151 | the lines that reach content are neither subject nor header lines |
| SectionExtractor.HeaderSegmentsContent | shared/docx_section_extractor.py:124-157 | the sections' contents, concatenated, are exactly the lines that are neither subject nor header lines, in order |
| SectionExtractor.HeaderSegmentsContentAtHeader | shared/docx_section_extractor.py:141-148 | at a header line the pending content is closed and the header line itself is not content |
| SectionExtractor.HeaderSegmentsContentAtBody | shared/docx_section_extractor.py:149-151 | a body line is appended to the pending content |
| SectionExtractor.SegmentByHeaders | shared/docx_section_extractor.py:124-157 | the loop computes `HeaderSegments` |
| SectionExtractor.BlankSegments | shared/docx_section_extractor.py:160-190 | every block is non-empty and has no header |
| SectionExtractor.TextLinesSkip | shared/docx_section_extractor.py:170-184 | the lines that reach blocks are neither subject nor blank lines |
| SectionExtractor.BlankSegmentsContent | shared/docx_section_extractor.py:160-190 | the blocks, concatenated, are exactly the non-blank, non-subject lines, in order |
| SectionExtractor.NonSubjectLines | shared/docx_section_extractor.py:170-173 | the lines other than subject lines, each one a line of the input |
| SectionExtractor.BlankSegmentsIgnoreSubjects | shared/docx_section_extractor.py:170-184 | removing the subject lines does not change the blocks: they neither end nor count in a run of blank lines |
| SectionExtractor.BlankSegmentsSingleBlock | shared/docx_section_extractor.py:170-184 | when, subject lines set aside, no two blank lines are adjacent, everything lands in at most one block |
| SectionExtractor.BlankSegmentsAfterGap | shared/docx_section_extractor.py:170-184 | a text line starts a new block exactly when a block is open and at least two blank lines, subject lines not counted, came since the previous text line; otherwise it joins the open block |
| SectionExtractor.BlankSegmentsSubjectBetween | shared/docx_section_extractor.py:170-188 | two text lines with a blank line, a subject line and a blank line between them land in two blocks |
| SectionExtractor.BlankSegmentsSubjectExample | shared/docx_section_extractor.py:170-188 | `A`, empty, `Subject: x`, empty, `B` gives the blocks `A` and `B` |
| SectionExtractor.BlankSegmentsSplit | shared/docx_section_extractor.py:175-188 | two blank lines split `A`,`B` into two blocks; one blank line keeps them together |
| SectionExtractor.SegmentByBlankLines | shared/docx_section_extractor.py:160-190 | the loop computes `BlankSegments` |
| SectionExtractor.ChosenSections | shared/docx_section_extractor.py:214-219 | every chosen section has content |
| SectionExtractor.NoHeadersFallBack | shared/docx_section_extractor.py:214-219 | without header lines the sections are the blank-line blocks, holding exactly the non-blank, non-subject lines |
| SectionExtractor.HeadersUsed | shared/docx_section_extractor.py:214-219 | a header line with a content line after it selects header segmentation, whose contents are exactly the body lines |
| SectionExtractor.HeaderedSectionExists | shared/docx_section_extractor.py:141-155 | a header line with a content line after it yields a section with a header |
| SectionExtractor.HeaderSegmentsFrom | shared/docx_section_extractor.py:141-148 | at a header line, segmentation restarts under that header with empty content |
| SectionExtractor.HeaderKeptSome | shared/docx_section_extractor.py:141-155 | once a header is set, every later section has one |
| SectionExtractor.ChosenSectionsSkipSubjects | shared/docx_section_extractor.py:134-137 | no subject line reaches a section; with header segmentation, no header line does either |
| SectionExtractor.HeaderSegmentsLabels | shared/docx_section_extractor.py:141-148 | a section's header is a non-subject header line of the input |
| SectionExtractor.ChosenHeaders | shared/docx_section_extractor.py:141-148 | every header of a chosen section is a non-empty header line of the document and not a subject line; with header segmentation only the first section can lack a header |
| SectionExtractor.HeaderSegmentsLaterHeadered | shared/docx_section_extractor.py:141-155 | every section after the first was opened by a header line and has a header |
| SectionExtractor.ToCandidate | shared/docx_section_extractor.py:227-243 | header text, path and language are carried over; no name means no number; a header-less section has no name |
| SectionExtractor.CandidatesFrom | shared/docx_section_extractor.py:223-225 | never more candidates than sections |
| SectionExtractor.CandidatesFromSections | shared/docx_section_extractor.py:223-243 | sections that all have content give one candidate each, in order |
| SectionExtractor.CandidatesShape | shared/docx_section_extractor.py:209-245 | one candidate per chosen section with its header and its lines joined by `\n`, and the given path and language; no lines give no candidates; a name occurs in its header, and every candidate with a header has a name |
| SectionExtractor.SectionCandidates | shared/docx_section_extractor.py:193-245 | one candidate per chosen section, each with the given path and language |
| SectionExtractor.EmptyContentCandidate | shared/docx_section_extractor.py:224-227 | `BANNER` followed by one blank line gives a candidate with content text `""` |
| SectionExtractor.ExtractSectionCandidates | shared/docx_section_extractor.py:193-245 | the method computes `SectionCandidates` |
| SectionExtractor.CandidatesOf | shared/docx_section_extractor.py:222-243 | the conversion loop computes `CandidatesFrom` |
| ReferenceMatcher.RemoveCtaBrackets | shared/reference_matcher.py:50-61 | never longer; no `[`, `]`, `<`, `>` remains |
| ReferenceMatcher.RemoveCtaBracketsAppend | shared/reference_matcher.py:59-61 | removal works piecewise on concatenations |
| ReferenceMatcher.RemoveCtaBracketsCounts | shared/reference_matcher.py:59-61 | every bracket character occurs zero times; every other character as often as in the input |
| ReferenceMatcher.RemoveCtaBracketsIdentity | shared/reference_matcher.py:59-61 | bracket-free text is unchanged |
| ReferenceMatcher.RemoveCtaBracketsExample | shared/reference_matcher.py:59-61 | `[BUY]` becomes `BUY`; `<a>` becomes `a` |
| ReferenceMatcher.SearchDelimitedIff | shared/reference_matcher.py:53-75 | the search finds a match exactly when an opener at or after the start is followed by a non-empty run of non-closers and a closer |
| ReferenceMatcher.PlaceholderIff | shared/reference_matcher.py:64-75 | a placeholder exactly when `%[^%]+%` or `\[[^\]]+\]` matches somewhere |
| ReferenceMatcher.HasPlaceholder | shared/reference_matcher.py:64-75 | a placeholder needs at least three characters and a `%` or a `[` |
| ReferenceMatcher.NoOpenerNoPlaceholder | shared/reference_matcher.py:64-75 | text without `%` and `[` has no placeholder |
| ReferenceMatcher.PercentSignAlone | shared/reference_matcher.py:54 | a single `%` or an empty `%%` is no placeholder |
| ReferenceMatcher.PercentPlaceholder | shared/reference_matcher.py:54 | `%` + any non-empty text without `%` + `%` is a placeholder, whatever surrounds it |
| ReferenceMatcher.CleanedHasNoBracketPlaceholder | shared/reference_matcher.py:55-61 | after bracket removal the `[...]` pattern can no longer match |
| ReferenceMatcher.CountNonSpace | shared/reference_matcher.py:86 | at most the length; zero exactly for all-whitespace text |
| ReferenceMatcher.CountCharsNoWhitespace | shared/reference_matcher.py:83-86 | at most the length |
| ReferenceMatcher.CountCharsZero | shared/reference_matcher.py:83-86 | zero exactly when the text is whitespace and brackets only |
| Builtins.CountWords | shared/reference_matcher.py:78-80 | at most the length; zero exactly for empty or all-whitespace text |
| ReferenceMatcher.TooShort | shared/reference_matcher.py:297-298 | empty or all-whitespace OCR text is too short; a text that is not has at least four words and at least sixteen characters |
| ReferenceMatcher.AnyKeywordInIff | shared/reference_matcher.py:113-120 | the keyword loop finds a match exactly when some keyword of the list occurs in the name |
| ReferenceMatcher.KeywordListsAreTheSets | shared/docx_section_extractor.py:35-38 | the iteration lists hold exactly the keyword sets |
| ReferenceMatcher.PriorityMultiplier | shared/reference_matcher.py:98-122 | 1.2, 0.8 or 1.0; 1.0 without a name; 1.2 exactly when a high keyword occurs in the lower-cased name; 0.8 exactly when no high keyword but a low keyword does |
| ReferenceMatcher.PriorityByKeywordSets | shared/reference_matcher.py:98-122 | the same, stated over the keyword sets |
| ReferenceMatcher.HighPriorityExample | shared/reference_matcher.py:113-115 | a name starting with `BANNER` or `Banner` gets 1.2, whatever follows |
| ReferenceMatcher.LowPriorityExample | shared/reference_matcher.py:118-120 | `EMAIL` gets 0.8 |
| ReferenceMatcher.PlaceholderMultiplier | shared/reference_matcher.py:125-127 | 0.5 exactly when there is a placeholder, else 1.0 |
| ReferenceMatcher.LengthPenaltyMultiplier | shared/reference_matcher.py:130-146 | 0.7 exactly when the length exceeds the threshold: 200 characters for `ja`, 130 for `zh-Hans`, 50 words otherwise; else 1.0 |
| ReferenceMatcher.LengthPenaltyMonotone | shared/reference_matcher.py:130-146 | a shorter text is never penalised more |
| ReferenceMatcher.LengthMismatchPenalty | shared/reference_matcher.py:149-165 | 0.6, 0.8 or 1.0; 0.6 when either length is zero |
| ReferenceMatcher.LengthMismatchByLengths | shared/reference_matcher.py:149-165 | 1.0 exactly when the smaller length is at least half the larger; 0.6 exactly when it is below three tenths; the penalty is symmetric |
| ReferenceMatcher.Similarity | shared/reference_matcher.py:89-95 | the ratio lies in [0, 1] |
| ReferenceMatcher.Multipliers | shared/reference_matcher.py:189-206 | the product of the four multipliers lies in (0, 1.2], and is at most 0.6 with a placeholder |
| ReferenceMatcher.MultiplierBounds | shared/reference_matcher.py:209 | the bounds of the product of any four possible multiplier values |
| ReferenceMatcher.ScoreCandidate | shared/reference_matcher.py:168-211 | the score lies in [0, 1], is at most 1.2 times the similarity, and with a placeholder at most 0.6 times it |
| ReferenceMatcher.ScoreWithoutSimilarity | shared/reference_matcher.py:187-211 | zero similarity gives a zero score |
| ReferenceMatcher.NormalizeNumber | shared/reference_matcher.py:237-238 | never empty; `0` or no leading zero |
| ReferenceMatcher.NormalizeNumberParenExample | shared/reference_matcher.py:236-238 | `03)` is section `3` |
| ReferenceMatcher.NormalizeNumberPlainExample | shared/reference_matcher.py:236-238 | `3` stays `3` |
| ReferenceMatcher.NormalizeNumberZerosExample | shared/reference_matcher.py:237-238 | `00` becomes `0` |
| ReferenceMatcher.NormalizeName | shared/reference_matcher.py:249-250 | the result does not end in `s` |
| ReferenceMatcher.Matching | shared/reference_matcher.py:230-255 | never more than the input; every kept candidate is an input candidate and satisfies the hints |
| ReferenceMatcher.MatchingAppend | shared/reference_matcher.py:230-255 | filtering works piecewise, so the original order is kept |
| ReferenceMatcher.MatchingComplete | shared/reference_matcher.py:230-255 | no candidate that satisfies the hints is dropped |
| ReferenceMatcher.HintWarningSaysNoMatch | shared/reference_matcher.py:258-262 | the warning says the hints did not match |
| ReferenceMatcher.HintFilter | shared/reference_matcher.py:214-264 | at most one warning; no hints give the candidates unchanged and no warning; never more candidates; never empty for a non-empty input |
| ReferenceMatcher.HintFilterOutcome | shared/reference_matcher.py:224-264 | with a hint: the matching candidates in order if any, else all candidates plus one "did not match" warning; every matching candidate is kept |
| ReferenceMatcher.FilterByHints | shared/reference_matcher.py:214-264 | the loop computes `HintFilter` |
| ReferenceMatcher.OcrFormsOf | shared/reference_matcher.py:292-294 | the strict and soft forms are those of the cleaned text, which holds no bracket |
| ReferenceMatcher.ScoreOne | shared/reference_matcher.py:318-330 | the score lies in [0, 1]; the entry carries the candidate, its cleaned text and its strict form; strict equality exactly when the strict forms agree |
| ReferenceMatcher.ScoreAll | shared/reference_matcher.py:317-330 | one entry per candidate, in candidate order |
| ReferenceMatcher.TopIndex | shared/reference_matcher.py:333-336 | the entry that ends up first after the stable descending sort: no key is above it and every earlier key is below it |
| ReferenceMatcher.TopIndexUnique | shared/reference_matcher.py:333-336 | only one position has those two properties |
| ReferenceMatcher.TopStrictIff | shared/reference_matcher.py:333-336 | the first entry is a strict match exactly when some strict match reaches the best score |
| ReferenceMatcher.MaxScore | shared/reference_matcher.py:333-337 | the largest score of a non-empty list, attained by some entry |
| ReferenceMatcher.MaxScoreExcept | shared/reference_matcher.py:337 | the second entry's score: the largest among the other entries, attained by one of them |
| ReferenceMatcher.SecondBelowTop | shared/reference_matcher.py:336-339 | the second score never exceeds the first, so the delta is never negative |
| ReferenceMatcher.CountStrict | shared/reference_matcher.py:391 | at most the length; zero exactly when no entry is a strict match |
| ReferenceMatcher.Verdict | shared/reference_matcher.py:341-422 | the rules in their order: placeholders everywhere give the placeholder warning; otherwise a too-short OCR text without a strict top match gives the too-short warning; otherwise a delta below 0.05 without a strict top match gives the ambiguity warning; a strict top match with another strict match and a delta below 0.05 gives the multiple-strict warning; every warning requires a person; with no warning, a person is needed exactly without a strict top match; no person exactly when not all candidates have placeholders, the top match is strict, and no second strict match lies within the delta; when no rule fires there is no warning and a person is needed exactly without a strict top match |
| ReferenceMatcher.Decide | shared/reference_matcher.py:336-422 | the chosen candidate, text and first score are those of the top entry; no entry scores higher; 0 ≤ second ≤ first ≤ 1 and delta is their difference; the warnings are the hint warnings plus at most one, which forces a person; the auto-pass condition; in each rule's case the warnings are the hint warnings followed by exactly that rule's warning; when no rule fires the warnings are the hint warnings alone and a person is needed exactly without a strict top match |
| ReferenceMatcher.ScoreCandidates | shared/reference_matcher.py:317-330 | the scoring loop computes `ScoreAll` |
| ReferenceMatcher.Select | shared/reference_matcher.py:267-422 | a section is chosen exactly when there are candidates; without one a person is needed and the text is empty; 0 ≤ second score ≤ first score ≤ 1 |
| ReferenceMatcher.SelectBestSection | shared/reference_matcher.py:267-422 | the method computes `Select` |
| ReferenceMatcher.SelectNoCandidates | shared/reference_matcher.py:304-314 | no candidates: nothing chosen, empty text, zero scores, a person, and a final "No candidates" warning |
| ReferenceMatcher.SelectDecides | shared/reference_matcher.py:301-339 | with candidates, the filtered list is non-empty and the result is the verdict on its scores |
| ReferenceMatcher.SelectChosen | shared/reference_matcher.py:336-422 | with candidates, a filtered input candidate is chosen; the reported text is its bracket-free content; the reported name and number are its own |
| ReferenceMatcher.ScoreAllFields | shared/reference_matcher.py:318-330 | each entry carries its candidate and that candidate's cleaned text |
| ReferenceMatcher.FilteredWithin | shared/reference_matcher.py:214-264 | the hint filter only keeps input candidates |
| ReferenceMatcher.SelectScores | shared/reference_matcher.py:336-339 | the first score is the chosen candidate's; no filtered candidate scores higher; 0 ≤ second ≤ first ≤ 1; delta = first − second ≥ 0 |
| ReferenceMatcher.SelectHonoursHints | shared/reference_matcher.py:224-301 | when some candidate satisfies the hints, the chosen one does too |
| ReferenceMatcher.SelectWarnings | shared/reference_matcher.py:289-407 | the warnings are the hint warnings followed by at most one more (two at most), and an extra one means a person is needed |
| ReferenceMatcher.SelectAutoPass | shared/reference_matcher.py:341-422 | no person exactly when there are candidates, the chosen text's strict form equals the OCR text's, not all candidates have placeholders, and no second strict match lies within 0.05; then only hint warnings are reported |
| ReferenceMatcher.SelectRuleWarnings | shared/reference_matcher.py:359-422 | when not every filtered candidate has a placeholder: a too-short OCR text without a strict match of the chosen text adds the too-short warning; otherwise a delta below 0.05 without a strict match adds the ambiguity warning; a strict match with a second strict match and a delta below 0.05 adds the multiple-strict warning; each time after the hint warnings and as the only rule warning; when none of these rules fires, the warnings are the hint warnings alone and a person is needed exactly without a strict match |
| ReferenceMatcher.SelectAllPlaceholders | shared/reference_matcher.py:341-356 | placeholders in every filtered candidate always need a person, with the placeholder warning last |
| ReferenceMatcher.SelectSingleCandidate | shared/reference_matcher.py:337-339 | a single filtered candidate gives second score 0 and delta equal to the first score |
| LanguageTags.StrippedLangToken | zip_processor.py:13 | on text without a final whitespace, `_LANG_TOKEN_RE.match` is exactly the tag shape (the `$` before a final line feed no longer matters) |
| LanguageTags.IsLangToken | zip_processor.py:13 | a token starts with at least two letters |
| LanguageTags.ParensFrom | zip_processor.py:14-28 | the leftmost position from which `\(([^)]+)\)\s*$` matches, and that none matches before it |
| LanguageTags.ParensGroup | zip_processor.py:14-30 | a group exactly when the pattern matches somewhere; the group is non-empty and holds no `)` |
| LanguageTags.TagInParens | zip_processor.py:27-32 | rule 1 gives a tag exactly when the stripped group has the tag shape |
| LanguageTags.TagAtEnd | zip_processor.py:38-45 | rule 3 gives a tag exactly when the stripped last separator-free part has the tag shape |
| LanguageTags.LanguageFromStem | zip_processor.py:17-47 | any result has the tag shape; the parentheses rule wins, then the whole stripped stem, then the last part |
| LanguageTags.LastComponent | zip_processor.py:51 | the last path component is empty or one of the components, never `.` |
| LanguageTags.LastIndex | zip_processor.py:51 | the last position holding the character, or its absence |
| LanguageTags.PathStemInLastComponent | zip_processor.py:51 | the stem is a prefix of the last path component and holds no `/`; a last component without a dot is its own stem |
| LanguageTags.LanguageFromFilename | zip_processor.py:50-51 | any result has the tag shape |
| LanguageTags.TagShapeRu | zip_processor.py:13 | `ru` is a tag |
| LanguageTags.TagShapeWithSubtag | zip_processor.py:13 | two or three letters, a hyphen and a subtag form a tag |
| LanguageTags.TagShapeZhHans | zip_processor.py:13 | `zh-Hans` is a tag |
| LanguageTags.NotTagBannerRu | zip_processor.py:13 | `Banner_ru` is not a tag |
| LanguageTags.WholeStemExample | zip_processor.py:34-36 | stem `ru` gives `ru` |
| LanguageTags.LastPartRule | zip_processor.py:38-45 | a stripped stem with no parentheses group that is not a tag itself gives its last part when that is a tag |
| LanguageTags.LastPartExample | zip_processor.py:38-45 | `Banner_ru` gives `ru` |
| LanguageTags.ParensGroupExample | zip_processor.py:14-28 | `file(zh-Hans)` has the group `zh-Hans` |
| LanguageTags.ParensGroupAtEnd | zip_processor.py:14-28 | a name without `(` followed by `(`, a non-empty group without `)`, and `)` has that group |
| LanguageTags.ParensRule | zip_processor.py:27-32 | a stripped stem whose group is a stripped tag gives that group |
| LanguageTags.ParensExample | zip_processor.py:27-32 | `file(zh-Hans)` gives `zh-Hans` |
| LanguageTags.PathsWithLanguage | zip_processor.py:106-110 | never more paths than texts |
| LanguageTags.PathsWithLanguageMembers | zip_processor.py:106-110 | a path is listed under a tag exactly when it is a text carrying that tag |
| LanguageTags.PathsWithLanguageEmpty | zip_processor.py:106-110 | no text carrying the tag gives an empty list |
| LanguageTags.LanguageIndex | zip_processor.py:106-110 | no tag is listed with an empty list of texts |
| LanguageTags.LanguageIndexIsIndex | zip_processor.py:106-110 | `texts_by_lang` has a key exactly for the tags some text carries, holding those texts in order |
| LanguageTags.BuildLanguageIndex | zip_processor.py:106-110 | the loop computes `LanguageIndex` |
| LanguageTags.DocxPaths | zip_processor.py:129 | exactly the paths ending in `.docx`, ignoring case |
| LanguageTags.IsDocxPath | zip_processor.py:129 | such a path has at least five characters, the fifth from the end a `.` |
| LanguageTags.FirstStemIndex | zip_processor.py:136-147 | the first position from `from` on whose stem contains the part, none before it; or none at all |
| LanguageTags.FirstStemContaining | zip_processor.py:136-147 | a text whose stem contains the part, or none exists |
| LanguageTags.StemPrefix | zip_processor.py:134 | a stem without `_` has an empty prefix, so rule 2 is skipped |
| LanguageTags.ByLanguage | zip_processor.py:126-130 | rule 1 chooses exactly when some text carries the image's tag |
| LanguageTags.ByName | zip_processor.py:132-147 | rules 2 and 3 only choose texts, and only one whose stem contains the non-empty prefix or the non-empty stem; nothing is chosen exactly when no text's stem contains the non-empty prefix and none contains the non-empty stem |
| LanguageTags.ReferenceFor | zip_processor.py:115-147 | only texts are chosen |
| LanguageTags.LanguageForShape | zip_processor.py:121-160 | the reported language is `en` or a tag |
| LanguageTags.LanguageForSource | zip_processor.py:121-160 | the reported language is a tag that some text carries, the image's own tag, or `en` |
| LanguageTags.ChoiceByLanguage | zip_processor.py:126-160 | when texts carry the image's tag, one of them is chosen: the smallest `.docx` among them if there is one, else the smallest; the language is that tag |
| LanguageTags.ChoiceByPrefix | zip_processor.py:132-139 | without a tagged match, a non-empty prefix contained in some stem picks the first such text |
| LanguageTags.ChoiceByStem | zip_processor.py:141-147 | without a tagged match and without a prefix some stem contains, a non-empty image stem picks the first text whose stem contains it, or none |
| LanguageTags.NoChoice | zip_processor.py:121-160 | nothing chosen means no text stem contains the non-empty image stem; the language is the image's tag or `en` |
| LanguageTags.ChooseReference | zip_processor.py:115-160 | the method computes `Choice` from `texts_by_lang` |
| LanguageTags.FirstStemContainingLoop | zip_processor.py:136-147 | the search loop with `break` computes `FirstStemContaining` |
| LanguageTags.Choices | zip_processor.py:115-160 | one choice per image, each that image's own |
| LanguageTags.ChooseReferences | zip_processor.py:106-160 | the two loops compute `Choices` |

## Left out

- `_extract_text_from_docx` (`shared/docx_section_extractor.py:47-94`): reading the DOCX
  package is I/O. `ExtractSectionCandidates` takes the list of lines it returns.
- Unicode NFC composition and the case-folding table are parameters (`UnicodeTables`), not
  data. Lemmas that need a fact about them state it in `requires`.
- `difflib.SequenceMatcher.ratio` is a parameter `sim`. Its only stated property is that the
  ratio lies in [0, 1].
- ReferenceMatcher.Similarity: its contract only gives the [0, 1] bound; the model does not
  define the ratio.
- Floating-point arithmetic on scores and multipliers is modelled with exact reals. Rounding
  is not modelled.
- `\d` in the numbered-header pattern, and `str.lower` in `_is_subject_line` and for keywords
  and `.docx` detection, are modelled on ASCII. Non-ASCII digits and non-ASCII case mappings
  are not covered. Hint names use the `lower` parameter, so they are not restricted this way.
- ReferenceMatcher.TopIndex: the sort of `scored` is not materialised. The model computes the
  entry a stable descending sort puts first, and the best score among the rest (what ends up
  second).
- `SelectionResult.to_dict` and `SectionCandidate.__repr__` are serialisation only.
- `parse_zip_streaming` outside the reference choice is not part of this model: opening the
  ZIP archive, temporary files, image extraction, `extract_text`, and the `ref_bytes` and
  return-mode handling. Images and texts are sequences of paths in archive order. In the
  source they are dictionary keys (`zip_processor.py:79-80`, `zip_processor.py:99`,
  `zip_processor.py:103`), so they are distinct and a name repeated in the archive gives one
  result; `Choices` gives one result per sequence element, so it matches the source only for
  sequences without repeats.
- LanguageTags.PathStem models `pathlib.PurePosixPath.stem` for `/`-separated paths only.
  Windows separators and special drive or root handling are not modelled.
- Logging is not modelled.
