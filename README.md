# PDF abstract extractor: the text core in Dafny

This project models the text-processing core of `PDFAbstractExtractor`, a
tool that finds the abstract of a scientific paper in the text extracted
from a PDF. The model covers the class's pattern list, `find_abstract`,
`find_abstract_by_keywords` and `clean_abstract_text`, and proves
properties of them.

- `find_abstract` first flattens the text: it strips the ends and turns
  each whitespace run into one space (module `Normalizer`).
- It then tries three label patterns (`abstract`, `summary`, `overview`),
  each followed by `[:\s]*`, a lazy group and a section-boundary lookahead,
  on a lowered copy of the text. The regular expressions are written out as
  functions in module `SectionPatterns`.
- On a match, it looks the lowered capture up again to recover the original
  case, and cleans it.
- Otherwise it falls back to `find_abstract_by_keywords` (module
  `KeywordScan`). That scan starts at the first line holding the whole word
  "abstract". It ends at the first later line containing an end keyword,
  else at the first blank line among the next ten, else ten lines on. The
  lines are joined with spaces, a leading `abstract` label is removed, and
  the rest is cleaned.
- `clean_abstract_text` (module `Cleaner`) collapses whitespace, deletes
  characters outside `[\w\s.,;:!?()\-&]`, puts a space after a period that
  is fused to a word character, and strips the ends.

The class `Extractor.PdfAbstractExtractor` holds the pattern list as a
constant. Its methods `FindAbstract` and `FindAbstractByKeywords` are
proved equal to the functions `FindAbstractResult` and `KeywordAbstract`.
Five static helper methods each run one of the source's loops, or one loop
body, and are proved against the functions that specify them. The
properties are proved about those functions.

What the code does, as opposed to what its description suggests (the
model follows the code):

- The flattening in `find_abstract` removes every line feed. Every
  alternative of the section-boundary lookahead starts with a line feed,
  so no pattern can ever match. `find_abstract` therefore always returns
  the keyword scan of the flattened text, which is a single line
  (`FindAbstractFallsBack`, `FindAbstractEndToEnd`). The line-oriented scan
  never sees the original line boundaries.
- There is no paragraph fallback and no minimum-length filter on captures.
- The end keywords are matched as substrings of the lowered, stripped
  line, so any line containing `1.` or `i.` ends the span, for example
  "2021." or "api.".
- The end-keyword scan runs to the last line; only the blank-line scan is
  limited to ten lines. In the blank-line scan, the line ten after the
  start is examined, but the span ends ten lines on whether or not that
  line is blank.
- Deleting a character inserts no space, so the words on either side of
  it join: "were##great" cleans to "weregreat" (`CleanJoinsAcrossDeletions`).
- Cleaning can return the empty text (`JunkAfterLabel`), and cleaning twice
  can differ from cleaning once (`CleanNotIdempotent`).
- The keyword scan requires only the whole word "abstract" somewhere in a
  line. A sentence such as "this text has no abstract marker" therefore
  starts a span.

Characters follow Python's `str` semantics restricted to ASCII:
- `\s` and `str.isspace` are space, `\t` to `\r`, and `\x1c` to `\x1f`;
- `\w` is letters, digits and `_`;
- `lower` maps `A`–`Z` to `a`–`z`.

## Model

| member | source | states |
|---|---|---|
| CharClasses.Lower | pdf_abstract_extractor.py:59 | an upper-case ASCII letter becomes its lower-case letter, every other character is unchanged, the result is never upper-case, and whitespace and word characters stay what they were |
| CharClasses.LowerStr | pdf_abstract_extractor.py:59 | `lower()` keeps the length and lowers each position on its own |
| CharClasses.LowerStrSlice | pdf_abstract_extractor.py:68-70 | lowering a slice gives the same slice of the lowered text, which is why offsets in `text_lower` are valid in `text` |
| CharClasses.LowerStrIdempotent | pdf_abstract_extractor.py:68 | lowering twice is lowering once, so `abstract_text.lower()` of a lowered capture is the capture |
| Strings.Strip | pdf_abstract_extractor.py:58 | `strip()` never lengthens, leaves no whitespace at either end, is empty exactly when the text is all whitespace, and leaves trimmed text unchanged |
| Strings.StripKeepsText | pdf_abstract_extractor.py:128 | stripping removes whitespace only: the visible characters stay, in order |
| Strings.StripOfSlice | pdf_abstract_extractor.py:65 | the stripped group is itself a slice of the searched text |
| Strings.StripKeepsInner | pdf_abstract_extractor.py:94 | a stretch between two visible characters survives `strip()` |
| Strings.SplitLines | pdf_abstract_extractor.py:78 | `split('\n')` gives at least one line |
| Strings.SplitLinesShape | pdf_abstract_extractor.py:78 | the lines hold no line feed, and joining them with line feeds gives the text back |
| Strings.SplitJoinLines | pdf_abstract_extractor.py:78 | splitting the line-feed join of line-feed-free lines gives those lines back |
| Strings.SplitLinesSingle | pdf_abstract_extractor.py:78 | a text without line feeds is one line |
| Strings.Join | pdf_abstract_extractor.py:110 | no contract of its own: `' '.join`; `SplitLinesShape` and `SplitJoinLines` relate it to splitting |
| Strings.Filter | pdf_abstract_extractor.py:123 | no contract of its own: the deletion keeps the characters the predicate accepts, in order; its properties are `KeptCharacters` and `VisibleKeptCharacters` |
| Strings.FindFrom | pdf_abstract_extractor.py:68-69 | `find` returns the first occurrence, and returns `-1` (`None`) exactly when there is none |
| Strings.HasWholeWordFrom | pdf_abstract_extractor.py:84 | `\bw\b` is found exactly when w occurs with a non-word character or an end of text on each side |
| Normalizer.CollapseRunsSpacing | pdf_abstract_extractor.py:58 | after `re.sub(r'\s+', ' ', ...)` the only whitespace is the plain space, and never two in a row |
| Normalizer.CollapseRuns | pdf_abstract_extractor.py:58 | no contract of its own: `re.sub(r'\s+', ' ', ...)`; its properties are `CollapseRunsSpacing`, `CollapseRunsEnds`, `CollapseRunsRun` and `CollapseRunsVisiblePrefix` |
| Normalizer.CollapseRunsEnds | pdf_abstract_extractor.py:58 | a whitespace run at either end becomes one space; a visible character at either end stays |
| Normalizer.CollapseRunsRun | pdf_abstract_extractor.py:58 | a whole whitespace run becomes exactly one space |
| Normalizer.CollapseRunsVisiblePrefix | pdf_abstract_extractor.py:58 | text without whitespace passes through unchanged |
| Normalizer.CollapseRunsKeepsText | pdf_abstract_extractor.py:58 | collapsing rewrites whitespace only: the visible characters stay, in order |
| Normalizer.CollapseFixes | pdf_abstract_extractor.py:58 | text with single plain spaces only is left unchanged |
| Normalizer.Normalize | pdf_abstract_extractor.py:58 | the flattened text has single plain spaces only, none at either end, and no line feed |
| Normalizer.NormalizeKeepsText | pdf_abstract_extractor.py:58 | flattening keeps the visible characters, in order |
| Normalizer.NormalizeFixesNormalized | pdf_abstract_extractor.py:58 | flattened text is left unchanged by flattening |
| Normalizer.NormalizeIdempotent | pdf_abstract_extractor.py:58 | flattening twice is flattening once |
| Cleaner.SpaceAfterPeriodsShape | pdf_abstract_extractor.py:126 | the period rule only inserts spaces, keeps the first character, and leaves no period directly followed by a word character |
| Cleaner.SpaceAfterPeriodsKeepsVisible | pdf_abstract_extractor.py:126 | the period rule keeps the visible characters, in order |
| Cleaner.SpaceAfterPeriodsNoPeriod | pdf_abstract_extractor.py:126 | a stretch without periods passes through the period rule unchanged |
| Cleaner.SpaceAfterPeriodsAtPeriod | pdf_abstract_extractor.py:126 | at a period followed by a word character the rule inserts one space, and scanning resumes after that character |
| Cleaner.SpaceAfterPeriodsIdentity | pdf_abstract_extractor.py:126 | text without periods is unchanged |
| Cleaner.SpaceAfterPeriodsPlainPeriod | pdf_abstract_extractor.py:126 | a period followed by a non-word character or by the end of the text gets no space; with `SpaceAfterPeriodsNoPeriod` and `SpaceAfterPeriodsAtPeriod` this fixes the rule on every input |
| Cleaner.SpaceAfterPeriods | pdf_abstract_extractor.py:126 | no contract of its own: `re.sub(r'\.(\w)', r'. \1', ...)`; its properties are the `SpaceAfterPeriods...` lemmas |
| Cleaner.IsKept | pdf_abstract_extractor.py:123 | no contract of its own: the class `[\w\s.,;:!?()\-&]` |
| Cleaner.KeptCharacters | pdf_abstract_extractor.py:123 | after the deletion only word characters, plain spaces and the allowed punctuation remain |
| Cleaner.VisibleKeptCharacters | pdf_abstract_extractor.py:120-123 | the visible characters after the deletion are exactly the input's visible characters that are not deleted |
| Cleaner.StripKeepsShape | pdf_abstract_extractor.py:128 | the final strip adds no character and creates no fused period |
| Cleaner.Clean | pdf_abstract_extractor.py:117-128 | no contract of its own: collapse, delete, period rule, strip; its properties are `CleanShape` and the `Clean...` lemmas below |
| Cleaner.CleanShape | pdf_abstract_extractor.py:117-128 | the cleaned text holds only allowed characters, has no space at either end and no period fused to a word character, and keeps, in order, exactly the input's visible characters that are not deleted |
| Cleaner.CleanBlank | pdf_abstract_extractor.py:117-128 | a text with no kept visible character cleans to the empty text |
| Cleaner.CleanSpacesPeriod | pdf_abstract_extractor.py:126 | two words joined by a period get a space after the period, for example `3.14` becomes `3. 14` |
| Cleaner.CleanJoinsAcrossDeletions | pdf_abstract_extractor.py:123 | deleted characters between two words leave no space: the words join |
| Cleaner.WordsSpaced | pdf_abstract_extractor.py:123-128 | two words separated by spaces pass the deletion, the period rule and the strip unchanged |
| Cleaner.CleanLeavesDoubleSpace | pdf_abstract_extractor.py:120-128 | a deletion between two spaces leaves both spaces, because whitespace is collapsed before the deletion |
| Cleaner.CleanCollapsesDoubleSpace | pdf_abstract_extractor.py:120 | a double space between words becomes one space |
| Cleaner.CleanNotIdempotent | pdf_abstract_extractor.py:117-128 | cleaning a cleaned text can change it again |
| SectionPatterns.NextBoundary | pdf_abstract_extractor.py:34-36 | the lookahead holds at the returned position and nowhere between the start and it, nor anywhere when there is none |
| SectionPatterns.AbstractPatterns | pdf_abstract_extractor.py:33-37 | the three labels `abstract`, `summary`, `overview`, in that order |
| SectionPatterns.BoundaryAt | pdf_abstract_extractor.py:34-36 | no contract of its own: the lookahead, each of whose alternatives starts with a line feed |
| SectionPatterns.ViableEarlier | pdf_abstract_extractor.py:34-36 | if the lazy group can start at some position, it can start at any earlier one |
| SectionPatterns.LastViable | pdf_abstract_extractor.py:34-36 | greedy `[:\s]*` gives back characters until the group can start: the largest viable position in the run, or none |
| SectionPatterns.MatchAt | pdf_abstract_extractor.py:34-36 | a match at p has the label at p, only colons and whitespace before the group, a non-empty group ending where the lookahead first holds; greedy `[:\s]*` wins, so no later position in the colon and whitespace run could start the group; there is no match exactly when the label is absent or no lookahead follows it |
| SectionPatterns.SearchFrom | pdf_abstract_extractor.py:63 | `re.search` reports a match at or after its start position with the group inside the text |
| SectionPatterns.SearchFromFinds | pdf_abstract_extractor.py:63 | the match `re.search` reports is the pattern's match at that position |
| SectionPatterns.SearchFromLeftmost | pdf_abstract_extractor.py:63 | the pattern matches nowhere before the reported position, and nowhere when the search fails |
| SectionPatterns.MatchNeedsLineFeed | pdf_abstract_extractor.py:34-36 | a match needs a line feed in the text |
| SectionPatterns.SearchNeedsLineFeed | pdf_abstract_extractor.py:63 | on a text without line feeds the search fails |
| SectionPatterns.NextBoundaryAt | pdf_abstract_extractor.py:34-36 | the first boundary is the first line feed at which the lookahead holds |
| SectionPatterns.MatchesBeforeBlankLine | pdf_abstract_extractor.py:34 | on text with line feeds the pattern does match: label, a one-line body, then a blank line gives a match whose group is the body |
| KeywordScan.ContainsAnyExists | pdf_abstract_extractor.py:95 | `any(k in line ...)` holds exactly when one of the keywords occurs in the line |
| KeywordScan.EndKeywords | pdf_abstract_extractor.py:92 | the end keywords `keywords`, `introduction`, `background`, `1.`, `i.` |
| KeywordScan.HasEndKeyword | pdf_abstract_extractor.py:94-95 | no contract of its own: the lowered, stripped line contains an end keyword; see `ContainsAnyExists` and `EndKeywordInsideLine` |
| KeywordScan.HasAbstractWord | pdf_abstract_extractor.py:84 | no contract of its own: the whole word "abstract" in the lowered line; `HasWholeWordFrom` states what that means |
| KeywordScan.IsBlank | pdf_abstract_extractor.py:102 | no contract of its own: the line strips to the empty text |
| KeywordScan.FirstAbstractLine | pdf_abstract_extractor.py:83-86 | the start is a line holding the whole word "abstract", and no earlier line holds it; `None` when no line does |
| KeywordScan.SpanEnd | pdf_abstract_extractor.py:92-106 | with a later end-keyword line, the span ends at the first one; otherwise it ends at most ten lines on, before any blank line, at the first blank line if that lies within the next nine lines |
| KeywordScan.SpanEndAtKeyword | pdf_abstract_extractor.py:93-97 | the first later line with an end keyword is where `SpanEnd` ends the span |
| KeywordScan.SpanEndWithoutKeyword | pdf_abstract_extractor.py:99-106 | without an end keyword, the end that `SpanEnd`'s properties describe is the one it computes |
| KeywordScan.StripLabel | pdf_abstract_extractor.py:113 | removing the label gives a suffix of the text; with a label, exactly the leading whitespace, the eight letters of the label and the colon and whitespace run after it go, so the rest does not start with a colon or whitespace; without one, the text is unchanged |
| KeywordScan.LabelAtFirstVisible | pdf_abstract_extractor.py:113 | `^\s*abstract` can only match at the first non-whitespace character |
| KeywordScan.SingleLineAbstract | pdf_abstract_extractor.py:76-115 | on a single line the result is `None` without the word "abstract", else the stripped line with its label removed and cleaned, or `None` when nothing is left |
| KeywordScan.NoAbstractWordNoAbstract | pdf_abstract_extractor.py:88-89 | with no line holding the word, the result is `None` |
| KeywordScan.EndKeywordInsideLine | pdf_abstract_extractor.py:92-95 | any line containing `1.` counts as holding an end keyword |
| KeywordScan.JunkAfterLabel | pdf_abstract_extractor.py:115 | a label followed only by deleted characters gives the empty text, not `None` |
| KeywordScan.LabelThenJunk | pdf_abstract_extractor.py:76-115 | the line `abstract ` followed by any non-empty run of deleted characters, such as "abstract #", gives the empty text, not `None` |
| KeywordScan.KeywordAbstract | pdf_abstract_extractor.py:76-115 | no contract of its own: start line, span end, join, strip, label removal and clean; its properties are `SingleLineAbstract`, `NoAbstractWordNoAbstract`, `JunkAfterLabel` and `LabelThenJunk` |
| Extractor.RecoverCase | pdf_abstract_extractor.py:68-70 | the original text is sliced exactly when the lowered capture occurs in the lowered text |
| Extractor.RecoverCaseLowers | pdf_abstract_extractor.py:68-70 | the recovered slice has the capture's length and lowers to the lowered capture |
| Extractor.RecoverCaseAt | pdf_abstract_extractor.py:68-70 | at the offset `find` returns, the slice of the original text lies within it |
| Extractor.RecoverCaseOfPiece | pdf_abstract_extractor.py:68-69 | any piece of the lowered text is found again, so the `-1` branch is never taken for a capture |
| Extractor.MatchGivesResult | pdf_abstract_extractor.py:63-71 | a pattern gives a result exactly when it matches |
| Extractor.TryPattern | pdf_abstract_extractor.py:63-71 | no contract of its own: one pattern attempt; `MatchGivesResult` states when it gives a result |
| Extractor.TryPatterns | pdf_abstract_extractor.py:62-71 | no contract of its own: the first pattern that gives a result wins; `PatternsNeverFire` is proved about it |
| Extractor.FindAbstractResult | pdf_abstract_extractor.py:55-74 | no contract of its own: `find_abstract`; its properties are `FindAbstractFallsBack` and `FindAbstractEndToEnd` |
| Extractor.LowerStrNoLineFeed | pdf_abstract_extractor.py:58-59 | the lowered flattened text has no line feed either |
| Extractor.PatternsNeverFire | pdf_abstract_extractor.py:62-71 | on text without line feeds no pattern gives a result |
| Extractor.FindAbstractFallsBack | pdf_abstract_extractor.py:55-74 | `find_abstract` always returns the keyword scan of the flattened text |
| Extractor.FindAbstractEndToEnd | pdf_abstract_extractor.py:55-115 | `find_abstract` returns the cleaned flattened text with its label removed when it holds the whole word "abstract" and something remains after the label, and `None` otherwise |
| Extractor.PdfAbstractExtractor.constructor | pdf_abstract_extractor.py:31-37 | the extractor holds the three patterns `abstract`, `summary`, `overview`, in that order |
| Extractor.PdfAbstractExtractor.FindAbstract | pdf_abstract_extractor.py:55-74 | the loop over the patterns with early return, then the fallback, computes `FindAbstractResult` |
| Extractor.PdfAbstractExtractor.ApplyPattern | pdf_abstract_extractor.py:63-71 | search, strip the group, find its lowered form, slice the original and clean: one pattern's result |
| Extractor.PdfAbstractExtractor.FindAbstractByKeywords | pdf_abstract_extractor.py:76-115 | the three loops and the join, label removal and clean compute `KeywordAbstract` |
| Extractor.PdfAbstractExtractor.FindStartLine | pdf_abstract_extractor.py:82-89 | the start loop returns the first line with the whole word "abstract", or -1 exactly when there is none |
| Extractor.PdfAbstractExtractor.FindEndLine | pdf_abstract_extractor.py:91-106 | the end found by the two scans is `SpanEnd` |
| Extractor.PdfAbstractExtractor.FindKeywordLine | pdf_abstract_extractor.py:92-97 | the keyword loop returns the first later line with an end keyword, or -1 when no later line has one |
| Extractor.PdfAbstractExtractor.FindBlankLine | pdf_abstract_extractor.py:99-106 | the blank-line loop and its `else` stop at the first blank line among the next ten, or ten lines on (capped at the number of lines), and never after a blank line |

## Left out

- `extract_text_from_pdf` (pdf_abstract_extractor.py:39-53): reads a PDF file through a PDF library; the model starts from the extracted text.
- `create_abstract_pdf`, `process_pdf` and `main`: PDF writing, file system access and the command line, all through external libraries.
- The scripts `demo.py`, `example_usage.py` and `test_extractor.py` are not part of this model. They only call the class.
- Unicode: `\w`, `\s`, `str.isspace`, `str.lower` and `re.IGNORECASE` are modelled on ASCII only. For some non-ASCII characters, Python's `lower()` changes the length of the string, which would shift the offsets used at pdf_abstract_extractor.py:68-70; the model keeps lengths equal.
- Exceptions raised by the regular-expression engine or by PDF handling are not modelled.
