# Annual-report requirements pipeline

A model of the three-stage text pipeline in `example.py`. It reads the lines of a
municipal bond official statement and works in three steps:

1. It finds the section titled "Content of Annual Reports". The section runs from
   its numbered heading (`Section 6. Content of Annual Reports.`) up to the next
   numbered section heading.
2. It splits that section into list items. Items are introduced by a line-start
   label such as `(a) ` or `3. `. Each item is cleaned to ASCII letters, digits
   and spaces, and trimmed at both ends. Two spaces can still stand together:
   the collapse pass only halves a run, and the filter that runs after it can
   bring two spaces together. Boilerplate "stop groups" are dropped.
3. It classifies the remaining requirements under five fixed yes/no flags: budget,
   attendance, audited financial statements, assessed valuation and top taxpayers.

Modules, one per file:

- `Wrappers` (`wrappers.dfy`): the `Option` type.
- `Text` (`text.dfy`): the parts of Python's `str` and `re` the pipeline relies on, restricted to ASCII:
  - whitespace as `str.isspace()` defines it;
  - `strip()`;
  - whitespace removal;
  - lower-casing;
  - literal search.
- `SectionExtractor` (`extractor.dfy`): `getContentOfAnnualReports`.
  - `ScanSection` is the source's loop, with the in-section flag and the collected lines, over the two line tests.
  - `ContentOfAnnualReports` runs it with the two heading tests.
  - Its specification is `ExtractedSection`, defined by the first opening line and the first later closing line.
- `StopGroups` (`stop_groups.dfy`): `isStopGroup`.
- `Segmenter` (`segmenter.dfy`): `getAnnualReportRequirements`.
  - The split pattern `\n\s*\([^()]*\) |\n\d\. ` is a hand-written scanner that is proved to find exactly the regular-expression matches.
  - `re.split(...)[1:]` is a leftmost, non-overlapping scan.
  - Each cleanup substitution is its own function, and `Clean` applies them in the source's order.
  - `CleanGroups` is the source's loop over the groups, taking the cleanup and the stop-group test as parameters.
  - `AnnualReportRequirements` splits the section and runs the loop with `Clean` and `StopGroups.IsStopGroup`.
- `Classifier` (`classifier.dfy`): `classifyRequirements`.
  - The five-key dictionary is a record `Flags` with one field per key.
  - `RaiseFlags` is the source's loop over the requirements, taking the keyword test as a parameter.
  - `ClassifyRequirements` runs it with the five keyword searches.

`ScanSection`, `CleanGroups` and `RaiseFlags` take their tests as parameters. `ContentOfAnnualReports`, `AnnualReportRequirements` and `ClassifyRequirements` supply the concrete tests. This keeps the concrete string searches out of the loop proofs.

Case-insensitive matching is modelled by lower-casing the text and comparing it with lower-case literals. Heading tests work on the line with its whitespace removed.

Two consequences of the code's own definitions:

- **Stop-group gap.** The gap `.{2,10}` allows 2 to 10 characters. So "to the extent not already included in the audited financial statements", with 16 characters in the gap, is not a stop group. `StopGroups.HasExtentClause` keeps the 2-10 bound.
- **Document without a section.** A document with no target heading yields `None`. So does one whose section is never closed by a later numbered heading, because the extractor falls off the end of its loop. The extractor is modelled with `Option<string>`, and `SectionExtractor.ExtractedSectionFound` states when the result is absent. The segmenter is defined only on a string.

## Model

| member | source | states |
|---|---|---|
| SectionExtractor.ContentOfAnnualReports | example.py:11-37 | the extractor returns exactly `ExtractedSection(lines)`: the stripped text of the lines from the first target heading up to the first later numbered heading, or `None` |
| SectionExtractor.ScanSection | example.py:16-37 | the flag-and-collect loop computes `SectionOf`. Once a line passes `opens`, lines are collected until a later line passes `closes`; that line ends the scan and is not collected. The opening line is never tested for closing. If the input ends first, the result is `None` |
| SectionExtractor.ExtractedSectionFound | example.py:22-37 | a section is returned if and only if some target heading line is followed, on a later line, by a numbered heading line |
| SectionExtractor.ExtractedSectionText | example.py:25-37 | given the first target heading at `start` and the first numbered heading after it at `stop`, the result is the strip of the concatenation of `lines[start..stop]`: the heading line is included and the closing line is not |
| SectionExtractor.LeadingLinesIgnored | example.py:25-37 | lines placed in front of the document that hold no target heading do not change the result: text before the section never contributes |
| SectionExtractor.IsHeadingLine | example.py:25-27 | a line is a numbered heading exactly when, with its whitespace removed and lower-cased, it starts with `section`, one or two digits and a full stop |
| SectionExtractor.IsTargetLine | example.py:31-33 | a line opens the section exactly when, with its whitespace removed and lower-cased, it starts with a numbered heading immediately followed by `contentofannualreports.` |
| SectionExtractor.TargetHeadingRecognised | example.py:31-33 | the line `section6.contentofannualreports.` passes the target test |
| SectionExtractor.TargetLineIsHeadingLine | example.py:25-34 | every target heading is also a numbered heading, so the exit test must be skipped on the line that sets the flag, as the source's flag order ensures |
| SectionExtractor.NumberedPrefixEndFindsMatch | example.py:26 | the scanner for `Section\d{1,2}\.` at the start of the squashed line returns `Some(e)` exactly when the pattern matches the first `e` characters; two digits are tried before one |
| SectionExtractor.HeadingIgnoresSpacing | example.py:26-33 | inserting any whitespace character anywhere in a line changes neither the heading test nor the target test |
| SectionExtractor.HeadingIgnoresCase | example.py:26-33 | two lines that agree up to the case of their letters are both headings or both not, and both target headings or both not |
| StopGroups.HasExtentClause | example.py:49 | true exactly when, at some index and for some gap width from 2 to 10, "to the extent not " is followed by that many characters other than a line feed and then by " in the audited financial statements" |
| StopGroups.IsStopGroup | example.py:39-52 | a group is a stop group exactly when its lower-cased text contains "in addition to any of the information expressly required", or "any or all of the items listed above", or the extent clause |
| Text.Contains | example.py:45-47 | the literal search is true if and only if the pattern occurs at some index of the text |
| Text.JoinAppend | example.py:28 | `''.join` of two lists of parts is the join of each, concatenated: the collected lines appear in order, each whole |
| Text.Strip | example.py:73 | the result is a slice of the input with only whitespace before and after it; it neither starts nor ends with whitespace; it is empty exactly when the input is all whitespace |
| Text.RemoveWhitespace | example.py:27 | the squashed line holds no whitespace and is no longer than the line |
| Text.RemoveWhitespaceChar | example.py:27 | a single character is dropped if it is whitespace and kept otherwise |
| Text.RemoveWhitespaceAppend | example.py:27 | removing whitespace distributes over concatenation; with the single-character case this fixes the result: every non-whitespace character survives, in order |
| Segmenter.DelimiterAtFindsMatch | example.py:69 | the scanner `DelimiterAt` reports a match ending at `e` for the split pattern at index `p` exactly when the pattern matches `s[p..e]`, so the match at an index is unique |
| Segmenter.NextDelimiter | example.py:69 | the cut found from `p` is a match, and no match of the split pattern starts between `p` and it: the search is leftmost |
| Segmenter.DelimitersFromSound | example.py:69 | every cut is a match of the split pattern, and the cuts come in document order without overlapping |
| Segmenter.DelimitersFromComplete | example.py:69 | every match of the split pattern lies inside some cut, so none is skipped |
| Segmenter.Groups | example.py:69 | the groups are exactly the texts between consecutive cuts, one per cut, in order. The text before the first cut is dropped |
| Segmenter.ReplaceNewlines | example.py:71 | the same length as the group, with each line feed turned into a space and every other character kept in place |
| Segmenter.CollapseDoubleSpaces | example.py:72 | the collapse removes only spaces: every other character survives, in order |
| Segmenter.CollapseSpaceRun | example.py:72 | in the left-to-right pass, a run of `n` spaces followed by a non-space comes out as `(n + 1) / 2` spaces |
| Segmenter.CollapseIsSinglePass | example.py:72 | three spaces become two and only a second pass makes them one: the collapse is not idempotent |
| Segmenter.KeepAllowed | example.py:73 | the result holds only ASCII letters, digits and spaces and is no longer than the input |
| Segmenter.KeepAllowedChar | example.py:73 | a single character survives exactly when it is an ASCII letter, digit or space |
| Segmenter.KeepAllowedAppend | example.py:73 | the filter distributes over concatenation; with the single-character case this fixes the result: the allowed characters survive, in order |
| Segmenter.FilterCanPairSpaces | example.py:72-73 | removing a disallowed character between two spaces leaves them together: "a - b" becomes "a  b" after the collapse has run |
| Segmenter.KeepAllowedIdempotent | example.py:73 | removing the disallowed characters twice is the same as once |
| Segmenter.Clean | example.py:71-73 | a cleaned group holds only ASCII letters, digits and spaces, and has no space at either end |
| Segmenter.RequirementsAreClean | example.py:70-76 | every requirement is clean, is not a stop group, and is the cleanup of one of the groups |
| Segmenter.KeptGroupsInOrder | example.py:70-76 | the requirements are the cleanups of a strictly increasing selection of the groups, in document order, and every group left out cleans to a stop group |
| Segmenter.RequirementsBoundedByDelimiters | example.py:69-76 | there are never more requirements than matches of the split pattern |
| Segmenter.CleanGroups | example.py:70-76 | the loop returns `CleanAndFilter(groups, clean, isStop)`: the cleanup of each group, in the groups' order, except those the stop test accepts |
| Segmenter.AnnualReportRequirements | example.py:54-78 | the loop returns `Requirements(section)`: the groups of `"\n" + section`, cleaned in the source's order of substitutions, with stop groups dropped |
| Classifier.KeysAreDistinct | example.py:91-95 | the five categories are reported under five distinct keys |
| Classifier.Mentions | example.py:98-111 | a requirement mentions a category exactly when its lower-cased text contains one of the category's lower-case keywords; an alternation such as `attendance\|enrollment` contributes both words |
| Classifier.FlagMeaning | example.py:96-111 | after `n` requirements, the flag for a category is raised exactly when one of the first `n` requirements mentions it |
| Classifier.FlagMonotone | example.py:96-111 | a flag once raised is never reset by later requirements |
| Classifier.RaiseFlags | example.py:91-111 | starting from all-false, the loop leaves each flag raised exactly as `FlagsAfter` over all requirements says |
| Classifier.ClassifyRequirements | example.py:81-112 | the returned dictionary is `Classification(reqs)` |
| Classifier.ClassificationReports | example.py:96-112 | each entry is true exactly when some requirement mentions its keyword, ignoring case. The keywords are "budget"; "attendance" or "enrollment"; "audited financial statements"; "assessed valuation"; "tax payers" or "taxpayers" |
| Classifier.NoRequirementsNoFlags | example.py:91-95 | with no requirements every flag is false |
| Classifier.ClassificationIgnoresOrder | example.py:96-112 | the result depends only on which requirements occur, not on their order or repetitions |

## Left out

- The driver script (example.py:115-120): the file list, opening the files and printing the results. The extractor takes the document as a sequence of lines, each with its own line terminator.
- The composition of the stages. The driver would pass the extractor's `None` to the segmenter, where `'\n' + None` raises a type error. The model keeps the extractor's `Option` result and gives the segmenter a string; the failing call is not modelled.
- Python's general regular-expression engine. Each fixed pattern of the source is a dedicated scanner or predicate.
- Unicode. The model uses ASCII only:
  - whitespace is the ASCII characters Python's `str.isspace()` accepts: tab, line feed, vertical tab, form feed, carriage return, 0x1C-0x1F and space;
  - `\d` is `0-9`;
  - case-insensitive matching folds only `A-Z`.
- Text.ContainsIgnoreCase: lower-cases the text only. It is the source's case-insensitive search only because every literal it is given is written in lower case, as all of them are here.
- Classifier.ClassifyRequirements: the dictionary is a record with one field per fixed key. Python's dictionary identity and key order are not modelled.
