# Heading-order checker of the HTML tag sequence test

This project models the one piece of self-contained logic in a Selenium
acceptance-test suite for a property-listing website: the heading-order
checker `check_html_tag_sequence` of `tests/html_tag_sequence_test.py`, and the
report comment that `run_html_tag_sequence_test` builds from its result.

The checker takes the tag names of the page's heading elements in document
order. It lower-cases them, then walks the reference tags `h1`..`h6`. A
reference tag that does not occur is recorded as missing. For a tag that does
occur, the index of its first occurrence is compared with `last_tag_index`,
the first-occurrence index of the previous reference tag that occurred
(initially -1). The tag is recorded as breaking the order when its index is
smaller. Either way the tracker then takes the tag's index. The verdict is
correct exactly when nothing is missing and nothing is broken. The test then
writes a comment: a fixed sentence for a correct verdict. Otherwise it writes
a "Missing tags" part, a "Broken sequence" part (which lists the whole
detected sequence), or both joined by a space.

Files:

- `tag_case.dfy` (module `TagCase`): ASCII lower-casing of one tag name and of
  the whole list (the comprehension on line 15).
- `tag_sequence.dfy` (module `TagSequence`): the reference list, first
  occurrence (`list.index`), the checker as a method with a `for` loop proved
  against the specification function `Check`, and the lemmas about what the
  two lists hold.
- `sequence_report.dfy` (module `SequenceReport`): `str.join`, the comment as a
  case-by-case function, the list-appending comment builder as a method, and
  the lemmas that relate the comment to the checker's result.

Python's `list.index`, `in` on a list and `str.join` are modelled by the
functions `FirstIndex` and `Join` and by Dafny's own `in` on sequences.

Points where the behaviour could be read more than one way, each stated from
the code:

- Validity needs both lists empty (line 31); no variant ignores missing tags.
- The tracker is overwritten after a break (line 26 is outside the `if` on
  line 24), so it holds the first-occurrence index of the last present
  reference tag, not the largest index seen.
- Strings that are not heading tag names are accepted and never match a
  reference tag (line 22).
- Tags are compared as strings (`'h1'`..`'h6'`), not parsed into numeric
  levels.

## Model

| member | source | states |
|---|---|---|
| TagCase.LowerChar | tests/html_tag_sequence_test.py:15 | the lower-cased character is never a capital letter; a character that is not a capital letter is unchanged; a capital maps to its small letter |
| TagCase.Lower | tests/html_tag_sequence_test.py:15 | `tag.lower()` keeps the length, sends every ASCII capital to its small letter at the same position, leaves every other character in place, and leaves no capital letter |
| TagCase.LowerFixesExactlyLowerCase | tests/html_tag_sequence_test.py:15 | lower-casing leaves a string unchanged if and only if it holds no capital letter |
| TagCase.LowerIdempotent | tests/html_tag_sequence_test.py:15 | lower-casing twice is lower-casing once |
| TagCase.LowerAll | tests/html_tag_sequence_test.py:15 | the detected sequence has one entry per input tag, entry i is tag i lower-cased, and every entry is lower-case |
| TagCase.LowerAllIdempotent | tests/html_tag_sequence_test.py:15 | lower-casing the detected sequence again changes nothing |
| TagSequence.FirstIndex | tests/html_tag_sequence_test.py:23 | `tag_sequence.index(tag)` is an in-range position holding the tag, with no occurrence of the tag before it |
| TagSequence.Nearest | tests/html_tag_sequence_test.py:16-26 | the reference tag whose index the tracker holds is the nearest earlier reference tag that occurs, and -1 means no earlier reference tag occurs |
| TagSequence.Tracker | tests/html_tag_sequence_test.py:16-26 | the value `last_tag_index` holds when reference tag i is examined: -1 exactly when no earlier reference tag occurs, and otherwise the first-occurrence index of the nearest earlier reference tag that occurs |
| TagSequence.Check | tests/html_tag_sequence_test.py:14-32 | the four returned values: the detected sequence is the input lower-cased position by position; a tag is missing iff it is a reference tag absent from the detected sequence; every flagged tag is a reference tag that occurs; `h1` is never flagged; the verdict is correct iff both lists are empty |
| TagSequence.CheckHtmlTagSequence | tests/html_tag_sequence_test.py:7-32 | the loop returns exactly `Check(tags)`; the detected sequence has the input's length and holds each input tag lower-cased at the same position; the verdict is correct iff both lists are empty |
| TagSequence.MissingUpToExact | tests/html_tag_sequence_test.py:21-28 | after i iterations, `missing_tags` holds exactly the first i reference tags that do not occur, in h1..h6 order without repeats |
| TagSequence.MissingTagsExact | tests/html_tag_sequence_test.py:14-28 | `missing_tags` holds exactly the reference tags that do not occur in the lower-cased input, in h1..h6 order, each once |
| TagSequence.BrokenUpToExact | tests/html_tag_sequence_test.py:21-26 | after i iterations, `broken_sequence` holds exactly the flagged reference tags among the first i, in h1..h6 order without repeats |
| TagSequence.BrokenTagsExact | tests/html_tag_sequence_test.py:21-26 | `broken_sequence` holds exactly the flagged reference tags, each of which occurs in the input, in h1..h6 order, each once |
| TagSequence.BrokenMeansBeforeNearestPresent | tests/html_tag_sequence_test.py:16-26 | a reference tag is flagged iff it occurs and its first occurrence comes before that of the nearest earlier reference tag that occurs |
| TagSequence.FirstTagNeverBroken | tests/html_tag_sequence_test.py:16-24 | `h1` is never in `broken_sequence`, since the tracker starts at -1 |
| TagSequence.MissingBrokenDisjoint | tests/html_tag_sequence_test.py:21-28 | no tag is both missing and breaking the order |
| TagSequence.CheckSummary | tests/html_tag_sequence_test.py:14-32 | the four returned values together: detected is the lower-cased input; both lists are exact, ordered and disjoint; the verdict is correct iff every reference tag occurs and none is flagged |
| TagSequence.SameProfileSameFlag | tests/html_tag_sequence_test.py:22-25 | with the same heading profile and the tracker following the same reference tag, a reference tag is flagged in both inputs or in neither |
| TagSequence.SameProfileSameVerdict | tests/html_tag_sequence_test.py:21-28 | two lower-cased inputs with the same reference tags present, whose first occurrences come in the same relative order, get the same two lists |
| TagSequence.InsertionShiftsFirstIndex | tests/html_tag_sequence_test.py:23 | inserting a string other than the tag at or before the tag's first occurrence moves that occurrence by one; inserting after it leaves it in place |
| TagSequence.RedundantInsertionKeepsProfile | tests/html_tag_sequence_test.py:22-23 | inserting a non-heading string, or a tag that already occurred earlier, keeps which tags occur and the order of their first occurrences |
| TagSequence.VerdictDependsOnFirstOccurrences | tests/html_tag_sequence_test.py:15-31 | inserting anywhere a string whose lower-case form is no heading tag, or repeats a tag already seen, changes neither list nor the verdict |
| TagSequence.CheckIgnoresCase | tests/html_tag_sequence_test.py:15 | checking the already lower-cased sequence gives the same four values as checking the original |
| TagSequence.InOrderIsCorrect | tests/html_tag_sequence_test.py:21-31 | when all six tags occur with first occurrences in h1..h6 order, both lists are empty |
| TagSequence.CorrectIffAllPresentInOrder | tests/html_tag_sequence_test.py:21-31 | both lists are empty iff all six tags occur and their first occurrences come in h1..h6 order |
| TagSequence.EmptyInput | tests/html_tag_sequence_test.py:14-32 | empty input gives all six tags missing, none broken, an empty detected sequence and an incorrect verdict |
| TagSequence.FullSequenceCorrect | tests/html_tag_sequence_test.py:14-32 | `h1`..`h6`, in lower or upper case, is correct |
| TagSequence.FlagsAfterOverwrite | tests/html_tag_sequence_test.py:21-26 | for `h2, h3, h1` the three loop steps flag `h2` only: after the break the tracker holds h2's index 0, which h3's index 1 is not below |
| TagSequence.TrackerOverwrittenAfterBreak | tests/html_tag_sequence_test.py:24-26 | for `h2, h3, h1` only `h2` is flagged, because the tracker takes h2's index after the break |
| TagSequence.FlagsInReferenceOrder | tests/html_tag_sequence_test.py:21-26 | for `h1, h3, h2` the three loop steps flag `h3` only: h2's index 2 sets the tracker before h3, whose index 1 is below it |
| TagSequence.ReferenceOrderScan | tests/html_tag_sequence_test.py:21-26 | for `h1, h3, h2` the flagged tag is `h3`, as the scan follows h1..h6 and not the input order |
| SequenceReport.Join | tests/html_tag_sequence_test.py:66-70 | `sep.join(parts)` is empty for no parts, begins with the first part, ends with the last part, and is `a + sep + b` for two parts |
| SequenceReport.JoinAppend | tests/html_tag_sequence_test.py:66-70 | joining one more part after at least one is the earlier join, then `sep`, then the new part, so every part appears in order with one separator between neighbours |
| SequenceReport.Comment | tests/html_tag_sequence_test.py:61-70 | the comment is the fixed sentence when correct; empty when incorrect with both lists empty; begins with "Missing tags: " and the joined missing tags when some are missing; ends with "Broken sequence: " and the joined detected sequence when some tag is flagged |
| SequenceReport.BuildComment | tests/html_tag_sequence_test.py:61-70 | appending the parts to a list and joining them with a space yields exactly the case-by-case comment |
| SequenceReport.CommentParts | tests/html_tag_sequence_test.py:61-70 | when the verdict is correct iff both lists are empty, and both joined lists hold no capital letter, the comment is the fixed sentence iff correct, contains "Missing tags: " iff tags are missing, and contains "Broken sequence: " iff some tag is flagged |
| SequenceReport.CheckListsLowerCase | tests/html_tag_sequence_test.py:15-28 | the joined missing tags and the joined detected sequence of the checker's result hold no capital letter |
| SequenceReport.CommentOfCheck | tests/html_tag_sequence_test.py:58-70 | for the checker's own result: the three iff statements above; the broken part lists the whole detected sequence, and the two parts are joined by a single space |

## Left out

- Browser plumbing: navigating to the page, waiting for `h1`, querying the
  heading elements and reading their tag names (lines 42-55). The model starts
  from the list of tag names.
- Writing the report row and the spreadsheet, the console messages, and the
  exception handler that records a failed row (lines 72-93). They are I/O
  only.
- TagCase.Lower: models ASCII lower-casing only. Python's `str.lower` also
  lower-cases non-ASCII letters, and can change a string's length. No
  non-ASCII character lower-cases to `h` or to an ASCII digit, so only the
  returned detected sequence could differ, never the two lists or the verdict.
- The rest of the suite (driver set-up, URL status via HTTP HEAD, script-data
  scraping, the currency, image-alt and h1 tests, the settings holder and the
  dispatch in `main.py`) is browser, network or spreadsheet I/O with no logic
  of its own worth a model.
