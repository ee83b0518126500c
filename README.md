# undiff1c — a verified model of the reset decision

undiff1c is a pre-commit helper for 1C:Enterprise form templates. When a
form is re-saved, the platform regenerates identifiers, interval bounds and
visual positions in `…Template.xml` files, although nothing meaningful
changed. With `--g`, the tool does the following:

- It reads the names of the modified and added files from
  `git diff-index --name-status --cached HEAD`. When that fails, it reads
  them from `git status --porcelain` instead.
- It keeps only the paths that end in `Template.xml`.
- It diffs each kept path against `HEAD`.
- It resets the path in the index (`git reset HEAD <path>`) when some
  modified file of that diff changes nothing but lines that open one of four
  generated tags, with as many such lines removed as added.

This project models that decision core in Dafny, in five modules and one
module of shared types:

- `Wrappers`: the `Option` type for results that may be missing.
- `Text`: the Python string operations the tool relies on:
  - the whitespace class of `\s` and `str.strip()`;
  - `startswith`;
  - the slices `s[1:]` and `s[-12:]`;
  - what `.*` matches;
  - `split('\n')`.
- `Seqs`: `filter` over a sequence and the notion of a subsequence.
- `StatusParsing`: the status-line pattern and the loop that collects file
  names from git's status output.
- `Classifier`: the hunk loop that gathers changed lines, the tag test, and
  the eligibility condition for one modified file.
- `Driver`: the suffix gate and the loop over the committed files:
  - the paths it resets, in order;
  - the inner loop that stops at the first eligible modified file.

The git processes are not run. The status output reaches the model as an
optional text. The outcome of `git diff` for every path is a map from path
to an optional sequence of parsed file-diffs; a path missing from the map
counts as a diff that could not be obtained. The result of the driver is
the sequence of paths it resets.

Points where the model is deliberately precise:

- `x[:1] == " "` is false for the empty string, so an empty line counts as a
  change (`Classifier.IsChanged`).
- `\s` and `str.strip()` use Python's full whitespace table, not only ASCII
  (`Text.IsWs`).
- The name captured by `(?P<name>.*)` ends at the first newline and keeps a
  trailing carriage return (`StatusParsing.ParseModifiedLineWithCr`).
- A file-diff with no changed line on either side satisfies the condition
  on lines 132-134 vacuously and is reset. This covers a diff with no hunks
  and one whose hunks hold context lines only. One might expect such a
  file never to be reset; the code resets it. The model follows the code,
  and `Classifier.NoChangesIsEligible` states that behaviour.

## Model

| member | source | states |
|---|---|---|
| StatusParsing.ParseStatusLine | src/undiff1c/undiff1c.py:19 | `modified.match(result)` and `match.group('name')`: a line starting with `M` or `A` followed by whitespace yields the text after the whitespace run, up to the first newline; any other line yields nothing; an accepted name holds no newline and is at least two characters shorter than the line |
| Text.IsWs | src/undiff1c/undiff1c.py:19 | the characters `\s` matches and `strip()` removes: Python's `str.isspace` table |
| Text.SplitLines | src/undiff1c/undiff1c.py:66 | `output.split('\n')`: the pieces between newlines, at least one, none holding a newline |
| StatusParsing.ParseStatusLineSound | src/undiff1c/undiff1c.py:19 | an accepted line starts with `M` or `A`; then comes a non-empty whitespace run; the name is the slice from the first non-whitespace character to the first newline or the end |
| StatusParsing.ParseStatusLineComplete | src/undiff1c/undiff1c.py:19 | conversely, every line of that shape is accepted, and the name is exactly that slice |
| StatusParsing.ParseStatusLineRejects | src/undiff1c/undiff1c.py:19 | a line shorter than two characters, one not starting with `M`/`A`, or one whose second character is not whitespace yields no name |
| StatusParsing.ParseAddedLine | src/undiff1c/undiff1c.py:19 | `A  x.xml` yields `x.xml`: the whole whitespace run is skipped |
| StatusParsing.ParseModifiedLineWithCr | src/undiff1c/undiff1c.py:19 | `M\tb.xml\r` yields `b.xml\r`: `.*` keeps the carriage return |
| StatusParsing.ParseTwoColumnLines | src/undiff1c/undiff1c.py:19 | porcelain entries ` M x` and `MM x` yield no name |
| StatusParsing.StatusNames | src/undiff1c/undiff1c.py:66-71 | the collected names are never more than the lines |
| StatusParsing.StatusNamesAppend | src/undiff1c/undiff1c.py:66-71 | the names of two blocks of lines are those of the first block followed by those of the second, so the order of lines is kept |
| StatusParsing.StatusNamesMembers | src/undiff1c/undiff1c.py:66-71 | a name is collected if and only if some line is accepted with that name |
| StatusParsing.EmptyLineContributesNothing | src/undiff1c/undiff1c.py:68 | removing an empty line anywhere does not change the names |
| StatusParsing.TrailingNewlineIgnored | src/undiff1c/undiff1c.py:66-68 | a final newline in git's output does not change the names |
| StatusParsing.ParseStatusOutput | src/undiff1c/undiff1c.py:66-73 | the parsing loop returns exactly the names of the accepted lines of `split('\n')`, in order, no more than there are lines |
| StatusParsing.GetListOfCommittedFiles | src/undiff1c/undiff1c.py:55-73 | the index query's output is parsed when it exists; otherwise the status query's output; otherwise no files are reported |
| Text.SplitLinesTrailingNewline | src/undiff1c/undiff1c.py:66 | `split('\n')` of a text ending with a newline has one extra, empty, last piece |
| Text.JoinSplitLines | src/undiff1c/undiff1c.py:66 | joining the pieces of `split('\n')` with newlines gives back the text |
| Text.SplitJoinLines | src/undiff1c/undiff1c.py:66 | splitting the join of newline-free pieces gives back the pieces |
| Text.StripIsSlice | src/undiff1c/undiff1c.py:129-130 | `strip()` removes exactly a whitespace prefix and a whitespace suffix |
| Text.StripPadded | src/undiff1c/undiff1c.py:129-130 | `strip()` of a text with non-whitespace ends, padded with whitespace, is that text |
| Text.LastN | src/undiff1c/undiff1c.py:112 | `s[-n:]` is a suffix of `s` of length `min(n, len(s))` for `n >= 1`, and all of `s` for `n == 0` (Python's `s[-0:]` is `s[0:]`) |
| Text.Strip | src/undiff1c/undiff1c.py:129-130 | `strip()`: the result is no longer than the text and neither starts nor ends with whitespace |
| Driver.IsCandidate | src/undiff1c/undiff1c.py:112 | the gate `file[-12:] == "Template.xml"` |
| Driver.IsCandidateIsSuffixTest | src/undiff1c/undiff1c.py:112-113 | the gate passes exactly the paths ending in `Template.xml`; a path of at most 12 characters passes only if it is `Template.xml` |
| Driver.CandidateExamples | src/undiff1c/undiff1c.py:112-113 | `a/FooTemplate.xml` and `Template.xml` pass; `a/Foo.xml` and `a/FooTemplate.xml.bak` do not |
| Classifier.IsChanged | src/undiff1c/undiff1c.py:126-127 | the filter `not x[:1] == " "`: a line is a change unless it starts with a space; the empty line counts as a change |
| Classifier.IsTagLine | src/undiff1c/undiff1c.py:129-130 | the filter `x[1:].strip().startswith(taglistchange)`, with `TagList` holding the four tags of line 106 |
| Classifier.ChangedLines | src/undiff1c/undiff1c.py:124-127 | `modifiedsource` / `modifiedtarget`: each hunk's lines of one side that are changes, concatenated in hunk order |
| Classifier.MatchedLines | src/undiff1c/undiff1c.py:129-130 | `sourcetags` / `targettags`: the changed lines that are tag lines, no more of them than changed lines |
| Classifier.Eligible | src/undiff1c/undiff1c.py:132-134 | the reset condition: as many tag lines as changed lines on each side, and as many tag lines on one side as on the other |
| Classifier.MarkerDecides | src/undiff1c/undiff1c.py:126-127 | for a non-empty line, it is a change if and only if its first character is not a space |
| Classifier.ChangedLinesAppend | src/undiff1c/undiff1c.py:124-127 | the changed lines of two runs of hunks are those of the first run followed by those of the second |
| Classifier.ChangedLinesAreFilteredLines | src/undiff1c/undiff1c.py:124-127 | the changed lines are the in-order filter, over all lines of the side, of the lines not starting with a space |
| Classifier.ContextLinesNotChanged | src/undiff1c/undiff1c.py:126-127 | no line starting with a space is ever a changed line |
| Classifier.ContextHunkChangesNothing | src/undiff1c/undiff1c.py:124-135 | inserting a context-only hunk anywhere changes neither side's changed lines nor the decision |
| Classifier.MatchedAreChangedSubsequence | src/undiff1c/undiff1c.py:129-130 | the matched lines are a subsequence of the changed lines, so there are no more of them; the counts are equal if and only if every changed line is a tag line |
| Classifier.EligibleIff | src/undiff1c/undiff1c.py:132-134 | eligible if and only if every changed source line and every changed target line is a tag line and both sides have as many changed lines |
| Classifier.UnmatchedLinePreventsReset | src/undiff1c/undiff1c.py:129-135 | one changed line on either side that is not a tag line makes the file-diff ineligible |
| Classifier.UnequalCountsPreventReset | src/undiff1c/undiff1c.py:132-134 | different numbers of changed lines on the two sides make the file-diff ineligible |
| Classifier.NoChangesIsEligible | src/undiff1c/undiff1c.py:124-135 | a file-diff whose lines are all context lines has no changed lines and is eligible |
| Classifier.NotTagWhenSecondChar | src/undiff1c/undiff1c.py:106 | every allow-listed tag starts with `<d`, so a text whose second character is not `d` opens none of them |
| Classifier.TaggedLineMatches | src/undiff1c/undiff1c.py:106-130 | a marker, whitespace, an allow-listed tag, its value and trailing whitespace make a tag line |
| Classifier.UntaggedLine | src/undiff1c/undiff1c.py:106-130 | a marker, whitespace, a text whose second character is not `d` and trailing whitespace make a line that is not a tag line |
| Classifier.OneLineHunk | src/undiff1c/undiff1c.py:124-135 | a hunk replacing one changed line by another is eligible if and only if both lines are tag lines |
| Classifier.ScenarioIdentifierChanged | src/undiff1c/undiff1c.py:122-135 | a hunk that only replaces one `<d3p1:id>` value by another is eligible |
| Classifier.ScenarioTitleChanged | src/undiff1c/undiff1c.py:122-135 | an identifier line replaced by a `<title>` line is not eligible |
| Classifier.ScenarioAsymmetricTags | src/undiff1c/undiff1c.py:122-135 | all changed lines are tag lines, but three are removed and two added: not eligible |
| Classifier.CollectChanged | src/undiff1c/undiff1c.py:124-127 | the hunk loop returns each side's changed lines |
| Classifier.CheckFileDiff | src/undiff1c/undiff1c.py:124-135 | the per-file-diff computation returns exactly the eligibility condition |
| Driver.DiffOf | src/undiff1c/undiff1c.py:115-116 | the outcome of `get_diff_forfile` for a path: the parsed file-diffs, or nothing when `git diff` failed |
| Driver.ShouldReset | src/undiff1c/undiff1c.py:111-139 | a path is reset when it passes the gate, its diff was obtained, and one of its modified files is eligible |
| Driver.ResetPlan | src/undiff1c/undiff1c.py:111-139 | the paths the loop resets: the listed paths that should be reset, in order, no more of them than paths |
| Driver.FirstEligible | src/undiff1c/undiff1c.py:122-139 | the inner loop finds a file-diff if and only if one is eligible; the one found is eligible and none before it is |
| Driver.ResetPlanMembers | src/undiff1c/undiff1c.py:111-139 | a path is reset if and only if it is listed, passes the gate, its diff was obtained, and one of its file-diffs is eligible |
| Driver.ResetPlanInOrder | src/undiff1c/undiff1c.py:111-139 | the resets are a subsequence of the listed paths: same order, no more of them |
| Driver.ResetPlanDistinct | src/undiff1c/undiff1c.py:138-139 | given a list without repeats, no path is reset twice |
| Driver.ProcessFiles | src/undiff1c/undiff1c.py:111-139 | the loop over the committed files resets exactly the planned paths, in order |
| Driver.ResetPlanAsWritten | src/undiff1c/undiff1c.py:115-118 | the loop as written yields no more resets than there are paths |
| Driver.AsWrittenAgreesWhenAllFetched | src/undiff1c/undiff1c.py:111-139 | when every candidate's diff was obtained, the loop as written and the intended loop reset the same paths |
| Driver.ResetPlanSkips | src/undiff1c/undiff1c.py:111-139 | a path that is not reset can be dropped from the list without changing the resets |
| Driver.FetchFailureHidesLaterResets | src/undiff1c/undiff1c.py:115-118 | for any paths before and after the first candidate whose diff failed: the loop as written makes exactly the resets of the paths before it, while the intended loop makes those and the resets of the paths after it |
| Driver.FetchFailureOfFirst | src/undiff1c/undiff1c.py:115-118 | on two paths whose first is a candidate without a diff, when the second path should be reset, the loop as written resets nothing and the intended loop resets exactly the second path |
| Driver.FetchFailureEndsRun | src/undiff1c/undiff1c.py:115-118 | a concrete pair of templates on which the two loops differ |

## Findings

| source | as written | input that shows it | evidently intended | confidence | as-written member | corrected member |
|---|---|---|---|---|---|---|
| src/undiff1c/undiff1c.py:116-118 | the error message for a missing diff calls `.forma` on a string; strings have no such method, so an `AttributeError` escapes `main` and the remaining paths are never looked at | committed files `aTemplate.xml`, `bTemplate.xml`; `git diff` fails for the first; the second only changes a `<d3p1:id>` value | log the error and `continue` with the next path, as the `continue` on line 118 shows | not executed; high (Python resolves the attribute at run time) | Driver.ResetPlanAsWritten, Driver.FetchFailureHidesLaterResets, Driver.FetchFailureEndsRun | Driver.ResetPlan, Driver.ProcessFiles |

## Left out

- The git subprocesses (`diff-index`, `status`, `diff`, `reset`) and
  `decode('utf-8')` are not modelled. Their outputs or outcomes are inputs
  to the model, and a reset is recorded as the path it applies to.
- The model does not write or read temporary files, and it does not parse
  unified diffs (lines 75-88, 119). The parsed hunks of each modified file
  are given directly. Only `modified_files` is consulted, as in the source,
  and file headers are not modelled.
- A `PatchSet` parse failure and a failing `git reset` raise exceptions that
  end the run. They are not modelled, because neither is an outcome the
  tool decides.
- `get_config_param` (lines 22-49) is not part of this model. The core never
  calls it.
- Argument parsing, the `--version` and `-v` options, logging and printing
  are not modelled. The model is the `--g` branch; without `--g` the tool
  does nothing.
