# Diff coverage engine of python-coverage-comment, in Dafny

This project models the part of the coverage-comment tool that turns a pull
request's diff and a coverage report into the numbers and annotations the
comment shows:

- **Diff parser** (`DiffParser`, `diff_parser.dfy`). `parse_diff_output`
  reads the lines of a unified diff. For every `@@` hunk it yields the
  new-file line numbers from the first added line to the last added line,
  and it files them under the path of the last `+++ b/` marker.
- **Diff-coverage calculator** (`CoverageModel`, `coverage.dfy`). It holds
  the report's dataclasses and `compute_coverage`. It also holds
  `get_diff_coverage_info`, which intersects each file's added lines with
  the report's executed and missing lines and totals the counts. The
  module-level function and the `BaseCoverage` method are the same code, so
  one model serves both. The `violation_lines` property is `FileDiffCoverage.ViolationLines`, another name for the missing statements.
- **Contiguous grouper** (`Groups`, `groups.dfy`). `compute_contiguous_groups`
  collapses line numbers into runs of consecutive numbers. It then merges
  neighbouring runs across small gaps that hold no separator line.
- **Annotations** (`Annotations`, `groups.dfy`). These are the check-run
  annotations made from groups, and their dictionary form.
- **Grouper callers** (`DiffGrouper`, `diff_grouper.dfy`). `get_missing_groups`
  and `get_diff_missing_groups` choose separators, joiners and a maximum gap
  of 3.
- **Comment helpers** (`Template`, `template.dfy`). These are the comment
  marker, pluralisation, percentage truncation, and the choice, ranking and
  truncation of the files listed in the comment.
- **Badge** (`Badge`, `badge.dfy`). This is the colour thresholds and the
  escaped `label-message-color` code of a shields.io static badge.

Shared pieces sit in their own modules:

- `Wrappers` holds `Option` and `Result`. Every error the source raises is an
  `Err` value.
- `Text` holds Python's `str.split()`, `str.split(sep)`, `int()` and `str()`
  on integers.
- `Dicts` models a Python dict as an insertion-ordered sequence of
  (key, value) pairs with distinct keys.
- `Sorting` holds a stable `sorted` and `sorted(set(...))`.
- `Orders` holds Python's lexicographic comparison of strings and of
  `pathlib` paths.

Decimals are exact `real`s and paths are strings.

Three facts about the code that a reader of its docstrings might not
expect, and which the model follows:

- A hunk is not read by counting `length` new-file lines. The length is
  ignored, although the docstring at codecov/coverage.py:255-261 pairs
  `+61,9` with three lines. The hunk runs until the first line that is
  not context, removed or added. It yields the whole range from its first to its last added line,
  so interior context lines are included and trailing ones are not.
- The lines of one file are appended in diff order. They are not sorted.
- The report-wide joiners are the lines from 2 up to, but not including,
  the statement count.

The badge code is ambiguous when a part after the first starts with a dash,
because the shields.io format cannot tell such a dash from a separator.
`Badge.StaticBadgeCodeAmbiguous` shows this. `Badge.StaticBadgeCodeRoundTrip`
proves that the code reads back when no part after the first starts with a
dash.

## Model

| member | source | states |
|---|---|---|
| CoverageModel.ComputeCoverage | codecov/coverage.py:81-84 | the ratio is 1 when the total is 0, whatever the covered count, and lies in [0, 1] when 0 <= covered <= total |
| CoverageModel.CoverageRatio | codecov/coverage/base.py:76-79 | for a non-zero total, the ratio times the total is the covered count: it is the exact quotient |
| CoverageModel.Intersect | codecov/coverage.py:205-211 | the elements of the result are exactly those of both inputs, as `set(a) & set(b)` |
| CoverageModel.FileDiffStatements | codecov/coverage.py:205-226 | covered statements = sorted(executed ∩ added), missing statements = violation lines = sorted(missing ∩ added), added statements = sorted union of the two, added lines kept as given, percent = compute_coverage(#covered, #added statements) |
| CoverageModel.FileDiffCounts | codecov/coverage/base.py:116-135 | covered and missing statements are each no more than the added statements, and the file ratio lies in [0, 1] |
| CoverageModel.DiffCoverageInfo | codecov/coverage.py:191-238 | the result has an entry for exactly the diff's paths the report knows, in diff order |
| CoverageModel.DiffTotals | codecov/coverage.py:191-238 | the changed-line count is the sum of the lengths of every added-line list, matched or not; total lines and total violations are the sums of the entries' added and missing statement counts; 0 <= violations <= lines |
| CoverageModel.DiffPercent | codecov/coverage/base.py:125-141 | the overall percent is compute_coverage(lines - violations, lines) of the two totals alone, lies in [0, 1], and is 1 with no added statement |
| CoverageModel.AccumulateSums | codecov/coverage/base.py:108-126 | the loop's three counters equal the sums over the entries it has produced and over all added-line lists |
| CoverageModel.AccumulateEntries | codecov/coverage/base.py:111-137 | every entry the loop produced is the per-file diff coverage of that path's added lines against that path's report data |
| CoverageLemmas.DiffFileEntry | codecov/coverage/base.py:108-137 | a path has an entry iff the diff adds lines to it and the report knows it, and the entry is that file's diff coverage |
| CoverageLemmas.FileWithoutStatements | codecov/coverage/base.py:116-137 | a known file whose added lines hold no statement still gets an entry: empty statement lists, its added lines, percent 1 |
| CoverageLemmas.UnknownPathIgnored | codecov/coverage.py:197-203 | a last diff path the report does not know leaves entries, totals and percent unchanged and only raises the changed-line count |
| CoverageLemmas.KnownPathAppended | codecov/coverage.py:205-226 | a last diff path the report knows appends its entry and adds its added and missing statement counts to the totals |
| CoverageLemmas.KnownPathsMember | codecov/coverage.py:197-203 | a path is among the result's keys iff it is a key of the diff and of the report |
| DiffParser.HunkStartOfHeader | codecov/coverage.py:262 | reading a header `@@ <old> +start[,len] @@ ...` gives back `start`, whatever the length and the text after it |
| DiffParser.ParseHunk | codecov/coverage.py:254-293 | a hunk fails exactly when its header cannot be read, with the header-error kind; otherwise it moves past the header |
| DiffParser.ReadHunkExtent | codecov/coverage.py:264-291 | a hunk consumes the longest run of context, removed and added lines after its header, and yields nothing iff that run has no added line |
| DiffParser.HunkAddedRange | codecov/coverage.py:264-293 | with f and l the first and last added lines, the hunk yields every new-file number from that of f to that of l, both included; a line's number is the start plus the context and added lines before it |
| DiffParser.SkipLeadingSpec | codecov/coverage.py:264-276 | the leading phase stops at the first added line or the hunk's end, skips no added line, and counts one number per context line |
| DiffParser.ScanBodyLast | codecov/coverage.py:278-291 | the remembered number after the body phase is that of the last added line |
| DiffParser.ParseDiffOutput | codecov/coverage.py:241-301 | every path in a successful result received at least one line |
| DiffParser.HunksFrom | codecov/coverage.py:247-295 | the walk of the loop: the hunk headers it reaches, in ascending order, each with the file of the last `+++ b/` marker before it and the lines its hunk yields, and the first malformed header it stops at |
| DiffParser.ParseFromTrace | codecov/coverage.py:247-301 | the loop is that walk followed by filing each hunk's lines under its file |
| DiffParser.CollectFails | codecov/coverage.py:296-298 | filing the hunks fails, with the format error, exactly when some hunk yields lines while no file is current |
| DiffParser.CollectFiled | codecov/coverage.py:299 | a successful filing appends to each path's list exactly the lines its hunks yield, in diff order |
| DiffParser.CollectKeeps | codecov/coverage.py:299 | after a successful filing a path has an entry exactly when it had one or some hunk yields lines under it |
| DiffParser.ParseDiffOutputSpec | codecov/coverage.py:241-301 | the result is the format error iff a reached hunk yields lines with no current file; the header error iff none does and the walk stops at a malformed header, naming that line; otherwise each path maps to the in-order concatenation of the non-empty ranges of its hunks, and the keys are exactly the paths with such a range |
| DiffParser.ParseFromExtends | codecov/coverage.py:295-299 | the loop only appends: each path keeps its place and its list only grows at the end, new paths come last, and no path is added without lines |
| DiffParser.HunkBeforeFileFails | codecov/coverage.py:296-298 | a first hunk that yields lines before any `+++ b/` marker makes the parse fail with the format error (the general case, any reached hunk, is `DiffParser.ParseDiffOutputSpec`) |
| DiffParser.NoAddedLinesNoEntries | codecov/coverage.py:295-299 | lines without any added line yield no entry and never need a file: the parse keeps its map or fails only on a malformed header |
| DiffParser.SkipPreamble | codecov/coverage.py:247-252 | before the first file marker, lines that name no file and open no hunk are skipped without effect |
| DiffParser.ReplaceOneLineExample | codecov/coverage.py:241-301 | a diff replacing the only line of `test.txt` yields `{test.txt: [1]}` |
| Groups.RunsExpand | codecov/groups.py:107-115 | the runs, expanded, spell the values out again, sorted or not |
| Groups.RunsMaximal | codecov/groups.py:108 | no run ends one below where the next one starts, so no two runs could be one |
| Groups.RunsMember | codecov/groups.py:107-115 | a number lies in some run iff it is one of the values |
| Groups.ComputeContiguousGroups | codecov/groups.py:91-137 | no values give no groups, and there are never more groups than runs |
| Groups.MergeableIff | codecov/groups.py:125-130 | runs merge iff the gap without joiners has at most max_gap lines and every separator in the gap is a joiner |
| Groups.JoinerNeverBlocks | codecov/groups.py:125-130 | a joiner that is also a separator never blocks a merge |
| Groups.ContiguousGroupsShape | codecov/groups.py:107-137 | for ascending values the groups are well formed, ascending and disjoint, start and end on values, and no two neighbours pass the merge test |
| Groups.ContiguousGroupsCover | codecov/groups.py:107-137 | for ascending values every value lies in exactly one group |
| Groups.ContiguousGroupsNoBridge | codecov/groups.py:117-135 | a separator that is not a joiner lies in a group only if it is a value |
| Groups.ReduceBoundaries | codecov/groups.py:117-135 | a run starts a group iff the reducer's test fails between it and the run before |
| Groups.JoinerBridgesExample | codecov/groups.py:91-137 | values s..s+2 and s+4..s+5 with s+3 a joiner form the single group (s, s+5) |
| Groups.SeparatorSplitsExample | codecov/groups.py:91-137 | with s+3 a separator instead, the groups are (s, s+2) and (s+4, s+5) |
| Annotations.CreateMissingCoverageAnnotations | codecov/groups.py:58-87 | one annotation per group, in order, with the group's file, start and end, the requested type and the title for the branch flag |
| Annotations.MessageRoundTrip | codecov/groups.py:72-75 | the message names the group's lines: reading it back gives start and end |
| Annotations.MessagePlural | codecov/groups.py:72-75 | the message says `on lines` iff the group spans more than one line |
| Annotations.TitleBranch | codecov/groups.py:82 | the title is "Missing branch coverage" for branch annotations and "Missing coverage" otherwise, so the two differ |
| Annotations.AnnotationsRead | codecov/groups.py:70-87 | every annotation's message reads back as the annotation's own start and end |
| Annotations.ToDictRoundTrip | codecov/groups.py:43-51 | the dictionary form holds all six fields: the annotation is rebuilt from it |
| DiffGrouper.ProjectJoiners | codecov/diff_grouper.py:19-26 | the report-wide joiners never include a separator |
| DiffGrouper.DiffJoiners | codecov/diff_grouper.py:52-58 | the diff's joiners never include a separator |
| DiffGrouper.FileGroupsSpec | codecov/diff_grouper.py:28-38 | a file's groups are empty iff it has no lines, ascending and disjoint, start and end on its lines, and leave no mergeable neighbours at gap 3 |
| DiffGrouper.FileGroupsCover | codecov/diff_grouper.py:28-38 | every given line lies in exactly one of the file's groups |
| DiffGrouper.MissingGroupsOfFile | codecov/diff_grouper.py:14-38 | the report's groups of a file are its missing lines grouped with executed and excluded lines as separators, lines 2 to the statement count as joiners, and gap 3 |
| DiffGrouper.MissingGroupsFiles | codecov/diff_grouper.py:34-38 | every group names a file of the report |
| DiffGrouper.MissingGroupsSkipCovered | codecov/diff_grouper.py:28-38 | a file without missing lines gets no group |
| DiffGrouper.MissingGroupsSpec | codecov/diff_grouper.py:28-38 | with ascending missing lines a file's groups are ascending, start and end on missing lines, and exist iff it has missing lines |
| DiffGrouper.MissingGroupsCover | codecov/diff_grouper.py:28-38 | every missing line lies in exactly one group of its file |
| DiffGrouper.MissingGroupsNoBridge | codecov/diff_grouper.py:19-33 | no group of the report takes in an executed or excluded line that is not missing |
| DiffGrouper.DiffBlocksSpec | codecov/diff_grouper.py:45-46 | the per-file groups are built iff every diff file is known to the report; otherwise the error names the first unknown file |
| DiffGrouper.DiffMissingGroupsSpec | codecov/diff_grouper.py:41-70 | the diff's grouping fails iff a diff file is unknown to the report (the `KeyError`), on the first such file |
| DiffGrouper.DiffMissingGroupsOfFile | codecov/diff_grouper.py:45-70 | a diff file's groups are its missing statements grouped with executed and excluded lines as separators and its added lines as joiners |
| DiffGrouper.DiffMissingGroupsOfDiffCoverage | codecov/diff_grouper.py:45-46 | grouping a diff computed from the same report never fails |
| DiffGrouper.DiffEntryAscending | codecov/coverage.py:208-223 | a diff computed from a report lists each file's missing statements in ascending order |
| DiffGrouper.DiffGroupsSpec | codecov/diff_grouper.py:60-70 | a diff file's groups are ascending, start and end on missing statements, and exist iff it has missing statements |
| DiffGrouper.DiffGroupsCover | codecov/diff_grouper.py:60-70 | every missing statement lies in exactly one group of its file |
| DiffGrouper.DiffGroupsNoBridge | codecov/diff_grouper.py:52-64 | no group of the diff takes in an executed or excluded line that is not a missing statement |
| DiffGrouper.DiffGroupsFiles | codecov/diff_grouper.py:45-70 | every group of the diff names a file of the diff |
| DiffGrouper.FlattenOrder | codecov/diff_grouper.py:45-70 | groups come file by file: a group of an earlier file never follows one of a later file |
| Template.GetMarker | codecov/template.py:19-23 | the marker starts with the fixed comment head |
| Template.MarkerRoundTrip | codecov/template.py:19-23 | the id is read back from the marker; a missing or empty id reads back as empty |
| Template.MarkerInjective | codecov/template.py:22-23 | two markers agree iff their ids agree, a missing id counting as empty |
| Template.Pluralize | codecov/template.py:26-30 | the singular form when the number is 1, the plural form otherwise |
| Template.PercentageValue | codecov/template.py:38-44 | for val >= 0 the result r satisfies 0 <= r <= 100*val < r + 10^-precision, and symmetrically below zero |
| Template.PercentageValueUnique | codecov/template.py:38-44 | the result is the only number with `precision` decimals at most 100*val and less than one step below it |
| Template.PercentageValueOnGrid | codecov/template.py:40-43 | the result has at most `precision` decimals |
| Template.PercentageValueExact | codecov/template.py:33-44 | a percentage that already has at most `precision` decimals is returned unchanged |
| Template.SortAndTruncateFiles | codecov/template.py:200-204 | the listing has length min(len, max_files) by Python slice rules, or len without a bound, and is a sub-multiset of the input |
| Template.SortAndTruncateOrdered | codecov/template.py:204 | the listing is sorted by path |
| Template.SortAndTruncatePartition | codecov/template.py:201-203 | the listing and the files cut off together are exactly the input files |
| Template.SortAndTruncateRanked | codecov/template.py:201-218 | every file cut off has a sort key at most that of every listed file |
| Template.SortAndTruncateAll | codecov/template.py:202-204 | without a bound every input file is listed |
| Template.ChangedFilesMember | codecov/template.py:153-165 | a report file is a changed file iff its diff entry exists and has an added statement, and it carries that entry |
| Template.SelectChangedFiles | codecov/template.py:141-167 | a file is among the changed files exactly when it is a report file whose diff entry has an added statement, carried with that entry; the count is their number, and the listing is their sorted and truncated form |
| Template.SelectChangedFilesListed | codecov/template.py:153-167 | a listed changed file has an added statement and is a report file |
| Template.OtherFilesMember | codecov/template.py:182-195 | a report file is chosen iff it is not a changed file and has statements, and it is chosen without a diff |
| Template.SelectFilesListed | codecov/template.py:170-197 | a listed file is a report file, not a changed file, has statements and no diff |
| Orders.PathOrder | codecov/template.py:204 | the order on paths is total, transitive and antisymmetric |
| Orders.PathOrderNotStringOrder | codecov/template.py:204 | paths compare part by part, not as plain strings: `a/b` comes before `a.b` |
| Badge.GetBadgeColor | codecov/badge.py:12-23 | brightgreen iff rate >= minimum green; orange iff minimum orange <= rate < minimum green; red iff the rate is below both |
| Badge.BadgeColorMonotone | codecov/badge.py:17-23 | a higher rate never gives a worse colour |
| Badge.StaticBadgeCode | codecov/badge.py:26-31 | the code fails iff the colour or the message is empty |
| Badge.EscapeCons | codecov/badge.py:31 | escaping works character by character: `_` becomes `__`, `-` becomes `--`, anything else stays |
| Badge.EscapeLength | codecov/badge.py:31 | an escaped part is longer by the number of its `_` and `-` characters |
| Badge.UnescapeEscape | codecov/badge.py:31 | escaping loses nothing: undoubling gives the part back |
| Badge.EscapedDashesPaired | codecov/badge.py:31 | an escaped part has exactly twice as many dashes as the part |
| Badge.KeptParts | codecov/badge.py:31 | with message and colour present, the code keeps the label iff it is not empty |
| Badge.StaticBadgeCodeThree | codecov/badge.py:31 | with three non-empty parts the code is the three escaped parts joined by single dashes |
| Badge.StaticBadgeCodeRoundTrip | codecov/badge.py:26-31 | when message and colour do not start with a dash, the code decodes to the non-empty parts among label, message and colour |
| Badge.StaticBadgeCodeAmbiguous | codecov/badge.py:31 | moving a dash from the end of the label to the start of the message gives the same code |

## Left out

- Loading the report (`get_coverage_info`, `extract_info`, the pytest report class): file I/O and JSON decoding. The model starts from the decoded `Coverage`.
- The diff as text: `splitlines()` is not modelled. The parser takes the diff's lines.
- `pathlib` normalisation: a path is the string after `+++ b/` and a report key, compared verbatim.
- CoverageModel.ComputeCoverage: the quotient is exact, whereas Python's `Decimal` division rounds to 28 significant digits.
- Template.PercentageValue: `quantize` can raise `InvalidOperation` when the result needs more digits than the decimal context allows; the model has no such limit.
- `remove_exponent` only changes how a decimal is written, not its value, and a `real` has no representation to change.
- `pct`, `x100`, `get_comment_markdown`, `read_template_file` and `get_file_url`: rendering, package I/O and SHA-256.
- Badge.StaticBadgeCode: the `https://img.shields.io/badge/` prefix, the `.svg` suffix and `urllib.parse.quote` are not modelled, and neither is the log line before the `ValueError`.
- `Annotation.__str__`, `__repr__`, `encode` and `AnnotationEncoder`: string formatting, JSON and base64.
- Branch grouping (`_flatten_branches`, `fill_branch_missing_groups`, `get_diff_branch_missing_groups`): codecov/diff_grouper.py as given does not contain them.
- Generators: `get_missing_groups` and `get_diff_missing_groups` are modelled fully consumed. For `get_diff_missing_groups` this means a `KeyError` is an `Err`, and the groups yielded before it are not kept.
- DiffGrouper.MissingGroupsSpec, MissingGroupsCover, MissingGroupsNoBridge, DiffGroupsSpec, DiffGroupsCover, DiffGroupsNoBridge and the `Groups` lemmas they rest on require ascending line lists. The source assumes sorted input and does not check it; the grouping functions themselves accept any list.
- DiffParser.ParseHunk: `IndexError` (too few words) and `ValueError` (a piece that `int()` rejects) both become `MalformedHunkHeader`.
- `int()` is modelled for ASCII digits with an optional sign and single underscores between digits. Non-ASCII digits and surrounding whitespace are not accepted; the header's tokens never carry whitespace.
- The `main.py` caller passes `select_changed_files` an argument it does not take. The model follows the signature in codecov/template.py.
- `sort_order` applies `abs` to list lengths, which are never negative, so the model uses the lengths.
