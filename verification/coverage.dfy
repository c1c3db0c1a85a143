/** The coverage report and the diff-coverage calculator: the dataclasses of a
    coverage report and of its intersection with a pull request's diff, the
    coverage ratio, and `get_diff_coverage_info`, which intersects each
    file's added lines with its executed and missing lines and totals the
    counts. Both revisions of the calculator (the module-level function and
    the `BaseCoverage` method) compute the same thing, so it is modelled once. */
module CoverageModel {
  import opened Wrappers
  import opened Dicts
  import opened Sorting

  /** A file path, used verbatim as a dictionary key. */
  type Path = string

  datatype CoverageMetadata = CoverageMetadata(
    version: string,
    timestamp: string,
    branchCoverage: bool,
    showContexts: bool)

  /** Summary counters of a file or of the whole report; the branch counters
      are present only when branch coverage was collected. */
  datatype CoverageInfo = CoverageInfo(
    coveredLines: int,
    numStatements: int,
    percentCovered: real,
    percentCoveredDisplay: string,
    missingLines: int,
    excludedLines: int,
    numBranches: Option<int>,
    numPartialBranches: Option<int>,
    coveredBranches: Option<int>,
    missingBranches: Option<int>)

  datatype FileCoverage = FileCoverage(
    path: Path,
    executedLines: seq<int>,
    missingLines: seq<int>,
    excludedLines: seq<int>,
    executedBranches: Option<seq<seq<int>>>,
    missingBranches: Option<seq<seq<int>>>,
    info: CoverageInfo)

  datatype Coverage = Coverage(
    meta: CoverageMetadata,
    info: CoverageInfo,
    files: Dict<Path, FileCoverage>)

  /** The diff coverage of one file. `addedLines` are all lines the diff adds
      (comments and blank lines included); the three statement lists keep only
      the added lines the report knows as statements. */
  datatype FileDiffCoverage = FileDiffCoverage(
    path: Path,
    percentCovered: real,
    coveredStatements: seq<int>,
    missingStatements: seq<int>,
    addedStatements: seq<int>,
    addedLines: seq<int>)
  {
    /** The older name of `missingStatements`, kept for compatibility. */
    function ViolationLines(): seq<int> {
      missingStatements
    }
  }

  datatype DiffCoverage = DiffCoverage(
    totalNumLines: int,
    totalNumViolations: int,
    totalPercentCovered: real,
    numChangedLines: int,
    files: Dict<Path, FileDiffCoverage>)

  /** `compute_coverage`: the exact ratio covered/total, and 1 when there is
      nothing to cover. */
  function ComputeCoverage(numCovered: int, numTotal: int): (r: real)
    ensures numTotal == 0 ==> r == 1.0
    ensures 0 <= numCovered <= numTotal ==> 0.0 <= r <= 1.0
  {
    if numTotal == 0 then 1.0 else Ratio(numCovered, numTotal)
  }

  function Ratio(a: int, b: int): (r: real)
    requires b != 0
    ensures 0 <= a <= b ==> 0.0 <= r <= 1.0
    ensures r * b as real == a as real
  {
    a as real / b as real
  }

  /** With something to cover, the ratio is the exact quotient: times the
      total it gives back the covered count. */
  lemma CoverageRatio(numCovered: int, numTotal: int)
    ensures numTotal != 0 ==>
              ComputeCoverage(numCovered, numTotal) * numTotal as real == numCovered as real
  {
  }

  /** The elements of `xs` that also occur in `ys`, as `set(xs) & set(ys)`. */
  function Intersect(xs: seq<int>, ys: seq<int>): (r: seq<int>)
    ensures Elems(r) == Elems(xs) * Elems(ys)
  {
    if |xs| == 0 then []
    else
      var rest := Intersect(xs[1..], ys);
      var head := if xs[0] in ys then [xs[0]] else [];
      assert xs == [xs[0]] + xs[1..];
      ElemsConcat([xs[0]], xs[1..]);
      ElemsConcat(head, rest);
      head + rest
  }

  /** The loop body of `get_diff_coverage_info` for a file the report knows. */
  function FileDiff(path: Path, added: seq<int>, file: FileCoverage): FileDiffCoverage
  {
    var executed := SortedSet(Intersect(file.executedLines, added));
    var missing := SortedSet(Intersect(file.missingLines, added));
    var all := SortedSet(executed + missing);
    FileDiffCoverage(
      path,
      ComputeCoverage(|executed|, |all|),
      executed,
      missing,
      all,
      added)
  }

  /** What a file's entry holds: the covered statements are the added lines
      the report saw executed, the missing ones (the violations) the added
      lines it saw missed, the added statements their union, each sorted
      without repetition; the raw added lines are kept as given. */
  lemma FileDiffStatements(path: Path, added: seq<int>, file: FileCoverage)
    ensures var fd := FileDiff(path, added, file);
      && fd.path == path && fd.addedLines == added
      && StrictlyAscending(fd.coveredStatements)
      && Elems(fd.coveredStatements) == Elems(file.executedLines) * Elems(added)
      && StrictlyAscending(fd.ViolationLines())
      && Elems(fd.ViolationLines()) == Elems(file.missingLines) * Elems(added)
      && StrictlyAscending(fd.addedStatements)
      && Elems(fd.addedStatements) == Elems(fd.coveredStatements) + Elems(fd.missingStatements)
      && fd.percentCovered == ComputeCoverage(|fd.coveredStatements|, |fd.addedStatements|)
  {
    var fd := FileDiff(path, added, file);
    ElemsConcat(fd.coveredStatements, fd.missingStatements);
  }

  /** Both statement lists are parts of the added statements, so neither is
      longer, and the file's ratio lies in [0, 1]. */
  lemma FileDiffCounts(path: Path, added: seq<int>, file: FileCoverage)
    ensures var fd := FileDiff(path, added, file);
      && |fd.coveredStatements| <= |fd.addedStatements|
      && |fd.missingStatements| <= |fd.addedStatements|
      && 0.0 <= fd.percentCovered <= 1.0
  {
    var fd := FileDiff(path, added, file);
    ElemsConcat(fd.coveredStatements, fd.missingStatements);
    UnionCardinality(fd.coveredStatements, fd.missingStatements, fd.addedStatements);
  }

  /** Each part of a union listed without repetition is at most as long as
      the union's listing. */
  lemma UnionCardinality(a: seq<int>, b: seq<int>, u: seq<int>)
    requires StrictlyAscending(a) && StrictlyAscending(b) && StrictlyAscending(u)
    requires Elems(u) == Elems(a) + Elems(b)
    ensures |a| <= |u| && |b| <= |u|
  {
    AscendingCardinality(a);
    AscendingCardinality(b);
    AscendingCardinality(u);
    SubsetCardinality(Elems(a), Elems(u));
    SubsetCardinality(Elems(b), Elems(u));
  }

  lemma SubsetCardinality(a: set<int>, b: set<int>)
    requires a <= b
    ensures |a| <= |b|
  {
    assert b == a + (b - a);
  }

  // ---------------------------------------------------------------------------
  // Aggregation over the diff's files

  function SumLengths(entries: seq<(Path, seq<int>)>): nat
  {
    if |entries| == 0 then 0
    else SumLengths(entries[..|entries| - 1]) + |entries[|entries| - 1].1|
  }

  function SumAdded(files: seq<(Path, FileDiffCoverage)>): nat
  {
    if |files| == 0 then 0
    else SumAdded(files[..|files| - 1]) + |files[|files| - 1].1.addedStatements|
  }

  function SumMissing(files: seq<(Path, FileDiffCoverage)>): nat
  {
    if |files| == 0 then 0
    else SumMissing(files[..|files| - 1]) + |files[|files| - 1].1.missingStatements|
  }

  /** The keys of `keys` the report has data for, in the same order. */
  function KnownPaths(keys: seq<Path>, coverage: Coverage): seq<Path>
  {
    if |keys| == 0 then []
    else KnownPaths(keys[..|keys| - 1], coverage)
         + (if keys[|keys| - 1] in Keys(coverage.files) then [keys[|keys| - 1]] else [])
  }

  /** The state of the calculator's loop after some of the diff's files. */
  datatype Totals = Totals(
    files: Dict<Path, FileDiffCoverage>,
    numLines: nat,
    numViolations: nat,
    numChanged: nat)

  /** The loop of `get_diff_coverage_info` over `entries`, front to back. */
  function Accumulate(entries: Dict<Path, seq<int>>, coverage: Coverage): (t: Totals)
    ensures Keys(t.files) == KnownPaths(Keys(entries), coverage)
    decreases |entries|
  {
    if |entries| == 0 then Totals([], 0, 0, 0)
    else
      var init: Dict<Path, seq<int>> := entries[..|entries| - 1];
      var prev := Accumulate(init, coverage);
      var (path, lines) := entries[|entries| - 1];
      assert Keys(entries) == Keys(init) + [path];
      match Get(coverage.files, path)
      case None =>
        Totals(prev.files, prev.numLines, prev.numViolations, prev.numChanged + |lines|)
      case Some(file) =>
        var fd := FileDiff(path, lines, file);
        KnownPathsFrom(Keys(init), coverage);
        AppendNewKey(prev.files, path, fd);
        Totals(
          prev.files + [(path, fd)],
          prev.numLines + |fd.addedStatements|,
          prev.numViolations + |fd.missingStatements|,
          prev.numChanged + |lines|)
  }

  /** Every file entry the loop produced is the diff coverage of that path's
      added lines against that path's coverage data. */
  ghost predicate EntriesComputed(files: seq<(Path, FileDiffCoverage)>, entries: Dict<Path, seq<int>>, coverage: Coverage) {
    forall i :: 0 <= i < |files| ==>
      && Get(entries, files[i].0).Some?
      && Get(coverage.files, files[i].0).Some?
      && files[i].1 == FileDiff(files[i].0, Get(entries, files[i].0).value, Get(coverage.files, files[i].0).value)
  }

  /** The loop's counters are the sums over the files it produced. */
  lemma {:induction false} AccumulateSums(entries: Dict<Path, seq<int>>, coverage: Coverage)
    ensures Accumulate(entries, coverage).numLines == SumAdded(Accumulate(entries, coverage).files)
    ensures Accumulate(entries, coverage).numViolations == SumMissing(Accumulate(entries, coverage).files)
    ensures Accumulate(entries, coverage).numChanged == SumLengths(entries)
    decreases |entries|
  {
    if |entries| > 0 {
      var init: Dict<Path, seq<int>> := entries[..|entries| - 1];
      var prev := Accumulate(init, coverage);
      var t := Accumulate(entries, coverage);
      AccumulateSums(init, coverage);
      AccumulateLast(entries, coverage);
      assert SumAdded(prev.files) == prev.numLines;
      assert SumMissing(prev.files) == prev.numViolations;
      assert SumLengths(init) == prev.numChanged;
    }
  }

  /** What the loop adds for the last entry. */
  lemma AccumulateLast(entries: Dict<Path, seq<int>>, coverage: Coverage)
    requires |entries| > 0
    ensures var init: Dict<Path, seq<int>> := entries[..|entries| - 1];
      var prev := Accumulate(init, coverage);
      var t := Accumulate(entries, coverage);
      && SumAdded(t.files) - t.numLines == SumAdded(prev.files) - prev.numLines
      && SumMissing(t.files) - t.numViolations == SumMissing(prev.files) - prev.numViolations
      && SumLengths(entries) - t.numChanged == SumLengths(init) - prev.numChanged
  {
    var init: Dict<Path, seq<int>> := entries[..|entries| - 1];
    var prev := Accumulate(init, coverage);
    var t := Accumulate(entries, coverage);
    var last := entries[|entries| - 1];
    assert SumLengths(entries) == SumLengths(init) + |last.1|;
    if Get(coverage.files, last.0).Some? {
      var fd := FileDiff(last.0, last.1, Get(coverage.files, last.0).value);
      SumsSnoc(prev.files, (last.0, fd));
    }
  }

  lemma SumsSnoc(files: seq<(Path, FileDiffCoverage)>, e: (Path, FileDiffCoverage))
    ensures SumAdded(files + [e]) == SumAdded(files) + |e.1.addedStatements|
    ensures SumMissing(files + [e]) == SumMissing(files) + |e.1.missingStatements|
  {
    assert (files + [e])[..|files|] == files;
  }

  /** Each entry the loop produced is that file's diff coverage. */
  lemma {:induction false} AccumulateEntries(entries: Dict<Path, seq<int>>, coverage: Coverage)
    ensures EntriesComputed(Accumulate(entries, coverage).files, entries, coverage)
    decreases |entries|
  {
    if |entries| > 0 {
      var init: Dict<Path, seq<int>> := entries[..|entries| - 1];
      AccumulateEntries(init, coverage);
      var prev := Accumulate(init, coverage);
      var (path, lines) := entries[|entries| - 1];
      assert Keys(entries) == Keys(init) + [path];
      KnownPathsFrom(Keys(init), coverage);
      EntriesComputedGrow(prev.files, init, entries, coverage);
      match Get(coverage.files, path)
      case None =>
      case Some(file) =>
        GetPrefix(entries, path);
        EntriesComputedAppend(prev.files, entries, coverage, path, lines, file);
    }
  }

  lemma EntriesComputedGrow(files: seq<(Path, FileDiffCoverage)>, init: Dict<Path, seq<int>>, entries: Dict<Path, seq<int>>, coverage: Coverage)
    requires |entries| > 0 && init == entries[..|entries| - 1]
    requires forall k :: k in Keys(files) ==> k in Keys(init)
    requires EntriesComputed(files, init, coverage)
    ensures EntriesComputed(files, entries, coverage)
  {
    forall i | 0 <= i < |files|
      ensures Get(entries, files[i].0) == Get(init, files[i].0)
    {
      assert files[i].0 in Keys(files);
      GetPrefix(entries, files[i].0);
    }
  }

  lemma EntriesComputedAppend(files: seq<(Path, FileDiffCoverage)>, entries: Dict<Path, seq<int>>, coverage: Coverage, path: Path, lines: seq<int>, file: FileCoverage)
    requires EntriesComputed(files, entries, coverage)
    requires Get(entries, path) == Some(lines) && Get(coverage.files, path) == Some(file)
    ensures EntriesComputed(files + [(path, FileDiff(path, lines, file))], entries, coverage)
  {
    var files' := files + [(path, FileDiff(path, lines, file))];
    forall i | 0 <= i < |files'|
      ensures Get(entries, files'[i].0).Some?
      ensures Get(coverage.files, files'[i].0).Some?
      ensures files'[i].1 == FileDiff(files'[i].0, Get(entries, files'[i].0).value, Get(coverage.files, files'[i].0).value)
    {
      if i < |files| {
        assert files'[i] == files[i];
      }
    }
  }

  lemma {:induction false} SumMissingAtMostAdded(files: seq<(Path, FileDiffCoverage)>, entries: Dict<Path, seq<int>>, coverage: Coverage)
    requires EntriesComputed(files, entries, coverage)
    ensures SumMissing(files) <= SumAdded(files)
  {
    if |files| > 0 {
      var last := files[|files| - 1];
      SumMissingAtMostAdded(files[..|files| - 1], entries, coverage);
      FileDiffCounts(last.0, Get(entries, last.0).value, Get(coverage.files, last.0).value);
    }
  }

  lemma {:induction false} KnownPathsFrom(keys: seq<Path>, coverage: Coverage)
    ensures forall k :: k in KnownPaths(keys, coverage) ==> k in keys && k in Keys(coverage.files)
  {
    if |keys| > 0 {
      KnownPathsFrom(keys[..|keys| - 1], coverage);
    }
  }

  /** `get_diff_coverage_info`. */
  function DiffCoverageInfo(added: Dict<Path, seq<int>>, coverage: Coverage): (d: DiffCoverage)
    ensures Keys(d.files) == KnownPaths(Keys(added), coverage)
  {
    Report(Accumulate(added, coverage))
  }

  /** The result built from the loop's final state. */
  function Report(t: Totals): DiffCoverage {
    DiffCoverage(t.numLines, t.numViolations, ComputeCoverage(t.numLines - t.numViolations, t.numLines), t.numChanged, t.files)
  }

  /** The changed-line count covers every file of the diff, known to the
      report or not; the statement and violation totals are sums over the
      files the report knows, so there are never more violations than
      statements. */
  lemma DiffTotals(added: Dict<Path, seq<int>>, coverage: Coverage)
    ensures var d := DiffCoverageInfo(added, coverage);
      && d.numChangedLines == SumLengths(added)
      && d.totalNumLines == SumAdded(d.files)
      && d.totalNumViolations == SumMissing(d.files)
      && 0 <= d.totalNumViolations <= d.totalNumLines
  {
    AccumulateSums(added, coverage);
    AccumulateEntries(added, coverage);
    var t := Accumulate(added, coverage);
    SumMissingAtMostAdded(t.files, added, coverage);
  }

  /** The overall ratio is computed from the two totals alone: 1 with no
      added statement, otherwise the share of added statements not missed. */
  lemma DiffPercent(added: Dict<Path, seq<int>>, coverage: Coverage)
    ensures var d := DiffCoverageInfo(added, coverage);
      && d.totalPercentCovered == ComputeCoverage(d.totalNumLines - d.totalNumViolations, d.totalNumLines)
      && 0.0 <= d.totalPercentCovered <= 1.0
      && (d.totalNumLines == 0 ==> d.totalPercentCovered == 1.0)
  {
    var t := Accumulate(added, coverage);
    assert DiffCoverageInfo(added, coverage) == Report(t);
    assert t.numViolations <= t.numLines by {
      TotalsBounded(added, coverage);
    }
    ReportPercent(t);
  }

  /** The loop never counts more violations than statements. */
  lemma TotalsBounded(added: Dict<Path, seq<int>>, coverage: Coverage)
    ensures Accumulate(added, coverage).numViolations <= Accumulate(added, coverage).numLines
  {
    var t := Accumulate(added, coverage);
    AccumulateSums(added, coverage);
    AccumulateEntries(added, coverage);
    SumMissingAtMostAdded(t.files, added, coverage);
  }

  lemma ReportPercent(t: Totals)
    requires t.numViolations <= t.numLines
    ensures var d := Report(t);
      && d.totalPercentCovered == ComputeCoverage(d.totalNumLines - d.totalNumViolations, d.totalNumLines)
      && 0.0 <= d.totalPercentCovered <= 1.0
      && (d.totalNumLines == 0 ==> d.totalPercentCovered == 1.0)
  {
    RatioBounds(t.numLines - t.numViolations, t.numLines);
  }

  lemma RatioBounds(covered: int, total: int)
    requires 0 <= covered <= total
    ensures 0.0 <= ComputeCoverage(covered, total) <= 1.0
    ensures total == 0 ==> ComputeCoverage(covered, total) == 1.0
  {
  }
}

module CoverageLemmas {
  import opened Wrappers
  import opened Dicts
  import opened Sorting
  import opened CoverageModel

  lemma {:induction false} KnownPathsMember(keys: seq<Path>, coverage: Coverage, k: Path)
    ensures k in KnownPaths(keys, coverage) <==> k in keys && k in Keys(coverage.files)
  {
    if |keys| > 0 {
      KnownPathsMember(keys[..|keys| - 1], coverage, k);
      assert keys == keys[..|keys| - 1] + [keys[|keys| - 1]];
    }
  }

  /** A path gets an entry exactly when the diff adds lines to it and the
      report knows it, and the entry is that file's diff coverage. */
  lemma DiffFileEntry(added: Dict<Path, seq<int>>, coverage: Coverage, p: Path)
    ensures var d := DiffCoverageInfo(added, coverage);
      && (Get(d.files, p).Some? <==> Get(added, p).Some? && Get(coverage.files, p).Some?)
      && (Get(d.files, p).Some? ==>
            Get(d.files, p).value == FileDiff(p, Get(added, p).value, Get(coverage.files, p).value))
  {
    var d := DiffCoverageInfo(added, coverage);
    KnownPathsMember(Keys(added), coverage, p);
    AccumulateEntries(added, coverage);
    if Get(d.files, p).Some? {
      var i :| 0 <= i < |d.files| && d.files[i] == (p, Get(d.files, p).value);
    }
  }

  /** A file the report knows but whose added lines hold no statement still
      gets an entry: empty statement lists and a ratio of 1. */
  lemma FileWithoutStatements(added: Dict<Path, seq<int>>, coverage: Coverage, p: Path)
    requires Get(added, p).Some? && Get(coverage.files, p).Some?
    requires Elems(Get(added, p).value) !! Elems(Get(coverage.files, p).value.executedLines)
    requires Elems(Get(added, p).value) !! Elems(Get(coverage.files, p).value.missingLines)
    ensures var d := DiffCoverageInfo(added, coverage);
      && Get(d.files, p).Some?
      && Get(d.files, p).value.coveredStatements == []
      && Get(d.files, p).value.missingStatements == []
      && Get(d.files, p).value.addedStatements == []
      && Get(d.files, p).value.addedLines == Get(added, p).value
      && Get(d.files, p).value.percentCovered == 1.0
  {
    DiffFileEntry(added, coverage, p);
    var lines := Get(added, p).value;
    var file := Get(coverage.files, p).value;
    FileDiffStatements(p, lines, file);
    var fd := FileDiff(p, lines, file);
    EmptyElems(fd.coveredStatements);
    EmptyElems(fd.missingStatements);
    EmptyElems(fd.addedStatements);
  }

  lemma EmptyElems(s: seq<int>)
    ensures Elems(s) == {} ==> s == []
  {
    if |s| > 0 {
      assert s[0] in Elems(s);
    }
  }

  /** A last diff file the report does not know only raises the
      changed-line count: no entry, no statement, no violation. */
  lemma UnknownPathIgnored(entries: Dict<Path, seq<int>>, coverage: Coverage)
    requires |entries| > 0 && entries[|entries| - 1].0 !in Keys(coverage.files)
    ensures var init: Dict<Path, seq<int>> := entries[..|entries| - 1];
      var before := DiffCoverageInfo(init, coverage);
      var after := DiffCoverageInfo(entries, coverage);
      && after.files == before.files
      && after.totalNumLines == before.totalNumLines
      && after.totalNumViolations == before.totalNumViolations
      && after.totalPercentCovered == before.totalPercentCovered
      && after.numChangedLines == before.numChangedLines + |entries[|entries| - 1].1|
  {
    assert Get(coverage.files, entries[|entries| - 1].0).None?;
  }

  /** A last diff file the report knows appends its entry and adds its
      statement and violation counts to the totals. */
  lemma KnownPathAppended(entries: Dict<Path, seq<int>>, coverage: Coverage)
    requires |entries| > 0 && entries[|entries| - 1].0 in Keys(coverage.files)
    ensures var init: Dict<Path, seq<int>> := entries[..|entries| - 1];
      var (p, lines) := entries[|entries| - 1];
      var before := DiffCoverageInfo(init, coverage);
      var after := DiffCoverageInfo(entries, coverage);
      var fd := FileDiff(p, lines, Get(coverage.files, p).value);
      && after.files == before.files + [(p, fd)]
      && after.totalNumLines == before.totalNumLines + |fd.addedStatements|
      && after.totalNumViolations == before.totalNumViolations + |fd.missingStatements|
      && after.numChangedLines == before.numChangedLines + |lines|
  {
  }
}
