/** The two callers of the grouper: the missing lines of every file of the
    report, and the missing statements of every file of the diff, each turned
    into groups that bridge gaps of at most `MaxAnnotationGap` lines. */
module DiffGrouper {
  import opened Wrappers
  import opened Dicts
  import opened Sorting
  import opened CoverageModel
  import opened Groups
  import opened Annotations

  /** `MAX_ANNOTATION_GAP`. */
  const MaxAnnotationGap := 3

  /** A diff file the report has no entry for: the `KeyError` of
      `coverage.files[path]`. */
  datatype GroupingError = MissingFile(path: Path)

  /** Lines that must never be bridged: executed or excluded ones. */
  function Separators(file: FileCoverage): set<int> {
    Elems(file.executedLines) + Elems(file.excludedLines)
  }

  /** The report's joiners: lines 2 up to, not including, the statement
      count, unless they are separators. */
  function ProjectJoiners(file: FileCoverage): (j: set<int>)
    ensures j !! Separators(file)
  {
    Elems(Range(2, file.info.numStatements)) - Separators(file)
  }

  /** The diff's joiners: the added lines that are not separators. */
  function DiffJoiners(file: FileCoverage, diffFile: FileDiffCoverage): (j: set<int>)
    ensures j !! Separators(file)
  {
    Elems(diffFile.addedLines) - Separators(file)
  }

  /** The groups of one file, each spanning one computed range. */
  function FileGroups(path: Path, values: seq<int>, separators: set<int>, joiners: set<int>): (gs: seq<Group>)
    ensures |gs| == |ComputeContiguousGroups(values, separators, joiners, MaxAnnotationGap)|
    ensures forall i :: 0 <= i < |gs| ==> gs[i].file == path
  {
    var spans := ComputeContiguousGroups(values, separators, joiners, MaxAnnotationGap);
    seq(|spans|, i requires 0 <= i < |spans| => Group(path, spans[i].0, spans[i].1))
  }

  /** The groups of one file's blocks, one block after the other. */
  function Flatten(blocks: seq<seq<Group>>): seq<Group> {
    if |blocks| == 0 then [] else blocks[0] + Flatten(blocks[1..])
  }

  /** `get_missing_groups`: file by file in the report's order, the groups
      of the file's missing lines. */
  function MissingGroups(coverage: Coverage): seq<Group> {
    var files := coverage.files;
    Flatten(seq(|files|, k requires 0 <= k < |files| =>
      FileGroups(files[k].0, files[k].1.missingLines, Separators(files[k].1), ProjectJoiners(files[k].1))))
  }

  /** The groups of one diff file, against the report's data for it. */
  function DiffFileGroups(path: Path, diffFile: FileDiffCoverage, file: FileCoverage): seq<Group> {
    FileGroups(path, diffFile.missingStatements, Separators(file), DiffJoiners(file, diffFile))
  }

  /** The per-file blocks of the diff's groups, failing on the first diff
      file the report does not know. */
  function DiffBlocks(coverage: Coverage, files: seq<(Path, FileDiffCoverage)>): (r: Result<seq<seq<Group>>, GroupingError>)
    ensures r.Ok? ==> |r.value| == |files|
  {
    if |files| == 0 then Ok([])
    else
      match Get(coverage.files, files[0].0)
      case None => Err(MissingFile(files[0].0))
      case Some(file) =>
        var rest :- DiffBlocks(coverage, files[1..]);
        Ok([DiffFileGroups(files[0].0, files[0].1, file)] + rest)
  }

  /** The blocks are built exactly when every diff file is known, and block
      `k` then holds the groups of diff file `k`; otherwise the error names
      the first unknown file. */
  lemma DiffBlocksSpec(coverage: Coverage, files: seq<(Path, FileDiffCoverage)>)
    ensures var r := DiffBlocks(coverage, files);
      && (r.Ok? <==> forall k :: 0 <= k < |files| ==> files[k].0 in Keys(coverage.files))
      && (r.Ok? ==> forall k :: 0 <= k < |files| ==>
            r.value[k] == DiffFileGroups(files[k].0, files[k].1, Get(coverage.files, files[k].0).value))
      && (r.Err? ==> exists k :: 0 <= k < |files| && FirstUnknown(coverage, files, k) && r.error == MissingFile(files[k].0))
  {
    DiffBlocksOk(coverage, files);
    DiffBlocksValues(coverage, files);
    DiffBlocksError(coverage, files);
  }

  lemma {:induction false} DiffBlocksOk(coverage: Coverage, files: seq<(Path, FileDiffCoverage)>)
    ensures DiffBlocks(coverage, files).Ok? <==> forall k :: 0 <= k < |files| ==> files[k].0 in Keys(coverage.files)
  {
    if |files| > 0 {
      DiffBlocksOk(coverage, files[1..]);
      if DiffBlocks(coverage, files).Ok? {
        forall k | 0 <= k < |files| ensures files[k].0 in Keys(coverage.files) {
          if k > 0 {
            assert files[k] == files[1..][k - 1];
          }
        }
      } else if files[0].0 in Keys(coverage.files) {
        var k :| 0 <= k < |files| - 1 && files[1..][k].0 !in Keys(coverage.files);
        assert files[k + 1] == files[1..][k];
      }
    }
  }

  lemma DiffBlocksValues(coverage: Coverage, files: seq<(Path, FileDiffCoverage)>)
    ensures var r := DiffBlocks(coverage, files);
      r.Ok? ==> forall k :: 0 <= k < |files| ==>
        && Get(coverage.files, files[k].0).Some?
        && r.value[k] == DiffFileGroups(files[k].0, files[k].1, Get(coverage.files, files[k].0).value)
  {
    if DiffBlocks(coverage, files).Ok? {
      DiffBlocksMatch(coverage, files);
      var r := DiffBlocks(coverage, files).value;
      forall k | 0 <= k < |files|
        ensures Get(coverage.files, files[k].0).Some?
        ensures r[k] == DiffFileGroups(files[k].0, files[k].1, Get(coverage.files, files[k].0).value)
      {
        assert BlockOf(coverage, files[k], r[k]);
      }
    }
  }

  lemma {:induction false} DiffBlocksMatch(coverage: Coverage, files: seq<(Path, FileDiffCoverage)>)
    requires DiffBlocks(coverage, files).Ok?
    ensures BlocksMatch(coverage, files, DiffBlocks(coverage, files).value)
  {
    if |files| > 0 {
      DiffBlocksCons(coverage, files);
      DiffBlocksMatch(coverage, files[1..]);
      BlocksMatchCons(coverage, files, DiffBlocks(coverage, files).value);
    }
  }

  /** Block `k` holds the groups of diff file `k`, which the report knows. */
  predicate BlocksMatch(coverage: Coverage, files: seq<(Path, FileDiffCoverage)>, blocks: seq<seq<Group>>) {
    |blocks| == |files| && forall k :: 0 <= k < |files| ==> BlockOf(coverage, files[k], blocks[k])
  }

  predicate BlockOf(coverage: Coverage, entry: (Path, FileDiffCoverage), block: seq<Group>) {
    && Get(coverage.files, entry.0).Some?
    && block == DiffFileGroups(entry.0, entry.1, Get(coverage.files, entry.0).value)
  }

  /** A successful grouping is the first file's block before the rest's. */
  lemma DiffBlocksCons(coverage: Coverage, files: seq<(Path, FileDiffCoverage)>)
    requires |files| > 0 && DiffBlocks(coverage, files).Ok?
    ensures DiffBlocks(coverage, files[1..]).Ok?
    ensures var b := DiffBlocks(coverage, files).value;
      |b| > 0 && BlockOf(coverage, files[0], b[0]) && b[1..] == DiffBlocks(coverage, files[1..]).value
  {
  }

  lemma BlocksMatchCons(coverage: Coverage, files: seq<(Path, FileDiffCoverage)>, blocks: seq<seq<Group>>)
    requires |files| > 0 && |blocks| > 0 && BlockOf(coverage, files[0], blocks[0])
    requires BlocksMatch(coverage, files[1..], blocks[1..])
    ensures BlocksMatch(coverage, files, blocks)
  {
    forall k | 0 < k < |files|
      ensures BlockOf(coverage, files[k], blocks[k])
    {
      assert files[k] == files[1..][k - 1] && blocks[k] == blocks[1..][k - 1];
    }
  }

  lemma DiffBlocksError(coverage: Coverage, files: seq<(Path, FileDiffCoverage)>)
    ensures var r := DiffBlocks(coverage, files);
      r.Err? ==> exists k :: 0 <= k < |files| && FirstUnknown(coverage, files, k) && r.error == MissingFile(files[k].0)
  {
    if DiffBlocks(coverage, files).Err? {
      var k := DiffBlocksFirstUnknown(coverage, files);
    }
  }

  /** The position of the first diff file the report does not know, or the
      number of files when it knows them all. */
  function UnknownIndex(coverage: Coverage, files: seq<(Path, FileDiffCoverage)>): (k: nat)
    ensures k <= |files|
  {
    if |files| == 0 then 0
    else if files[0].0 !in Keys(coverage.files) then 0
    else UnknownIndex(coverage, files[1..]) + 1
  }

  /** The index of the file a failing grouping names. */
  lemma DiffBlocksFirstUnknown(coverage: Coverage, files: seq<(Path, FileDiffCoverage)>) returns (k: nat)
    requires DiffBlocks(coverage, files).Err?
    ensures k < |files| && FirstUnknown(coverage, files, k)
    ensures DiffBlocks(coverage, files).error == MissingFile(files[k].0)
  {
    k := UnknownIndex(coverage, files);
    DiffBlocksAtUnknown(coverage, files);
    UnknownIndexFirst(coverage, files);
  }

  /** A failing grouping names the file at `UnknownIndex`. */
  lemma {:induction false} DiffBlocksAtUnknown(coverage: Coverage, files: seq<(Path, FileDiffCoverage)>)
    requires DiffBlocks(coverage, files).Err?
    ensures UnknownIndex(coverage, files) < |files|
    ensures DiffBlocks(coverage, files).error == MissingFile(files[UnknownIndex(coverage, files)].0)
  {
    DiffBlocksNonEmpty(coverage, files);
    if files[0].0 !in Keys(coverage.files) {
      DiffBlocksHead(coverage, files);
    } else {
      DiffBlocksTail(coverage, files);
      DiffBlocksAtUnknown(coverage, files[1..]);
      assert files[1..][UnknownIndex(coverage, files[1..])] == files[UnknownIndex(coverage, files)];
    }
  }

  /** `UnknownIndex`, when in range, is the first unknown file. */
  lemma {:induction false} UnknownIndexFirst(coverage: Coverage, files: seq<(Path, FileDiffCoverage)>)
    requires UnknownIndex(coverage, files) < |files|
    ensures FirstUnknown(coverage, files, UnknownIndex(coverage, files))
  {
    if files[0].0 in Keys(coverage.files) {
      UnknownIndexFirst(coverage, files[1..]);
      FirstUnknownShift(coverage, files, UnknownIndex(coverage, files[1..]));
    }
  }

  /** The first unknown file of the rest, past a known first file, is the
      first unknown file of the whole. */
  lemma FirstUnknownShift(coverage: Coverage, files: seq<(Path, FileDiffCoverage)>, k: nat)
    requires |files| > 0 && files[0].0 in Keys(coverage.files)
    requires k < |files| - 1 && FirstUnknown(coverage, files[1..], k)
    ensures FirstUnknown(coverage, files, k + 1) && files[k + 1] == files[1..][k]
  {
    var tail := files[1..];
    assert files[k + 1] == tail[k];
    forall j | 0 <= j < k + 1 ensures files[j].0 in Keys(coverage.files) {
      if j > 0 {
        assert files[j] == tail[j - 1];
      }
    }
  }

  lemma DiffBlocksNonEmpty(coverage: Coverage, files: seq<(Path, FileDiffCoverage)>)
    requires DiffBlocks(coverage, files).Err?
    ensures |files| > 0
  {
  }

  /** An unknown first file is the one the failure names. */
  lemma DiffBlocksHead(coverage: Coverage, files: seq<(Path, FileDiffCoverage)>)
    requires |files| > 0 && files[0].0 !in Keys(coverage.files)
    ensures DiffBlocks(coverage, files) == Err(MissingFile(files[0].0))
  {
  }

  /** Past a known first file, a failure is the failure of the rest. */
  lemma DiffBlocksTail(coverage: Coverage, files: seq<(Path, FileDiffCoverage)>)
    requires |files| > 0 && files[0].0 in Keys(coverage.files)
    requires DiffBlocks(coverage, files).Err?
    ensures DiffBlocks(coverage, files[1..]).Err?
    ensures DiffBlocks(coverage, files).error == DiffBlocks(coverage, files[1..]).error
  {
  }

  ghost predicate FirstUnknown(coverage: Coverage, files: seq<(Path, FileDiffCoverage)>, k: int)
    requires 0 <= k < |files|
  {
    && files[k].0 !in Keys(coverage.files)
    && forall j :: 0 <= j < k ==> files[j].0 in Keys(coverage.files)
  }

  /** `get_diff_missing_groups`, consumed to the end. */
  function DiffMissingGroups(coverage: Coverage, diff: DiffCoverage): Result<seq<Group>, GroupingError> {
    var blocks :- DiffBlocks(coverage, diff.files);
    Ok(Flatten(blocks))
  }

  // ---------------------------------------------------------------------------
  // The groups of one file

  function GroupSpan(g: Group): Span {
    (g.lineStart, g.lineEnd)
  }

  /** For ascending line numbers, a file's groups exist iff it has lines, are
      ascending and disjoint, start and end on given lines, and leave no two
      neighbours the reducer would still merge. */
  lemma FileGroupsSpec(path: Path, values: seq<int>, separators: set<int>, joiners: set<int>)
    requires StrictlyAscending(values)
    ensures var gs := FileGroups(path, values, separators, joiners);
      && (|gs| == 0 <==> |values| == 0)
      && (forall i :: 0 <= i < |gs| ==> gs[i].lineStart <= gs[i].lineEnd)
      && (forall i :: 0 <= i < |gs| ==> gs[i].lineStart in values && gs[i].lineEnd in values)
      && (forall i, j :: 0 <= i < j < |gs| ==> gs[i].lineEnd < gs[j].lineStart)
      && (forall i :: 0 <= i < |gs| - 1 ==>
            !Mergeable(gs[i].lineEnd, gs[i + 1].lineStart, separators, joiners, MaxAnnotationGap))
  {
    FileGroupsOrdered(path, values, separators, joiners);
    FileGroupsEndpoints(path, values, separators, joiners);
    FileGroupsSeparated(path, values, separators, joiners);
  }

  /** The group at index `i` is the span at index `i`. */
  lemma FileGroupAt(path: Path, values: seq<int>, separators: set<int>, joiners: set<int>, i: int)
    requires 0 <= i < |FileGroups(path, values, separators, joiners)|
    ensures GroupSpan(FileGroups(path, values, separators, joiners)[i])
      == ComputeContiguousGroups(values, separators, joiners, MaxAnnotationGap)[i]
  {
  }

  lemma FileGroupsOrdered(path: Path, values: seq<int>, separators: set<int>, joiners: set<int>)
    requires StrictlyAscending(values)
    ensures var gs := FileGroups(path, values, separators, joiners);
      && (forall i :: 0 <= i < |gs| ==> gs[i].lineStart <= gs[i].lineEnd)
      && (forall i, j :: 0 <= i < j < |gs| ==> gs[i].lineEnd < gs[j].lineStart)
  {
    var spans := ComputeContiguousGroups(values, separators, joiners, MaxAnnotationGap);
    var gs := FileGroups(path, values, separators, joiners);
    RunsWellFormed(values);
    RunsAscending(values);
    ReduceShape(Runs(values), separators, joiners, MaxAnnotationGap);
    forall i | 0 <= i < |gs| ensures gs[i].lineStart <= gs[i].lineEnd {
      FileGroupAt(path, values, separators, joiners, i);
    }
    forall i, j | 0 <= i < j < |gs| ensures gs[i].lineEnd < gs[j].lineStart {
      FileGroupAt(path, values, separators, joiners, i);
      FileGroupAt(path, values, separators, joiners, j);
    }
  }

  lemma FileGroupsEndpoints(path: Path, values: seq<int>, separators: set<int>, joiners: set<int>)
    requires StrictlyAscending(values)
    ensures var gs := FileGroups(path, values, separators, joiners);
      forall i :: 0 <= i < |gs| ==> gs[i].lineStart in values && gs[i].lineEnd in values
  {
    var spans := ComputeContiguousGroups(values, separators, joiners, MaxAnnotationGap);
    var gs := FileGroups(path, values, separators, joiners);
    RunsEndpoints(values);
    ReduceEndpoints(Runs(values), separators, joiners, MaxAnnotationGap);
    forall i | 0 <= i < |gs| ensures gs[i].lineStart in values && gs[i].lineEnd in values {
      FileGroupAt(path, values, separators, joiners, i);
      assert spans[i].0 in Starts(spans) && spans[i].1 in Ends(spans);
    }
  }

  lemma FileGroupsSeparated(path: Path, values: seq<int>, separators: set<int>, joiners: set<int>)
    ensures var gs := FileGroups(path, values, separators, joiners);
      forall i :: 0 <= i < |gs| - 1 ==>
        !Mergeable(gs[i].lineEnd, gs[i + 1].lineStart, separators, joiners, MaxAnnotationGap)
  {
    var gs := FileGroups(path, values, separators, joiners);
    ReduceSeparated(Runs(values), separators, joiners, MaxAnnotationGap);
    forall i | 0 <= i < |gs| - 1
      ensures !Mergeable(gs[i].lineEnd, gs[i + 1].lineStart, separators, joiners, MaxAnnotationGap)
    {
      FileGroupAt(path, values, separators, joiners, i);
      FileGroupAt(path, values, separators, joiners, i + 1);
    }
  }

  lemma FileGroupsCover(path: Path, values: seq<int>, separators: set<int>, joiners: set<int>, v: int)
    requires StrictlyAscending(values)
    requires v in values
    ensures var gs := FileGroups(path, values, separators, joiners);
      && (exists i :: 0 <= i < |gs| && InSpan(v, GroupSpan(gs[i])))
      && (forall i, j :: 0 <= i < j < |gs| && InSpan(v, GroupSpan(gs[i])) ==> !InSpan(v, GroupSpan(gs[j])))
  {
    var spans := ComputeContiguousGroups(values, separators, joiners, MaxAnnotationGap);
    var gs := FileGroups(path, values, separators, joiners);
    ContiguousGroupsCover(values, v, separators, joiners, MaxAnnotationGap);
    var i :| 0 <= i < |spans| && InSpan(v, spans[i]);
    assert GroupSpan(gs[i]) == spans[i];
    assert forall k :: 0 <= k < |gs| ==> GroupSpan(gs[k]) == spans[k];
  }

  /** A separator inside a group is one of the given lines: no group
      bridges an executed or excluded line. */
  lemma FileGroupsNoBridge(path: Path, values: seq<int>, separators: set<int>, joiners: set<int>, i: int, x: int)
    requires StrictlyAscending(values)
    requires separators !! joiners
    requires 0 <= i < |FileGroups(path, values, separators, joiners)|
    requires InSpan(x, GroupSpan(FileGroups(path, values, separators, joiners)[i]))
    requires x in separators
    ensures x in values
  {
    var spans := ComputeContiguousGroups(values, separators, joiners, MaxAnnotationGap);
    assert InSpan(x, spans[i]);
    ContiguousGroupsNoBridge(values, x, separators, joiners, MaxAnnotationGap);
  }

  // ---------------------------------------------------------------------------
  // File order

  /** The groups of the flattened blocks that name file `p`, in order. */
  function GroupsOf(gs: seq<Group>, p: Path): (r: seq<Group>)
    ensures forall i :: 0 <= i < |r| ==> r[i].file == p
    ensures forall g :: g in r ==> g in gs
  {
    if |gs| == 0 then []
    else (if gs[0].file == p then [gs[0]] else []) + GroupsOf(gs[1..], p)
  }

  lemma {:induction false} GroupsOfAppend(a: seq<Group>, b: seq<Group>, p: Path)
    ensures GroupsOf(a + b, p) == GroupsOf(a, p) + GroupsOf(b, p)
  {
    if |a| > 0 {
      GroupsOfAppend(a[1..], b, p);
      assert (a + b)[0] == a[0];
      assert (a + b)[1..] == a[1..] + b;
    } else {
      assert a + b == b;
    }
  }

  lemma {:induction false} GroupsOfAll(gs: seq<Group>, p: Path)
    requires forall i :: 0 <= i < |gs| ==> gs[i].file == p
    ensures GroupsOf(gs, p) == gs
  {
    if |gs| > 0 {
      GroupsOfAll(gs[1..], p);
    }
  }

  lemma {:induction false} GroupsOfNone(gs: seq<Group>, p: Path)
    requires forall i :: 0 <= i < |gs| ==> gs[i].file != p
    ensures GroupsOf(gs, p) == []
  {
    if |gs| > 0 {
      GroupsOfNone(gs[1..], p);
    }
  }

  /** Each block holds only groups of its own key. */
  ghost predicate BlocksOf(blocks: seq<seq<Group>>, keys: seq<Path>) {
    && |blocks| == |keys|
    && forall k, i :: 0 <= k < |blocks| && 0 <= i < |blocks[k]| ==> blocks[k][i].file == keys[k]
  }

  /** Picking one file's groups out of the whole stream gives back exactly
      that file's block. */
  lemma {:induction false} GroupsOfFlatten(blocks: seq<seq<Group>>, keys: seq<Path>, k: int)
    requires BlocksOf(blocks, keys)
    requires forall i, j :: 0 <= i < j < |keys| ==> keys[i] != keys[j]
    requires 0 <= k < |keys|
    ensures GroupsOf(Flatten(blocks), keys[k]) == blocks[k]
  {
    GroupsOfAppend(blocks[0], Flatten(blocks[1..]), keys[k]);
    if k == 0 {
      GroupsOfAll(blocks[0], keys[0]);
      GroupsOfAbsent(blocks[1..], keys[1..], keys[0]);
    } else {
      GroupsOfNone(blocks[0], keys[k]);
      GroupsOfFlatten(blocks[1..], keys[1..], k - 1);
    }
  }

  lemma {:induction false} GroupsOfAbsent(blocks: seq<seq<Group>>, keys: seq<Path>, p: Path)
    requires BlocksOf(blocks, keys)
    requires p !in keys
    ensures GroupsOf(Flatten(blocks), p) == []
  {
    if |blocks| > 0 {
      GroupsOfAppend(blocks[0], Flatten(blocks[1..]), p);
      GroupsOfNone(blocks[0], p);
      GroupsOfAbsent(blocks[1..], keys[1..], p);
    }
  }

  /** Every group of the stream belongs to one of the keys. */
  lemma {:induction false} FlattenFiles(blocks: seq<seq<Group>>, keys: seq<Path>, g: Group)
    requires BlocksOf(blocks, keys)
    requires g in Flatten(blocks)
    ensures g.file in keys
  {
    if g in blocks[0] {
      var i :| 0 <= i < |blocks[0]| && blocks[0][i] == g;
    } else {
      FlattenFiles(blocks[1..], keys[1..], g);
    }
  }

  /** The groups come file by file: a group of an earlier key never follows
      a group of a later key. */
  lemma {:induction false} FlattenOrder(blocks: seq<seq<Group>>, keys: seq<Path>, a: int, b: int, i: int, j: int)
    requires BlocksOf(blocks, keys)
    requires forall x, y :: 0 <= x < y < |keys| ==> keys[x] != keys[y]
    requires 0 <= a < b < |Flatten(blocks)|
    requires 0 <= i < |keys| && 0 <= j < |keys|
    requires Flatten(blocks)[a].file == keys[i] && Flatten(blocks)[b].file == keys[j]
    ensures i <= j
  {
    var flat := Flatten(blocks);
    var n := |blocks[0]|;
    assert flat == blocks[0] + Flatten(blocks[1..]);
    if b < n {
      assert flat[a].file == keys[0] && flat[b].file == keys[0];
    } else if a < n {
      assert flat[a].file == keys[0];
    } else {
      assert Flatten(blocks[1..])[a - n] == flat[a];
      assert Flatten(blocks[1..])[b - n] == flat[b];
      assert i > 0 && j > 0 by {
        assert flat[b] in Flatten(blocks[1..]);
        FlattenFiles(blocks[1..], keys[1..], flat[a]);
        FlattenFiles(blocks[1..], keys[1..], flat[b]);
      }
      FlattenOrder(blocks[1..], keys[1..], a - n, b - n, i - 1, j - 1);
    }
  }

  // ---------------------------------------------------------------------------
  // The report's groups

  function ReportBlocks(coverage: Coverage): seq<seq<Group>> {
    var files := coverage.files;
    seq(|files|, k requires 0 <= k < |files| =>
      FileGroups(files[k].0, files[k].1.missingLines, Separators(files[k].1), ProjectJoiners(files[k].1)))
  }

  /** The report's groups of file `k` are exactly that file's groups: the
      missing lines grouped with the executed and excluded lines as
      separators, lines 2 to the statement count as joiners, and a gap of at
      most three lines. */
  lemma MissingGroupsOfFile(coverage: Coverage, k: int)
    requires 0 <= k < |coverage.files|
    ensures var (p, f) := coverage.files[k];
      GroupsOf(MissingGroups(coverage), p) == FileGroups(p, f.missingLines, Separators(f), ProjectJoiners(f))
  {
    var blocks := ReportBlocks(coverage);
    assert MissingGroups(coverage) == Flatten(blocks);
    GroupsOfFlatten(blocks, Keys(coverage.files), k);
  }

  /** Every group names a file of the report. */
  lemma MissingGroupsFiles(coverage: Coverage, g: Group)
    requires g in MissingGroups(coverage)
    ensures g.file in Keys(coverage.files)
  {
    FlattenFiles(ReportBlocks(coverage), Keys(coverage.files), g);
  }

  /** A file without missing lines gets no group. */
  lemma MissingGroupsSkipCovered(coverage: Coverage, k: int)
    requires 0 <= k < |coverage.files| && coverage.files[k].1.missingLines == []
    ensures GroupsOf(MissingGroups(coverage), coverage.files[k].0) == []
  {
    MissingGroupsOfFile(coverage, k);
  }

  /** With ascending missing lines, a file's groups are ascending, start
      and end on missing lines, hold every missing line exactly once, and
      take in no executed or excluded line. */
  lemma MissingGroupsSpec(coverage: Coverage, k: int)
    requires 0 <= k < |coverage.files|
    requires StrictlyAscending(coverage.files[k].1.missingLines)
    ensures var (p, f) := coverage.files[k];
      var gs := GroupsOf(MissingGroups(coverage), p);
      && (|gs| == 0 <==> |f.missingLines| == 0)
      && (forall i :: 0 <= i < |gs| ==> gs[i].lineStart in f.missingLines && gs[i].lineEnd in f.missingLines)
      && (forall i, j :: 0 <= i < j < |gs| ==> gs[i].lineEnd < gs[j].lineStart)
  {
    var (p, f) := coverage.files[k];
    MissingGroupsOfFile(coverage, k);
    FileGroupsSpec(p, f.missingLines, Separators(f), ProjectJoiners(f));
  }

  lemma MissingGroupsCover(coverage: Coverage, k: int, v: int)
    requires 0 <= k < |coverage.files|
    requires StrictlyAscending(coverage.files[k].1.missingLines)
    requires v in coverage.files[k].1.missingLines
    ensures var gs := GroupsOf(MissingGroups(coverage), coverage.files[k].0);
      && (exists i :: 0 <= i < |gs| && InSpan(v, GroupSpan(gs[i])))
      && (forall i, j :: 0 <= i < j < |gs| && InSpan(v, GroupSpan(gs[i])) ==> !InSpan(v, GroupSpan(gs[j])))
  {
    var (p, f) := coverage.files[k];
    MissingGroupsOfFile(coverage, k);
    FileGroupsCover(p, f.missingLines, Separators(f), ProjectJoiners(f), v);
  }

  lemma MissingGroupsNoBridge(coverage: Coverage, k: int, i: int, x: int)
    requires 0 <= k < |coverage.files|
    requires StrictlyAscending(coverage.files[k].1.missingLines)
    requires 0 <= i < |GroupsOf(MissingGroups(coverage), coverage.files[k].0)|
    requires InSpan(x, GroupSpan(GroupsOf(MissingGroups(coverage), coverage.files[k].0)[i]))
    requires x in coverage.files[k].1.executedLines || x in coverage.files[k].1.excludedLines
    ensures x in coverage.files[k].1.missingLines
  {
    var (p, f) := coverage.files[k];
    MissingGroupsOfFile(coverage, k);
    FileGroupsNoBridge(p, f.missingLines, Separators(f), ProjectJoiners(f), i, x);
  }

  // ---------------------------------------------------------------------------
  // The diff's groups

  /** The diff's grouping fails exactly when a diff file is unknown to the
      report, and then on the first such file; otherwise file `k`'s groups
      are its missing statements grouped with the diff's joiners. */
  lemma DiffMissingGroupsSpec(coverage: Coverage, diff: DiffCoverage)
    ensures var r := DiffMissingGroups(coverage, diff);
      && (r.Ok? <==> forall k :: 0 <= k < |diff.files| ==> diff.files[k].0 in Keys(coverage.files))
      && (r.Err? ==>
            exists k :: 0 <= k < |diff.files| && FirstUnknown(coverage, diff.files, k) && r.error == MissingFile(diff.files[k].0))
  {
    DiffBlocksSpec(coverage, diff.files);
  }

  lemma DiffMissingGroupsOfFile(coverage: Coverage, diff: DiffCoverage, k: int)
    requires DiffMissingGroups(coverage, diff).Ok?
    requires 0 <= k < |diff.files|
    ensures diff.files[k].0 in Keys(coverage.files)
    ensures GroupsOf(DiffMissingGroups(coverage, diff).value, diff.files[k].0)
      == DiffFileGroups(diff.files[k].0, diff.files[k].1, Get(coverage.files, diff.files[k].0).value)
  {
    DiffBlocksSpec(coverage, diff.files);
    var blocks := DiffBlocks(coverage, diff.files).value;
    var keys := Keys(diff.files);
    assert BlocksOf(blocks, keys);
    GroupsOfFlatten(blocks, keys, k);
  }

  /** Every group of the diff names a file of the diff. */
  lemma DiffGroupsFiles(coverage: Coverage, diff: DiffCoverage, g: Group)
    requires DiffMissingGroups(coverage, diff).Ok?
    requires g in DiffMissingGroups(coverage, diff).value
    ensures g.file in Keys(diff.files)
  {
    DiffBlocksSpec(coverage, diff.files);
    var blocks := DiffBlocks(coverage, diff.files).value;
    assert BlocksOf(blocks, Keys(diff.files));
    FlattenFiles(blocks, Keys(diff.files), g);
  }

  /** The groups of a diff computed from the same report never fail. */
  lemma DiffMissingGroupsOfDiffCoverage(added: Dict<Path, seq<int>>, coverage: Coverage)
    ensures DiffMissingGroups(coverage, DiffCoverageInfo(added, coverage)).Ok?
  {
    var d := DiffCoverageInfo(added, coverage);
    KnownPathsFrom(Keys(added), coverage);
    assert forall k :: 0 <= k < |d.files| ==> d.files[k].0 in Keys(d.files);
    DiffMissingGroupsSpec(coverage, d);
  }

  /** A diff computed from a report lists every file's missing statements
      in ascending order. */
  lemma DiffEntryAscending(added: Dict<Path, seq<int>>, coverage: Coverage, k: int)
    requires 0 <= k < |DiffCoverageInfo(added, coverage).files|
    ensures StrictlyAscending(DiffCoverageInfo(added, coverage).files[k].1.missingStatements)
  {
    var d := DiffCoverageInfo(added, coverage);
    AccumulateEntries(added, coverage);
    var p := d.files[k].0;
    FileDiffStatements(p, Get(added, p).value, Get(coverage.files, p).value);
  }

  /** When a diff file's missing statements are ascending, each of them lies
      in exactly one of the file's groups, and the groups are ascending,
      start and end on missing statements, and bridge no executed or
      excluded line. */
  lemma DiffGroupsSpec(coverage: Coverage, diff: DiffCoverage, k: int)
    requires DiffMissingGroups(coverage, diff).Ok?
    requires 0 <= k < |diff.files|
    requires StrictlyAscending(diff.files[k].1.missingStatements)
    ensures var (p, fd) := diff.files[k];
      var gs := GroupsOf(DiffMissingGroups(coverage, diff).value, p);
      && (|gs| == 0 <==> |fd.missingStatements| == 0)
      && (forall i :: 0 <= i < |gs| ==> gs[i].lineStart in fd.missingStatements && gs[i].lineEnd in fd.missingStatements)
      && (forall i, j :: 0 <= i < j < |gs| ==> gs[i].lineEnd < gs[j].lineStart)
  {
    var (p, fd) := diff.files[k];
    DiffMissingGroupsOfFile(coverage, diff, k);
    var file := Get(coverage.files, p).value;
    FileGroupsSpec(p, fd.missingStatements, Separators(file), DiffJoiners(file, fd));
  }

  lemma DiffGroupsCover(coverage: Coverage, diff: DiffCoverage, k: int, v: int)
    requires DiffMissingGroups(coverage, diff).Ok?
    requires 0 <= k < |diff.files|
    requires StrictlyAscending(diff.files[k].1.missingStatements)
    requires v in diff.files[k].1.missingStatements
    ensures var gs := GroupsOf(DiffMissingGroups(coverage, diff).value, diff.files[k].0);
      && (exists i :: 0 <= i < |gs| && InSpan(v, GroupSpan(gs[i])))
      && (forall i, j :: 0 <= i < j < |gs| && InSpan(v, GroupSpan(gs[i])) ==> !InSpan(v, GroupSpan(gs[j])))
  {
    var (p, fd) := diff.files[k];
    DiffMissingGroupsOfFile(coverage, diff, k);
    var file := Get(coverage.files, p).value;
    FileGroupsCover(p, fd.missingStatements, Separators(file), DiffJoiners(file, fd), v);
  }

  lemma DiffGroupsNoBridge(coverage: Coverage, diff: DiffCoverage, k: int, i: int, x: int)
    requires DiffMissingGroups(coverage, diff).Ok?
    requires 0 <= k < |diff.files|
    requires StrictlyAscending(diff.files[k].1.missingStatements)
    requires 0 <= i < |GroupsOf(DiffMissingGroups(coverage, diff).value, diff.files[k].0)|
    requires InSpan(x, GroupSpan(GroupsOf(DiffMissingGroups(coverage, diff).value, diff.files[k].0)[i]))
    requires Get(coverage.files, diff.files[k].0).Some?
    requires x in Separators(Get(coverage.files, diff.files[k].0).value)
    ensures x in diff.files[k].1.missingStatements
  {
    var (p, fd) := diff.files[k];
    DiffMissingGroupsOfFile(coverage, diff, k);
    var file := Get(coverage.files, p).value;
    FileGroupsNoBridge(p, fd.missingStatements, Separators(file), DiffJoiners(file, fd), i, x);
  }
}
