/** The pure helpers behind the pull-request comment: the marker that finds
    the comment again, pluralisation, percentage truncation, and the choice,
    ordering and truncation of the files listed in the comment. */
module Template {
  import opened Wrappers
  import opened Text
  import opened Dicts
  import opened Sorting
  import opened CoverageModel
  import opened Orders

  // ---------------------------------------------------------------------------
  // The comment marker

  const MarkerHead := "<!-- This comment was generated by CI codecov"
  const MarkerTail := " -->"

  /** `get_marker`: the id appears only when it is given and not empty. */
  function GetMarker(markerId: Option<string>): (m: string)
    ensures StartsWith(m, MarkerHead)
  {
    var idPart := if markerId.Some? && |markerId.value| > 0 then " (id: " + markerId.value + ")" else "";
    MarkerHead + idPart + MarkerTail
  }

  /** Reads the id back out of a marker: "" when it carries none. */
  function ReadMarkerId(m: string): Option<string> {
    if |m| < |MarkerHead| + |MarkerTail| || m[..|MarkerHead|] != MarkerHead || m[|m| - |MarkerTail|..] != MarkerTail then None
    else
      var mid := m[|MarkerHead|..|m| - |MarkerTail|];
      if mid == "" then Some("")
      else if |mid| >= 7 && mid[..6] == " (id: " && mid[|mid| - 1] == ')' then Some(mid[6..|mid| - 1])
      else None
  }

  /** The marker carries its id: reading it back gives the id, or "" when
      the id is missing or empty. */
  lemma MarkerRoundTrip(markerId: Option<string>)
    ensures ReadMarkerId(GetMarker(markerId)) == Some(if markerId.Some? then markerId.value else "")
  {
    var m := GetMarker(markerId);
    if markerId.Some? && |markerId.value| > 0 {
      var mid := " (id: " + markerId.value + ")";
      assert m == MarkerHead + mid + MarkerTail;
      assert m[..|MarkerHead|] == MarkerHead;
      assert m[|m| - |MarkerTail|..] == MarkerTail;
      assert m[|MarkerHead|..|m| - |MarkerTail|] == mid;
      assert mid[..6] == " (id: " && mid[6..|mid| - 1] == markerId.value;
    } else {
      assert m == MarkerHead + MarkerTail;
      assert m[..|MarkerHead|] == MarkerHead;
      assert m[|m| - |MarkerTail|..] == MarkerTail;
    }
  }

  /** Two markers agree exactly when their ids do, counting a missing id as
      an empty one. */
  lemma MarkerInjective(a: Option<string>, b: Option<string>)
    ensures GetMarker(a) == GetMarker(b)
      <==> (if a.Some? then a.value else "") == (if b.Some? then b.value else "")
  {
    MarkerRoundTrip(a);
    MarkerRoundTrip(b);
  }

  // ---------------------------------------------------------------------------
  // Pluralisation

  /** `pluralize(number, singular, plural)`. */
  function Pluralize(number: int, singular: string, plural: string): (r: string)
    ensures number == 1 ==> r == singular
    ensures number != 1 ==> r == plural
  {
    if number == 1 then singular else plural
  }

  // ---------------------------------------------------------------------------
  // Percentages

  function Pow10(n: nat): (p: nat)
    ensures p >= 1
  {
    if n == 0 then 1 else 10 * Pow10(n - 1)
  }

  /** Rounding toward zero (`ROUND_DOWN`). */
  function Trunc(x: real): (n: int)
    ensures x >= 0.0 ==> n as real <= x < n as real + 1.0
    ensures x <= 0.0 ==> n as real - 1.0 < x <= n as real
  {
    if x >= 0.0 then x.Floor else -((-x).Floor)
  }

  /** The number of decimals kept: `'0' * precision` is empty for a
      negative precision. */
  function Decimals(precision: int): nat {
    if precision > 0 then precision else 0
  }

  /** `percentage_value`: `100 * val` cut toward zero to `precision`
      decimals. The trailing-zero cleanup of `remove_exponent` keeps the value. */
  function PercentageValue(val: real, precision: int): (r: real)
    ensures val >= 0.0 ==> 0.0 <= r <= 100.0 * val < r + 1.0 / Scale(precision)
    ensures val <= 0.0 ==> r - 1.0 / Scale(precision) < 100.0 * val <= r <= 0.0
  {
    DivBounds(Trunc(Scaled(val, precision)), 100.0 * val, Scale(precision));
    Trunc(Scaled(val, precision)) as real / Scale(precision)
  }

  /** One grid step is `1 / Scale(precision)`. */
  function Scale(precision: int): (s: real)
    ensures s >= 1.0
  {
    Pow10(Decimals(precision)) as real
  }

  /** The percentage counted in grid steps. */
  function Scaled(val: real, precision: int): real {
    100.0 * val * Scale(precision)
  }

  lemma DivBounds(n: int, x: real, scale: real)
    requires scale >= 1.0
    ensures x >= 0.0 && n as real <= x * scale < n as real + 1.0 ==>
      n as real / scale <= x < n as real / scale + 1.0 / scale
    ensures x <= 0.0 && n as real - 1.0 < x * scale <= n as real ==>
      n as real / scale - 1.0 / scale < x <= n as real / scale
  {
  }

  /** The value is a whole number of grid steps (hundredths for precision 2). */
  ghost predicate OnGrid(r: real, precision: int) {
    (r * Scale(precision)).Floor as real == r * Scale(precision)
  }

  lemma MulLeq(a: real, b: real, c: real)
    requires a <= b && c > 0.0
    ensures a * c <= b * c
  {
  }

  lemma MulLess(a: real, b: real, c: real)
    requires a < b && c > 0.0
    ensures a * c < b * c
  {
  }

  lemma DivMul(a: real, c: real)
    requires c > 0.0
    ensures (a / c) * c == a
    ensures (a * c) / c == a
  {
  }

  lemma StepMul(q: real, c: real)
    requires c > 0.0
    ensures (q + 1.0 / c) * c == q * c + 1.0
  {
  }

  /** The truncated value is the only number on the grid at most `100 * val`
      and less than one grid step below it. */
  lemma PercentageValueUnique(val: real, precision: int, q: real)
    requires val >= 0.0
    requires OnGrid(q, precision)
    requires q <= 100.0 * val < q + 1.0 / Scale(precision)
    ensures PercentageValue(val, precision) == q
  {
    var k := (q * Scale(precision)).Floor;
    assert k as real == q * Scale(precision);
    MulLeq(q, 100.0 * val, Scale(precision));
    var upper := q + 1.0 / Scale(precision);
    MulLess(100.0 * val, upper, Scale(precision));
    StepMul(q, Scale(precision));
    assert upper * Scale(precision) == k as real + 1.0;
    assert Scaled(val, precision) == (100.0 * val) * Scale(precision);
    assert k as real <= Scaled(val, precision);
    assert Scaled(val, precision) < k as real + 1.0;
    assert Trunc(Scaled(val, precision)) == k;
    assert PercentageValue(val, precision) == k as real / Scale(precision);
    DivMul(q, Scale(precision));
  }

  lemma PercentageValueOnGrid(val: real, precision: int)
    ensures OnGrid(PercentageValue(val, precision), precision)
  {
    var t := Trunc(Scaled(val, precision));
    assert PercentageValue(val, precision) == t as real / Scale(precision);
    DivMul(t as real, Scale(precision));
    assert PercentageValue(val, precision) * Scale(precision) == t as real;
    assert (t as real).Floor == t;
  }

  /** A value already on the grid is left as it is. */
  lemma PercentageValueExact(val: real, precision: int)
    requires OnGrid(100.0 * val, precision)
    ensures PercentageValue(val, precision) == 100.0 * val
  {
    var x := Scaled(val, precision);
    assert x == (100.0 * val) * Scale(precision);
    assert x.Floor as real == x;
    assert Trunc(x) == x.Floor;
    assert PercentageValue(val, precision) == x / Scale(precision);
    DivMul(100.0 * val, Scale(precision));
  }

  // ---------------------------------------------------------------------------
  // Files listed in the comment

  datatype FileInfo = FileInfo(path: Path, coverage: FileCoverage, diff: Option<FileDiffCoverage>)

  /** `sort_order`: most missing lines first, then most added statements,
      then most executed lines. */
  function SortOrder(f: FileInfo): (int, int, int) {
    (|f.coverage.missingLines|,
     if f.diff.Some? then |f.diff.value.addedStatements| else 0,
     |f.coverage.executedLines|)
  }

  /** Tuple comparison `a <= b`. */
  predicate KeyLeq(a: (int, int, int), b: (int, int, int)) {
    a.0 < b.0 || (a.0 == b.0 && (a.1 < b.1 || (a.1 == b.1 && a.2 <= b.2)))
  }

  /** `sorted(..., key=sort_order, reverse=True)`, which keeps equal keys in
      their original order. */
  predicate ByKeyDescending(a: FileInfo, b: FileInfo) {
    KeyLeq(SortOrder(b), SortOrder(a))
  }

  predicate ByPath(a: FileInfo, b: FileInfo) {
    PathLeq(a.path, b.path)
  }

  lemma ByKeyDescendingPreorder()
    ensures TotalPreorder(ByKeyDescending)
  {
  }

  lemma ByPathPreorder()
    ensures TotalPreorder(ByPath)
  {
    forall a: FileInfo, b: FileInfo ensures ByPath(a, b) || ByPath(b, a) {
      PathOrder(a.path, b.path, b.path);
    }
    forall a: FileInfo, b: FileInfo, c: FileInfo | ByPath(a, b) && ByPath(b, c) ensures ByPath(a, c) {
      PathOrder(a.path, b.path, c.path);
    }
  }

  /** The length of `s[:n]` for a list of length `len`. */
  function SliceLength(len: nat, maxFiles: Option<int>): (m: nat)
    ensures m <= len
  {
    match maxFiles
    case None => len
    case Some(n) =>
      if n >= 0 then (if n < len then n else len)
      else if len + n > 0 then len + n else 0
  }

  /** `s[:max_files]`, a negative bound counting from the end. */
  function Take<T>(s: seq<T>, maxFiles: Option<int>): (r: seq<T>)
    ensures r == s[..SliceLength(|s|, maxFiles)]
  {
    s[..SliceLength(|s|, maxFiles)]
  }

  /** `sort_and_trucate_files`. */
  function SortAndTruncateFiles(files: seq<FileInfo>, maxFiles: Option<int>): (r: seq<FileInfo>)
    ensures |r| == SliceLength(|files|, maxFiles)
    ensures multiset(r) <= multiset(files)
  {
    var ranked := InsertionSort(files, ByKeyDescending);
    var kept := Take(ranked, maxFiles);
    assert ranked == kept + ranked[|kept|..];
    InsertionSort(kept, ByPath)
  }

  /** The files the truncation leaves out. */
  function DroppedFiles(files: seq<FileInfo>, maxFiles: Option<int>): seq<FileInfo> {
    var ranked := InsertionSort(files, ByKeyDescending);
    ranked[SliceLength(|files|, maxFiles)..]
  }

  /** The listing is ordered by path. */
  lemma SortAndTruncateOrdered(files: seq<FileInfo>, maxFiles: Option<int>)
    ensures Sorted(SortAndTruncateFiles(files, maxFiles), ByPath)
  {
    ByPathPreorder();
    var ranked := InsertionSort(files, ByKeyDescending);
    InsertionSortSorted(Take(ranked, maxFiles), ByPath);
  }

  /** The listing and the left-out files together are the input files. */
  lemma SortAndTruncatePartition(files: seq<FileInfo>, maxFiles: Option<int>)
    ensures multiset(SortAndTruncateFiles(files, maxFiles)) + multiset(DroppedFiles(files, maxFiles))
      == multiset(files)
  {
    var ranked := InsertionSort(files, ByKeyDescending);
    var m := SliceLength(|files|, maxFiles);
    assert ranked == ranked[..m] + ranked[m..];
  }

  /** No left-out file ranks above a listed one. */
  lemma SortAndTruncateRanked(files: seq<FileInfo>, maxFiles: Option<int>, kept: FileInfo, dropped: FileInfo)
    requires kept in SortAndTruncateFiles(files, maxFiles)
    requires dropped in DroppedFiles(files, maxFiles)
    ensures KeyLeq(SortOrder(dropped), SortOrder(kept))
  {
    var a := KeptRank(files, maxFiles, kept);
    var b := DroppedRank(files, maxFiles, dropped);
    RankedOrder(files, a, b);
  }

  /** A listed file's place in the ranking is before the cut. */
  lemma KeptRank(files: seq<FileInfo>, maxFiles: Option<int>, kept: FileInfo) returns (a: nat)
    requires kept in SortAndTruncateFiles(files, maxFiles)
    ensures a < SliceLength(|files|, maxFiles)
    ensures InsertionSort(files, ByKeyDescending)[a] == kept
  {
    var head := Take(InsertionSort(files, ByKeyDescending), maxFiles);
    assert kept in multiset(InsertionSort(head, ByPath));
    a := IndexOf(kept, head);
  }

  /** A left-out file's place in the ranking is at or after the cut. */
  lemma DroppedRank(files: seq<FileInfo>, maxFiles: Option<int>, dropped: FileInfo) returns (b: nat)
    requires dropped in DroppedFiles(files, maxFiles)
    ensures SliceLength(|files|, maxFiles) <= b < |files|
    ensures InsertionSort(files, ByKeyDescending)[b] == dropped
  {
    var m := SliceLength(|files|, maxFiles);
    var tail := InsertionSort(files, ByKeyDescending)[m..];
    var k := IndexOf(dropped, tail);
    b := m + k;
  }

  lemma IndexOf<T>(x: T, s: seq<T>) returns (i: nat)
    requires x in s
    ensures i < |s| && s[i] == x
  {
    i :| 0 <= i < |s| && s[i] == x;
  }

  /** Ranking puts a file with a larger key before one with a smaller key. */
  lemma RankedOrder(files: seq<FileInfo>, a: nat, b: nat)
    requires a < b < |files|
    ensures var ranked := InsertionSort(files, ByKeyDescending);
      KeyLeq(SortOrder(ranked[b]), SortOrder(ranked[a]))
  {
    ByKeyDescendingPreorder();
    InsertionSortSorted(files, ByKeyDescending);
  }

  /** Without a bound every file is listed. */
  lemma SortAndTruncateAll(files: seq<FileInfo>)
    ensures multiset(SortAndTruncateFiles(files, None)) == multiset(files)
  {
    SortAndTruncatePartition(files, None);
  }

  // ---------------------------------------------------------------------------
  // Choosing the files

  /** A diff entry with at least one added statement. */
  predicate HasDiff(d: Option<FileDiffCoverage>) {
    d.Some? && |d.value.addedStatements| > 0
  }

  /** The loop of `select_changed_files`, in the report's order. */
  function ChangedFiles(entries: seq<(Path, FileCoverage)>, diff: DiffCoverage): (r: seq<FileInfo>)
    ensures |r| <= |entries|
  {
    if |entries| == 0 then []
    else
      var (path, file) := entries[0];
      var d := Get(diff.files, path);
      (if HasDiff(d) then [FileInfo(path, file, d)] else []) + ChangedFiles(entries[1..], diff)
  }

  /** A report file is listed as changed exactly when its diff entry has an
      added statement, and then with that entry. */
  lemma {:induction false} ChangedFilesMember(entries: seq<(Path, FileCoverage)>, diff: DiffCoverage, f: FileInfo)
    ensures f in ChangedFiles(entries, diff)
      <==> (f.path, f.coverage) in entries && f.diff == Get(diff.files, f.path) && HasDiff(f.diff)
  {
    if |entries| > 0 {
      ChangedFilesMember(entries[1..], diff, f);
      assert entries == [entries[0]] + entries[1..];
      var d := Get(diff.files, entries[0].0);
      var head := if HasDiff(d) then [FileInfo(entries[0].0, entries[0].1, d)] else [];
      assert ChangedFiles(entries, diff) == head + ChangedFiles(entries[1..], diff);
      assert (f.path, f.coverage) in entries <==> (f.path, f.coverage) == entries[0] || (f.path, f.coverage) in entries[1..];
    }
  }

  /** `select_changed_files`: the truncated listing, how many files
      changed, and all of them. */
  function SelectChangedFiles(coverage: Coverage, diff: DiffCoverage, maxFiles: Option<int>): (r: (seq<FileInfo>, int, seq<FileInfo>))
    ensures r.1 == |r.2|
    ensures r.0 == SortAndTruncateFiles(r.2, maxFiles)
    ensures forall f :: (f in r.2
      <==> (f.path, f.coverage) in coverage.files && f.diff == Get(diff.files, f.path) && HasDiff(f.diff))
  {
    var files := ChangedFiles(coverage.files, diff);
    assert forall f :: (f in files
      <==> (f.path, f.coverage) in coverage.files && f.diff == Get(diff.files, f.path) && HasDiff(f.diff)) by {
      forall f
        ensures f in files
          <==> (f.path, f.coverage) in coverage.files && f.diff == Get(diff.files, f.path) && HasDiff(f.diff)
      {
        ChangedFilesMember(coverage.files, diff, f);
      }
    }
    (SortAndTruncateFiles(files, maxFiles), |files|, files)
  }

  /** The loop of `select_files`, in the report's order. */
  function OtherFiles(entries: seq<(Path, FileCoverage)>, changed: set<Path>): (r: seq<FileInfo>)
    ensures |r| <= |entries|
  {
    if |entries| == 0 then []
    else
      var (path, file) := entries[0];
      (if path !in changed && file.info.numStatements != 0 then [FileInfo(path, file, None)] else [])
      + OtherFiles(entries[1..], changed)
  }

  /** A report file is listed exactly when it is not among the changed
      files and has statements; it is listed without a diff. */
  lemma {:induction false} OtherFilesMember(entries: seq<(Path, FileCoverage)>, changed: set<Path>, f: FileInfo)
    ensures f in OtherFiles(entries, changed)
      <==> ((f.path, f.coverage) in entries && f.diff == None
            && f.path !in changed && f.coverage.info.numStatements != 0)
  {
    if |entries| > 0 {
      OtherFilesMember(entries[1..], changed, f);
      assert entries == [entries[0]] + entries[1..];
      var (path, file) := entries[0];
      var head := if path !in changed && file.info.numStatements != 0 then [FileInfo(path, file, None)] else [];
      assert OtherFiles(entries, changed) == head + OtherFiles(entries[1..], changed);
      assert (f.path, f.coverage) in entries <==> (f.path, f.coverage) == entries[0] || (f.path, f.coverage) in entries[1..];
    }
  }

  function Paths(files: seq<FileInfo>): set<Path> {
    set f | f in files :: f.path
  }

  /** `select_files`: the truncated listing and the number of files
      chosen. */
  function SelectFiles(coverage: Coverage, changedFilesInfo: seq<FileInfo>, maxFiles: Option<int>): (r: (seq<FileInfo>, int))
  {
    var files := OtherFiles(coverage.files, Paths(changedFilesInfo));
    (SortAndTruncateFiles(files, maxFiles), |files|)
  }

  /** A file listed by `select_files` was chosen, so it is not a changed
      file and has statements. */
  lemma SelectFilesListed(coverage: Coverage, changedFilesInfo: seq<FileInfo>, maxFiles: Option<int>, f: FileInfo)
    requires f in SelectFiles(coverage, changedFilesInfo, maxFiles).0
    ensures f.path !in Paths(changedFilesInfo)
    ensures f.coverage.info.numStatements != 0 && f.diff == None
    ensures (f.path, f.coverage) in coverage.files
  {
    var files := OtherFiles(coverage.files, Paths(changedFilesInfo));
    assert f in multiset(SortAndTruncateFiles(files, maxFiles));
    OtherFilesMember(coverage.files, Paths(changedFilesInfo), f);
  }

  /** A file listed by `select_changed_files` has an added statement. */
  lemma SelectChangedFilesListed(coverage: Coverage, diff: DiffCoverage, maxFiles: Option<int>, f: FileInfo)
    requires f in SelectChangedFiles(coverage, diff, maxFiles).0
    ensures HasDiff(f.diff) && f.diff == Get(diff.files, f.path)
    ensures (f.path, f.coverage) in coverage.files
  {
    var files := ChangedFiles(coverage.files, diff);
    assert f in multiset(SortAndTruncateFiles(files, maxFiles));
    ChangedFilesMember(coverage.files, diff, f);
  }
}
