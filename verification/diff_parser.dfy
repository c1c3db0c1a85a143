/** `parse_diff_output`: from the lines of a unified diff to the new-file line
    numbers each file's hunks touch. The diff arrives already split into lines;
    a line is classified by its first character. */
module DiffParser {
  import opened Wrappers
  import opened Text
  import opened Dicts
  import opened Sorting
  import opened CoverageModel

  /** The marker of the new file's name; the rest of the line is the path. */
  const AddedFilePrefix: string := "+++ b/"
  const HunkPrefix: string := "@@"

  /** `IndexError`/`ValueError` while reading a hunk header, and the
      `ValueError` of a hunk with lines but no file to put them in. */
  datatype DiffError = MalformedHunkHeader(header: string) | UnexpectedDiffFormat

  predicate IsContext(line: string) { |line| > 0 && line[0] == ' ' }
  predicate IsRemoved(line: string) { |line| > 0 && line[0] == '-' }
  predicate IsAdded(line: string) { |line| > 0 && line[0] == '+' }

  /** A line a hunk consumes. */
  predicate IsHunkLine(line: string) { IsContext(line) || IsRemoved(line) || IsAdded(line) }

  /** The new-file start of a hunk header `@@ -a[,b] +c[,d] @@ ...`: the third
      whitespace-separated word without its first character, completed by
      `,1`, cut at the commas, and both of the first two pieces read as
      integers. The length after the comma is read but not used. */
  function HunkStart(header: string): Option<int>
  {
    var ws := Words(header);
    if |ws| < 3 then None
    else
      var parts := SplitOn(ws[2][1..] + ",1", ',');
      assert ',' in ws[2][1..] + ",1" by {
        assert (ws[2][1..] + ",1")[|ws[2][1..]|] == ',';
      }
      match (ParseInt(parts[0]), ParseInt(parts[1]))
      case (Some(start), Some(_)) => Some(start)
      case _ => None
  }

  // ---------------------------------------------------------------------------
  // One hunk

  /** The first phase after the header: context lines move the start on,
      removed lines are skipped, any other line ends the phase. */
  function SkipLeading(lines: seq<string>, j: nat, lineStart: int): (r: (nat, int))
    requires j <= |lines|
    ensures j <= r.0 <= |lines|
    decreases |lines| - j
  {
    if j < |lines| && IsContext(lines[j]) then SkipLeading(lines, j + 1, lineStart + 1)
    else if j < |lines| && IsRemoved(lines[j]) then SkipLeading(lines, j + 1, lineStart)
    else (j, lineStart)
  }

  datatype Scan = Scan(next: nat, lineEnd: int, lastAdded: int)

  /** The second phase: context and added lines take a new-file number,
      added ones are remembered, removed lines are skipped, any other line
      ends the hunk and is left for the caller. */
  function ScanBody(lines: seq<string>, j: nat, lineEnd: int, lastAdded: int): (r: Scan)
    requires j <= |lines|
    ensures j <= r.next <= |lines|
    ensures lastAdded <= lineEnd ==> lastAdded <= r.lastAdded <= r.lineEnd
    decreases |lines| - j
  {
    if j < |lines| && (IsContext(lines[j]) || IsAdded(lines[j])) then
      ScanBody(lines, j + 1, lineEnd + 1, if IsAdded(lines[j]) then lineEnd + 1 else lastAdded)
    else if j < |lines| && IsRemoved(lines[j]) then
      ScanBody(lines, j + 1, lineEnd, lastAdded)
    else
      Scan(j, lineEnd, lastAdded)
  }

  /** The line numbers a hunk yields and the index of the first line after it. */
  datatype Hunk = Hunk(lines: seq<int>, next: nat)

  /** The two phases after a header at index `h` whose new-file start is
      `start`: the numbers from the first to the last added line. */
  function ReadHunk(lines: seq<string>, h: nat, start: int): (hk: Hunk)
    requires h < |lines|
    ensures h < hk.next <= |lines|
  {
    var (j, lineStart) := SkipLeading(lines, h + 1, start);
    var s := ScanBody(lines, j, lineStart, lineStart);
    Hunk(Range(lineStart, s.lastAdded), s.next)
  }

  /** `parse_line_number_diff_line` on the header at index `h`. */
  function ParseHunk(lines: seq<string>, h: nat): (r: Result<Hunk, DiffError>)
    requires h < |lines|
    ensures r.Err? <==> HunkStart(lines[h]).None?
    ensures r.Err? ==> r.error == MalformedHunkHeader(lines[h])
    ensures r.Ok? ==> h < r.value.next <= |lines|
  {
    match HunkStart(lines[h])
    case None => Err(MalformedHunkHeader(lines[h]))
    case Some(start) => Ok(ReadHunk(lines, h, start))
  }

  // ---------------------------------------------------------------------------
  // The whole diff

  /** The main loop from line `i`, with the file of the last `+++ b/` marker
      and the map built so far. */
  function ParseFrom(lines: seq<string>, i: nat, current: Option<Path>, acc: Dict<Path, seq<int>>)
    : (r: Result<Dict<Path, seq<int>>, DiffError>)
    requires i <= |lines|
    decreases |lines| - i
  {
    if i == |lines| then Ok(acc)
    else
      var line := lines[i];
      if StartsWith(line, AddedFilePrefix) then
        ParseFrom(lines, i + 1, Some(line[|AddedFilePrefix|..]), acc)
      else if StartsWith(line, HunkPrefix) then
        match ParseHunk(lines, i)
        case Err(e) => Err(e)
        case Ok(hunk) =>
          if |hunk.lines| == 0 then ParseFrom(lines, hunk.next, current, acc)
          else
            match current
            case None => Err(UnexpectedDiffFormat)
            case Some(file) => ParseFrom(lines, hunk.next, current, Extend(acc, file, hunk.lines))
      else
        ParseFrom(lines, i + 1, current, acc)
  }

  /** `parse_diff_output`: every path in the result received at least one line. */
  function ParseDiffOutput(lines: seq<string>): (r: Result<Dict<Path, seq<int>>, DiffError>)
    ensures r.Ok? ==> forall k :: 0 <= k < |r.value| ==> |r.value[k].1| > 0
  {
    ParseFromExtends(lines, 0, None, []);
    ParseFrom(lines, 0, None, [])
  }

  // ---------------------------------------------------------------------------
  // Reference description of a hunk

  /** The index of the first line from `j` on that is not a hunk line. */
  function HunkEnd(lines: seq<string>, j: nat): (e: nat)
    requires j <= |lines|
    ensures j <= e <= |lines|
    ensures forall k :: j <= k < e ==> IsHunkLine(lines[k])
    ensures e == |lines| || !IsHunkLine(lines[e])
    decreases |lines| - j
  {
    if j < |lines| && IsHunkLine(lines[j]) then HunkEnd(lines, j + 1) else j
  }

  /** How many of `lines[lo..hi]` exist in the new file (context or added). */
  function NewCount(lines: seq<string>, lo: nat, hi: nat): nat
    requires lo <= hi <= |lines|
    decreases hi - lo
  {
    if lo == hi then 0
    else (if IsContext(lines[lo]) || IsAdded(lines[lo]) then 1 else 0) + NewCount(lines, lo + 1, hi)
  }

  lemma {:induction false} NewCountSplit(lines: seq<string>, lo: nat, mid: nat, hi: nat)
    requires lo <= mid <= hi <= |lines|
    ensures NewCount(lines, lo, hi) == NewCount(lines, lo, mid) + NewCount(lines, mid, hi)
    decreases mid - lo
  {
    if lo < mid {
      NewCountSplit(lines, lo + 1, mid, hi);
    }
  }

  lemma {:induction false} SkipLeadingSpec(lines: seq<string>, j: nat, s: int)
    requires j <= |lines|
    ensures var (j', ls) := SkipLeading(lines, j, s);
      && j' <= HunkEnd(lines, j)
      && HunkEnd(lines, j') == HunkEnd(lines, j)
      && (forall k :: j <= k < j' ==> !IsAdded(lines[k]))
      && (j' < HunkEnd(lines, j) ==> IsAdded(lines[j']))
      && ls == s + NewCount(lines, j, j')
    decreases |lines| - j
  {
    if j < |lines| && IsContext(lines[j]) {
      SkipLeadingSpec(lines, j + 1, s + 1);
      SkipLeadingStep(lines, j, s + 1, 1);
    } else if j < |lines| && IsRemoved(lines[j]) {
      SkipLeadingSpec(lines, j + 1, s);
      SkipLeadingStep(lines, j, s, 0);
    }
  }

  /** One line of the leading phase: what holds from `j + 1` holds from `j`. */
  lemma SkipLeadingStep(lines: seq<string>, j: nat, s': int, n: nat)
    requires j < |lines| && (IsContext(lines[j]) || IsRemoved(lines[j]))
    requires n == if IsContext(lines[j]) then 1 else 0
    ensures var (j', ls) := SkipLeading(lines, j + 1, s');
      j + 1 <= j' ==> NewCount(lines, j, j') == n + NewCount(lines, j + 1, j')
    ensures HunkEnd(lines, j) == HunkEnd(lines, j + 1)
  {
  }

  lemma {:induction false} ScanBodyEnd(lines: seq<string>, j: nat, e: int, la: int)
    requires j <= |lines|
    ensures ScanBody(lines, j, e, la).next == HunkEnd(lines, j)
    ensures ScanBody(lines, j, e, la).lineEnd == e + NewCount(lines, j, HunkEnd(lines, j))
    decreases |lines| - j
  {
    if j < |lines| && (IsContext(lines[j]) || IsAdded(lines[j])) {
      ScanBodyEnd(lines, j + 1, e + 1, if IsAdded(lines[j]) then e + 1 else la);
    } else if j < |lines| && IsRemoved(lines[j]) {
      ScanBodyEnd(lines, j + 1, e, la);
    }
  }

  lemma {:induction false} ScanBodyNoAdded(lines: seq<string>, j: nat, e: int, la: int)
    requires j <= |lines|
    requires forall k :: j <= k < HunkEnd(lines, j) ==> !IsAdded(lines[k])
    ensures ScanBody(lines, j, e, la).lastAdded == la
    decreases |lines| - j
  {
    if j < |lines| && IsContext(lines[j]) {
      ScanBodyNoAdded(lines, j + 1, e + 1, la);
    } else if j < |lines| && IsRemoved(lines[j]) {
      ScanBodyNoAdded(lines, j + 1, e, la);
    }
  }

  lemma {:induction false} ScanBodyAny(lines: seq<string>, j: nat, e: int, la: int, k: nat)
    requires j <= |lines| && j <= k < HunkEnd(lines, j) && IsAdded(lines[k])
    ensures ScanBody(lines, j, e, la).lastAdded > e
    decreases |lines| - j
  {
    if k > j {
      if IsRemoved(lines[j]) {
        ScanBodyAny(lines, j + 1, e, la, k);
      } else {
        ScanBodyAny(lines, j + 1, e + 1, if IsAdded(lines[j]) then e + 1 else la, k);
      }
    }
  }

  /** The last added line of the run sets the remembered number. */
  lemma {:induction false} ScanBodyLast(lines: seq<string>, j: nat, e: int, la: int, l: nat)
    requires j <= |lines| && j <= l < HunkEnd(lines, j) && IsAdded(lines[l])
    requires forall k :: l < k < HunkEnd(lines, j) ==> !IsAdded(lines[k])
    ensures ScanBody(lines, j, e, la).lastAdded == e + NewCount(lines, j, l) + 1
    decreases |lines| - j
  {
    if l == j {
      ScanBodyNoAdded(lines, j + 1, e + 1, e + 1);
    } else if IsRemoved(lines[j]) {
      ScanBodyLast(lines, j + 1, e, la, l);
    } else {
      ScanBodyLast(lines, j + 1, e + 1, if IsAdded(lines[j]) then e + 1 else la, l);
    }
  }

  /** A hunk consumes the longest run of context, removed and added lines
      after its header, and yields nothing exactly when that run holds no
      added line. */
  lemma ReadHunkExtent(lines: seq<string>, h: nat, start: int)
    requires h < |lines|
    ensures var hk := ReadHunk(lines, h, start);
      var n := HunkEnd(lines, h + 1);
      && hk.next == n
      && (hk.lines == [] <==> forall k :: h < k < n ==> !IsAdded(lines[k]))
  {
    var (j, lineStart) := SkipLeading(lines, h + 1, start);
    var s := ScanBody(lines, j, lineStart, lineStart);
    assert ReadHunk(lines, h, start) == Hunk(Range(lineStart, s.lastAdded), s.next);
    SkipLeadingSpec(lines, h + 1, start);
    ScanBodyEnd(lines, j, lineStart, lineStart);
    var n := HunkEnd(lines, h + 1);
    if forall k :: h < k < n ==> !IsAdded(lines[k]) {
      ScanBodyNoAdded(lines, j, lineStart, lineStart);
    } else {
      var k :| h < k < n && IsAdded(lines[k]);
      ScanBodyAny(lines, j, lineStart, lineStart, k);
    }
  }

  /** With `f` and `l` the first and the last added line of the hunk after
      the header at `h`: the hunk yields every new-file number from that of
      line `f` to that of line `l`, both included, where a line's new-file
      number is the header's start plus the context and added lines before it
      in the hunk. Interior context lines are thus included and trailing ones
      are not. */
  lemma HunkAddedRange(lines: seq<string>, h: nat, start: int, f: nat, l: nat)
    requires h < |lines| && h < f <= l < HunkEnd(lines, h + 1) && IsAdded(lines[f]) && IsAdded(lines[l])
    requires forall k :: h < k < f ==> !IsAdded(lines[k])
    requires forall k :: l < k < HunkEnd(lines, h + 1) ==> !IsAdded(lines[k])
    ensures ReadHunk(lines, h, start).lines == Range(start + NewCount(lines, h + 1, f), start + NewCount(lines, h + 1, l) + 1)
  {
    LeadingEndsAtFirstAdded(lines, h, start, f);
    var lineStart := start + NewCount(lines, h + 1, f);
    var last := ScanBody(lines, f, lineStart, lineStart).lastAdded;
    ReadHunkFrom(lines, h, start, f, lineStart);
    LastAddedNumber(lines, h, f, l, lineStart);
    NewCountSplit(lines, h + 1, f, l);
    assert last == start + NewCount(lines, h + 1, l) + 1;
  }

  lemma ReadHunkFrom(lines: seq<string>, h: nat, start: int, f: nat, lineStart: int)
    requires h < |lines|
    requires SkipLeading(lines, h + 1, start) == (f, lineStart)
    ensures ReadHunk(lines, h, start).lines == Range(lineStart, ScanBody(lines, f, lineStart, lineStart).lastAdded)
  {
  }

  /** The leading phase stops at the first added line. */
  lemma LeadingEndsAtFirstAdded(lines: seq<string>, h: nat, start: int, f: nat)
    requires h < |lines| && h < f < HunkEnd(lines, h + 1) && IsAdded(lines[f])
    requires forall k :: h < k < f ==> !IsAdded(lines[k])
    ensures SkipLeading(lines, h + 1, start) == (f, start + NewCount(lines, h + 1, f))
    ensures HunkEnd(lines, f) == HunkEnd(lines, h + 1)
  {
    SkipLeadingSpec(lines, h + 1, start);
  }

  lemma LastAddedNumber(lines: seq<string>, h: nat, f: nat, l: nat, lineStart: int)
    requires h < |lines| && h < f <= l < HunkEnd(lines, h + 1) && IsAdded(lines[l])
    requires forall k :: l < k < HunkEnd(lines, h + 1) ==> !IsAdded(lines[k])
    requires HunkEnd(lines, f) == HunkEnd(lines, h + 1)
    ensures ScanBody(lines, f, lineStart, lineStart).lastAdded == lineStart + NewCount(lines, f, l) + 1
  {
    ScanBodyLast(lines, f, lineStart, lineStart, l);
  }

  // ---------------------------------------------------------------------------
  // The whole diff

  /** `acc` grew into `r`: the same keys first, in the same order, each list
      only extended at its end; new keys come after. */
  ghost predicate Grows(acc: seq<(Path, seq<int>)>, r: seq<(Path, seq<int>)>) {
    && |acc| <= |r|
    && forall k :: 0 <= k < |acc| ==> r[k].0 == acc[k].0 && acc[k].1 <= r[k].1
  }

  ghost predicate NonEmptyValues(m: seq<(Path, seq<int>)>) {
    forall k :: 0 <= k < |m| ==> |m[k].1| > 0
  }

  lemma ExtendGrows(acc: Dict<Path, seq<int>>, file: Path, xs: seq<int>)
    requires |xs| > 0
    ensures Grows(acc, Extend(acc, file, xs))
    ensures NonEmptyValues(acc) ==> NonEmptyValues(Extend(acc, file, xs))
  {
  }

  lemma GrowsTransitive(a: seq<(Path, seq<int>)>, b: seq<(Path, seq<int>)>, c: seq<(Path, seq<int>)>)
    requires Grows(a, b) && Grows(b, c)
    ensures Grows(a, c)
  {
    forall k | 0 <= k < |a|
      ensures c[k].0 == a[k].0 && a[k].1 <= c[k].1
    {
      assert b[k].1 <= c[k].1;
    }
  }

  /** The loop only ever appends: to the list of a path it already holds, or
      as a new path at the end; and a path only appears with lines. */
  lemma {:induction false} ParseFromExtends(lines: seq<string>, i: nat, current: Option<Path>, acc: Dict<Path, seq<int>>)
    requires i <= |lines|
    ensures var r := ParseFrom(lines, i, current, acc);
      r.Ok? ==> Grows(acc, r.value) && (NonEmptyValues(acc) ==> NonEmptyValues(r.value))
    decreases |lines| - i
  {
    if i < |lines| {
      var line := lines[i];
      if StartsWith(line, AddedFilePrefix) {
        ParseFromExtends(lines, i + 1, Some(line[|AddedFilePrefix|..]), acc);
      } else if StartsWith(line, HunkPrefix) {
        match ParseHunk(lines, i)
        case Err(_) =>
        case Ok(hunk) =>
          if |hunk.lines| == 0 {
            ParseFromExtends(lines, hunk.next, current, acc);
          } else {
            match current
            case None =>
            case Some(file) =>
              var acc' := Extend(acc, file, hunk.lines);
              ExtendGrows(acc, file, hunk.lines);
              ParseFromExtends(lines, hunk.next, current, acc');
              var r := ParseFrom(lines, hunk.next, current, acc');
              if r.Ok? {
                GrowsTransitive(acc, acc', r.value);
              }
          }
      } else {
        ParseFromExtends(lines, i + 1, current, acc);
      }
    }
  }

  // ---------------------------------------------------------------------------
  // The hunks the loop reaches

  /** A hunk the main loop read: the index of its header, the file of the
      last marker the loop passed, and the numbers the hunk yields. */
  datatype Visit = Visit(at: nat, file: Option<Path>, numbers: seq<int>)

  /** The hunks the loop reaches, in order, and the index of the header it
      could not read, if it stopped at one. */
  datatype Trace = Trace(visits: seq<Visit>, malformed: Option<nat>)

  /** The header at `v.at` opens a hunk whose numbers are `v.numbers`. */
  predicate VisitRead(lines: seq<string>, v: Visit) {
    && v.at < |lines|
    && StartsWith(lines[v.at], HunkPrefix)
    && HunkStart(lines[v.at]).Some?
    && v.numbers == ReadHunk(lines, v.at, HunkStart(lines[v.at]).value).lines
  }

  /** The loop's walk from line `i` with `current` as the file, with the
      numbers kept apart from the map they are filed into. A marker line sets
      the file; a header opens a hunk and the walk resumes after it, so a
      `+++ b/` line inside a hunk is an added line and not a marker. */
  function HunksFrom(lines: seq<string>, i: nat, current: Option<Path>): (t: Trace)
    requires i <= |lines|
    ensures forall k :: 0 <= k < |t.visits| ==> VisitRead(lines, t.visits[k]) && i <= t.visits[k].at
    ensures forall k, l :: 0 <= k < l < |t.visits| ==> t.visits[k].at < t.visits[l].at
    ensures t.malformed.Some? ==>
      && i <= t.malformed.value < |lines|
      && StartsWith(lines[t.malformed.value], HunkPrefix)
      && HunkStart(lines[t.malformed.value]).None?
    decreases |lines| - i
  {
    if i == |lines| then Trace([], None)
    else
      var line := lines[i];
      if StartsWith(line, AddedFilePrefix) then
        HunksFrom(lines, i + 1, Some(line[|AddedFilePrefix|..]))
      else if StartsWith(line, HunkPrefix) then
        match HunkStart(line)
        case None => Trace([], Some(i))
        case Some(start) =>
          var hk := ReadHunk(lines, i, start);
          var rest := HunksFrom(lines, hk.next, current);
          Trace([Visit(i, current, hk.lines)] + rest.visits, rest.malformed)
      else
        HunksFrom(lines, i + 1, current)
  }

  /** Filing the visits' numbers into `acc`, front to back; a visit with
      numbers but no file fails. */
  function Collect(acc: Dict<Path, seq<int>>, vs: seq<Visit>): Result<Dict<Path, seq<int>>, DiffError>
    decreases |vs|
  {
    if |vs| == 0 then Ok(acc)
    else if |vs[0].numbers| == 0 then Collect(acc, vs[1..])
    else
      match vs[0].file
      case None => Err(UnexpectedDiffFormat)
      case Some(f) => Collect(Extend(acc, f, vs[0].numbers), vs[1..])
  }

  /** The outcome of a walk: the filing's failure first, then the header the
      walk stopped at, else the filed map. */
  function Outcome(lines: seq<string>, acc: Dict<Path, seq<int>>, t: Trace): Result<Dict<Path, seq<int>>, DiffError>
    requires t.malformed.Some? ==> t.malformed.value < |lines|
  {
    match Collect(acc, t.visits)
    case Err(e) => Err(e)
    case Ok(m) =>
      if t.malformed.Some? then Err(MalformedHunkHeader(lines[t.malformed.value])) else Ok(m)
  }

  /** Some hunk the loop reached yields numbers while no marker was passed. */
  predicate Orphaned(vs: seq<Visit>) {
    exists k :: 0 <= k < |vs| && vs[k].file.None? && |vs[k].numbers| > 0
  }

  /** Every number the visits file under `p`, in visit order. */
  function Filed(vs: seq<Visit>, p: Path): seq<int> {
    if |vs| == 0 then []
    else (if vs[0].file == Some(p) then vs[0].numbers else []) + Filed(vs[1..], p)
  }

  lemma VisitsTail(v: Visit, rest: seq<Visit>)
    ensures ([v] + rest)[0] == v && ([v] + rest)[1..] == rest
  {
  }

  /** The loop is its walk followed by the filing. */
  lemma {:induction false} ParseFromTrace(lines: seq<string>, i: nat, current: Option<Path>, acc: Dict<Path, seq<int>>)
    requires i <= |lines|
    ensures ParseFrom(lines, i, current, acc) == Outcome(lines, acc, HunksFrom(lines, i, current))
    decreases |lines| - i
  {
    if i < |lines| {
      var line := lines[i];
      if StartsWith(line, AddedFilePrefix) {
        ParseFromTrace(lines, i + 1, Some(line[|AddedFilePrefix|..]), acc);
      } else if StartsWith(line, HunkPrefix) {
        match HunkStart(line)
        case None =>
          assert Collect(acc, []) == Ok(acc);
        case Some(start) =>
          var hk := ReadHunk(lines, i, start);
          var rest := HunksFrom(lines, hk.next, current);
          var v := Visit(i, current, hk.lines);
          assert HunksFrom(lines, i, current) == Trace([v] + rest.visits, rest.malformed);
          assert ParseHunk(lines, i) == Ok(hk);
          VisitsTail(v, rest.visits);
          if |hk.lines| == 0 {
            ParseFromTrace(lines, hk.next, current, acc);
            assert Collect(acc, [v] + rest.visits) == Collect(acc, rest.visits);
          } else if current.Some? {
            var acc' := Extend(acc, current.value, hk.lines);
            ParseFromTrace(lines, hk.next, current, acc');
            assert Collect(acc, [v] + rest.visits) == Collect(acc', rest.visits);
          } else {
            assert Collect(acc, [v] + rest.visits) == Err(UnexpectedDiffFormat);
          }
      } else {
        ParseFromTrace(lines, i + 1, current, acc);
      }
    }
  }

  /** Filing fails exactly when a visit has numbers and no file, and then
      with the format error. */
  lemma {:induction false} CollectFails(acc: Dict<Path, seq<int>>, vs: seq<Visit>)
    ensures Collect(acc, vs).Err? <==> Orphaned(vs)
    ensures Collect(acc, vs).Err? ==> Collect(acc, vs).error == UnexpectedDiffFormat
    decreases |vs|
  {
    if |vs| > 0 {
      var acc' := if |vs[0].numbers| > 0 && vs[0].file.Some? then Extend(acc, vs[0].file.value, vs[0].numbers) else acc;
      CollectFails(acc', vs[1..]);
      OrphanedCons(vs);
    }
  }

  lemma OrphanedCons(vs: seq<Visit>)
    requires |vs| > 0
    ensures Orphaned(vs) <==> (vs[0].file.None? && |vs[0].numbers| > 0) || Orphaned(vs[1..])
  {
    if Orphaned(vs[1..]) {
      var k :| 0 <= k < |vs| - 1 && vs[1..][k].file.None? && |vs[1..][k].numbers| > 0;
      assert vs[k + 1] == vs[1..][k];
    }
    if Orphaned(vs) && !(vs[0].file.None? && |vs[0].numbers| > 0) {
      var k :| 0 <= k < |vs| && vs[k].file.None? && |vs[k].numbers| > 0;
      assert vs[1..][k - 1] == vs[k];
    }
  }

  /** A successful filing extends each path's list by exactly what the
      visits file under it. */
  lemma {:induction false} CollectFiled(acc: Dict<Path, seq<int>>, vs: seq<Visit>, p: Path)
    requires Collect(acc, vs).Ok?
    ensures ListOf(Collect(acc, vs).value, p) == ListOf(acc, p) + Filed(vs, p)
    decreases |vs|
  {
    if |vs| > 0 {
      var acc' := FileVisit(acc, vs[0]);
      var head := if vs[0].file == Some(p) then vs[0].numbers else [];
      CollectStep(acc, vs);
      CollectFiled(acc', vs[1..], p);
      FileVisitList(acc, vs[0], p);
      FiledCons(vs, p);
      AppendAssoc(ListOf(acc, p), head, Filed(vs[1..], p));
    } else {
      assert ListOf(acc, p) + [] == ListOf(acc, p);
    }
  }

  /** After a successful filing a path has an entry exactly when it had one
      before or some visit files numbers under it. */
  lemma {:induction false} CollectKeeps(acc: Dict<Path, seq<int>>, vs: seq<Visit>, p: Path)
    requires Collect(acc, vs).Ok?
    ensures Get(Collect(acc, vs).value, p).Some? <==> Get(acc, p).Some? || Filed(vs, p) != []
    decreases |vs|
  {
    if |vs| > 0 {
      var acc' := FileVisit(acc, vs[0]);
      var head := if vs[0].file == Some(p) then vs[0].numbers else [];
      CollectStep(acc, vs);
      CollectKeeps(acc', vs[1..], p);
      FileVisitList(acc, vs[0], p);
      FiledCons(vs, p);
      var tail := Filed(vs[1..], p);
      assert |head + tail| == |head| + |tail|;
    }
  }

  lemma AppendAssoc(a: seq<int>, b: seq<int>, c: seq<int>)
    ensures a + b + c == a + (b + c)
  {
  }

  /** What filing one visit leaves, when it does not fail. */
  function FileVisit(acc: Dict<Path, seq<int>>, v: Visit): Dict<Path, seq<int>> {
    if |v.numbers| > 0 && v.file.Some? then Extend(acc, v.file.value, v.numbers) else acc
  }

  lemma CollectStep(acc: Dict<Path, seq<int>>, vs: seq<Visit>)
    requires |vs| > 0 && Collect(acc, vs).Ok?
    ensures |vs[0].numbers| > 0 ==> vs[0].file.Some?
    ensures Collect(acc, vs) == Collect(FileVisit(acc, vs[0]), vs[1..])
  {
  }

  lemma FiledCons(vs: seq<Visit>, p: Path)
    requires |vs| > 0
    ensures Filed(vs, p) == (if vs[0].file == Some(p) then vs[0].numbers else []) + Filed(vs[1..], p)
  {
  }

  /** Filing one visit appends its numbers to its own file's list only. */
  lemma FileVisitList(acc: Dict<Path, seq<int>>, v: Visit, p: Path)
    requires |v.numbers| > 0 ==> v.file.Some?
    ensures var head := if v.file == Some(p) then v.numbers else [];
      && ListOf(FileVisit(acc, v), p) == ListOf(acc, p) + head
      && (Get(FileVisit(acc, v), p).Some? <==> Get(acc, p).Some? || head != [])
  {
    if |v.numbers| > 0 {
      GetExtend(acc, v.file.value, v.numbers, p);
    } else {
      assert ListOf(acc, p) + [] == ListOf(acc, p);
    }
  }

  /** `parse_diff_output` against the hunks the loop reaches: it fails with
      the format error iff one of them yields numbers with no file yet; it
      fails on a header iff it stops at one and none is orphaned; otherwise
      each path holds exactly the numbers its hunks yield, in diff order, and
      a path is a key iff it receives a number. */
  lemma ParseDiffOutputSpec(lines: seq<string>, p: Path)
    ensures var t := HunksFrom(lines, 0, None);
      var r := ParseDiffOutput(lines);
      && (r == Err(UnexpectedDiffFormat) <==> Orphaned(t.visits))
      && (r.Err? && r.error.MalformedHunkHeader? <==> !Orphaned(t.visits) && t.malformed.Some?)
      && (r.Err? && r.error.MalformedHunkHeader? ==> r.error == MalformedHunkHeader(lines[t.malformed.value]))
      && (r.Ok? ==> Get(r.value, p) == if Filed(t.visits, p) == [] then None else Some(Filed(t.visits, p)))
  {
    ParseFromTrace(lines, 0, None, []);
    OutcomeSpec(lines, HunksFrom(lines, 0, None), p);
  }

  /** The outcome of a walk from an empty map. */
  lemma OutcomeSpec(lines: seq<string>, t: Trace, p: Path)
    requires t.malformed.Some? ==> t.malformed.value < |lines|
    ensures var r := Outcome(lines, [], t);
      && (r == Err(UnexpectedDiffFormat) <==> Orphaned(t.visits))
      && (r.Err? && r.error.MalformedHunkHeader? <==> !Orphaned(t.visits) && t.malformed.Some?)
      && (r.Err? && r.error.MalformedHunkHeader? ==> r.error == MalformedHunkHeader(lines[t.malformed.value]))
      && (r.Ok? ==> Get(r.value, p) == if Filed(t.visits, p) == [] then None else Some(Filed(t.visits, p)))
  {
    var empty: Dict<Path, seq<int>> := [];
    CollectFails(empty, t.visits);
    var c := Collect(empty, t.visits);
    if c.Ok? {
      CollectFiled(empty, t.visits, p);
      CollectKeeps(empty, t.visits, p);
      assert ListOf(empty, p) == [];
      assert ListOf(c.value, p) == Filed(t.visits, p);
    }
  }

  // ---------------------------------------------------------------------------
  // Headers, files and errors

  /** The new-file token of a header as `git diff` writes it: `+start` or
      `+start,length`. */
  function RangeToken(start: int, length: Option<nat>): string
  {
    "+" + IntToString(start) + (if length.Some? then "," + NatToString(length.value) else "")
  }

  lemma ParseIntOne()
    ensures ParseInt("1") == Some(1)
  {
    assert IsDigitGroup("1");
    assert DigitsValue("1") == 10 * DigitsValue("") + 1;
  }

  /** Reading a well-formed header gives back the start it was written with,
      whatever the length and the text after the closing `@@`. */
  lemma HunkStartOfHeader(oldRange: string, start: int, length: Option<nat>, rest: string)
    requires |oldRange| > 0 && forall i :: 0 <= i < |oldRange| ==> !IsSpace(oldRange[i])
    ensures HunkStart("@@ " + oldRange + " " + RangeToken(start, length) + " " + rest) == Some(start)
  {
    var token := RangeToken(start, length);
    TokenHasNoSpace(start, length);
    HeaderThirdWord(oldRange, token, rest);
    TokenPieces(start, length);
  }

  lemma TokenHasNoSpace(start: int, length: Option<nat>)
    ensures forall i :: 0 <= i < |RangeToken(start, length)| ==> !IsSpace(RangeToken(start, length)[i])
  {
    var num := IntToString(start);
    var tail := if length.Some? then "," + NatToString(length.value) else "";
    var token := RangeToken(start, length);
    forall i | 0 <= i < |token| ensures !IsSpace(token[i]) {
      if i == 0 {
      } else if i <= |num| {
        assert token[i] == num[i - 1];
      } else {
        assert token[i] == tail[i - 1 - |num|];
      }
    }
  }

  lemma HeaderThirdWord(oldRange: string, token: string, rest: string)
    requires |oldRange| > 0 && forall i :: 0 <= i < |oldRange| ==> !IsSpace(oldRange[i])
    requires |token| > 0 && forall i :: 0 <= i < |token| ==> !IsSpace(token[i])
    ensures var ws := Words("@@ " + oldRange + " " + token + " " + rest); |ws| >= 3 && ws[2] == token
  {
    var t3 := token + " " + rest;
    var t2 := oldRange + " " + t3;
    HeaderShape(oldRange, token, rest);
    assert forall i :: 0 <= i < 2 ==> "@@"[i] == '@';
    WordsCons("@@", t2);
    WordsCons(oldRange, t3);
    WordsCons(token, rest);
  }

  lemma HeaderShape(oldRange: string, token: string, rest: string)
    ensures "@@ " + oldRange + " " + token + " " + rest == "@@" + " " + (oldRange + " " + (token + " " + rest))
  {
  }

  /** The pieces of a token after its first character, completed by `,1`. */
  lemma TokenPieces(start: int, length: Option<nat>)
    ensures var parts := SplitOn(RangeToken(start, length)[1..] + ",1", ',');
      |parts| >= 2 && ParseInt(parts[0]) == Some(start) && ParseInt(parts[1]).Some?
  {
    var num := IntToString(start);
    var tail := if length.Some? then "," + NatToString(length.value) else "";
    assert RangeToken(start, length) == ['+'] + (num + tail);
    assert RangeToken(start, length)[1..] == num + tail;
    IntToStringRoundTrip(start);
    assert forall i :: 0 <= i < |num| ==> num[i] != ',';
    if length.Some? {
      var len := NatToString(length.value);
      assert forall i :: 0 <= i < |len| ==> len[i] != ',';
      NatToStringValue(length.value);
      assert ParseInt(len).Some?;
      LengthPieces(num, len);
    } else {
      assert num + tail + ",1" == num + [','] + "1";
      OnePiece(num);
    }
  }

  /** `num,1` splits into `num` and `1`. */
  lemma OnePiece(num: string)
    requires forall i :: 0 <= i < |num| ==> num[i] != ','
    ensures var parts := SplitOn(num + [','] + "1", ',');
      |parts| >= 2 && parts[0] == num && ParseInt(parts[1]).Some?
  {
    SplitOnNoSep("1", ',');
    ParseIntOne();
    SplitOnCons(num, ',', "1");
  }

  /** `num,len,1` splits into `num`, `len` and `1`. */
  lemma LengthPieces(num: string, len: string)
    requires forall i :: 0 <= i < |num| ==> num[i] != ','
    requires forall i :: 0 <= i < |len| ==> len[i] != ','
    requires ParseInt(len).Some?
    ensures var parts := SplitOn(num + ("," + len) + ",1", ',');
      |parts| >= 2 && parts[0] == num && parts[1] == len
  {
    assert num + ("," + len) + ",1" == num + [','] + (len + [','] + "1");
    SplitOnCons(num, ',', len + [','] + "1");
    SplitOnCons(len, ',', "1");
  }

  /** Lines before the first hunk that name no file and open no hunk change
      nothing. */
  lemma {:induction false} SkipPreamble(lines: seq<string>, k: nat, i: nat, acc: Dict<Path, seq<int>>)
    requires k <= i <= |lines|
    requires forall m :: k <= m < i ==> !StartsWith(lines[m], AddedFilePrefix) && !StartsWith(lines[m], HunkPrefix)
    ensures ParseFrom(lines, k, None, acc) == ParseFrom(lines, i, None, acc)
    decreases i - k
  {
    if k < i {
      SkipPreamble(lines, k + 1, i, acc);
    }
  }

  /** A first hunk that yields lines before any `+++ b/` marker makes the
      whole parse fail. */
  lemma HunkBeforeFileFails(lines: seq<string>, i: nat)
    requires i < |lines| && StartsWith(lines[i], HunkPrefix) && HunkStart(lines[i]).Some?
    requires forall m :: 0 <= m < i ==> !StartsWith(lines[m], AddedFilePrefix) && !StartsWith(lines[m], HunkPrefix)
    requires ReadHunk(lines, i, HunkStart(lines[i]).value).lines != []
    ensures ParseDiffOutput(lines) == Err(UnexpectedDiffFormat)
  {
    SkipPreamble(lines, 0, i, []);
    assert lines[i][0] == '@';
    assert !StartsWith(lines[i], AddedFilePrefix);
  }

  /** A diff from line `i` on with no added line at all yields no line
      numbers, so it never needs a file: the parse keeps what it had or fails
      on a malformed header, never on a missing file. */
  lemma {:induction false} NoAddedLinesNoEntries(lines: seq<string>, i: nat, current: Option<Path>, acc: Dict<Path, seq<int>>)
    requires i <= |lines|
    requires forall k :: i <= k < |lines| ==> !IsAdded(lines[k])
    ensures var r := ParseFrom(lines, i, current, acc);
      r == Ok(acc) || (r.Err? && r.error.MalformedHunkHeader?)
    decreases |lines| - i
  {
    if i < |lines| {
      var line := lines[i];
      if StartsWith(line, AddedFilePrefix) {
        assert false;
      } else if StartsWith(line, HunkPrefix) {
        match HunkStart(line)
        case None =>
        case Some(start) =>
          ReadHunkExtent(lines, i, start);
          NoAddedLinesNoEntries(lines, ReadHunk(lines, i, start).next, current, acc);
      } else {
        NoAddedLinesNoEntries(lines, i + 1, current, acc);
      }
    }
  }

  /** A diff of one file whose only line is replaced. */
  const ReplaceOneLine: seq<string> := [
    "diff --git a/test.txt b/test.txt",
    "index 1111111..2222222 100644",
    "--- a/test.txt",
    "+++ b/test.txt",
    "@@ -1 +1 @@",
    "-old_content",
    "+new_content"
  ]

  lemma ReplaceOneLineHeader()
    ensures HunkStart(ReplaceOneLine[4]) == Some(1)
  {
    OneToken();
    assert forall i :: 0 <= i < 2 ==> "-1"[i] == '-' || "-1"[i] == '1';
    HunkStartOfHeader("-1", 1, None, "@@");
    assert ReplaceOneLine[4] == "@@ " + "-1" + " " + "+1" + " " + "@@";
  }

  lemma OneToken()
    ensures RangeToken(1, None) == "+1"
  {
    assert NatToString(1) == [DigitChar(1)];
  }

  lemma ReplaceOneLineHunk()
    ensures ReadHunk(ReplaceOneLine, 4, 1) == Hunk([1], 7)
  {
    var lines := ReplaceOneLine;
    assert HunkEnd(lines, 5) == 7;
    HunkAddedRange(lines, 4, 1, 6, 6);
    assert NewCount(lines, 5, 6) == 0;
    assert Range(1, 2) == [1];
    ReadHunkExtent(lines, 4, 1);
  }

  lemma ReplaceOneLinePreamble()
    ensures ParseFrom(ReplaceOneLine, 0, None, []) == ParseFrom(ReplaceOneLine, 4, Some("test.txt"), [])
  {
    var lines := ReplaceOneLine;
    ReplaceOneLineOpening();
    SkipPreamble(lines, 0, 3, []);
    ReplaceOneLineMarker();
  }

  /** The first three lines name no file and open no hunk. */
  lemma ReplaceOneLineOpening()
    ensures forall m :: 0 <= m < 3 ==> !StartsWith(ReplaceOneLine[m], AddedFilePrefix) && !StartsWith(ReplaceOneLine[m], HunkPrefix)
  {
    var lines := ReplaceOneLine;
    assert lines[0][0] == 'd' && lines[1][0] == 'i' && lines[2][0] == '-';
    OtherFirstChar(lines[0], AddedFilePrefix);
    OtherFirstChar(lines[0], HunkPrefix);
    OtherFirstChar(lines[1], AddedFilePrefix);
    OtherFirstChar(lines[1], HunkPrefix);
    OtherFirstChar(lines[2], AddedFilePrefix);
    OtherFirstChar(lines[2], HunkPrefix);
  }

  /** The fourth line names `test.txt`. */
  lemma ReplaceOneLineMarker()
    ensures StartsWith(ReplaceOneLine[3], AddedFilePrefix)
    ensures ReplaceOneLine[3][|AddedFilePrefix|..] == "test.txt"
  {
    assert ReplaceOneLine[3] == AddedFilePrefix + "test.txt";
  }

  lemma ReplaceOneLineFromHunk()
    ensures ParseFrom(ReplaceOneLine, 4, Some("test.txt"), []) == Ok([("test.txt", [1])])
  {
    var lines := ReplaceOneLine;
    ReplaceOneLineOpensHunk();
    assert ParseHunk(lines, 4) == Ok(Hunk([1], 7)) by {
      ReplaceOneLineHeader();
      ReplaceOneLineHunk();
    }
    var acc := Extend([], "test.txt", [1]);
    assert acc == [("test.txt", [1])] by {
      assert "test.txt" !in Keys<Path, seq<int>>([]);
    }
    assert ParseFrom(lines, 4, Some("test.txt"), []) == ParseFrom(lines, 7, Some("test.txt"), acc);
    assert |lines| == 7;
  }

  /** The fifth line opens a hunk. */
  lemma ReplaceOneLineOpensHunk()
    ensures StartsWith(ReplaceOneLine[4], HunkPrefix) && !StartsWith(ReplaceOneLine[4], AddedFilePrefix)
  {
    var line := ReplaceOneLine[4];
    assert line[..2] == HunkPrefix;
    OtherFirstChar(line, AddedFilePrefix);
  }

  /** A line whose first character differs from the prefix's does not
      start with it. */
  lemma OtherFirstChar(line: string, prefix: string)
    requires |line| > 0 && |prefix| > 0 && line[0] != prefix[0]
    ensures !StartsWith(line, prefix)
  {
  }

  /** The line that replaces the first line of a file is line 1. */
  lemma ReplaceOneLineExample()
    ensures ParseDiffOutput(ReplaceOneLine) == Ok([("test.txt", [1])])
  {
    ReplaceOneLinePreamble();
    ReplaceOneLineFromHunk();
  }
}
