/** `compute_contiguous_groups`: line numbers collapsed into runs of
    consecutive numbers, then neighbouring runs merged across small gaps. */
module Groups {
  import opened Sorting

  /** A range of line numbers, first and last included: `(start, end)`. */
  type Span = (int, int)

  predicate InSpan(x: int, g: Span) {
    g.0 <= x <= g.1
  }

  predicate SpansWellFormed(rs: seq<Span>) {
    forall i :: 0 <= i < |rs| ==> rs[i].0 <= rs[i].1
  }

  /** Each span ends before the next one starts: ascending and disjoint. */
  predicate Ascending(rs: seq<Span>) {
    forall i, j :: 0 <= i < j < |rs| ==> rs[i].1 < rs[j].0
  }

  function Starts(rs: seq<Span>): set<int> {
    set i | 0 <= i < |rs| :: rs[i].0
  }

  function Ends(rs: seq<Span>): set<int> {
    set i | 0 <= i < |rs| :: rs[i].1
  }

  // ---------------------------------------------------------------------------
  // Runs of consecutive values

  /** The `itertools.groupby` key of the `k`-th value: its position counted
      from one, minus the value. */
  function Key(values: seq<int>, k: nat): int
    requires k < |values|
  {
    (k + 1) - values[k]
  }

  /** The `(first, last)` pairs of the groups of equal keys, in order. */
  function Runs(values: seq<int>): (rs: seq<Span>)
    ensures |rs| <= |values|
    ensures |values| == 0 <==> |rs| == 0
    ensures |values| > 0 ==> rs[|rs| - 1].1 == values[|values| - 1]
  {
    if |values| == 0 then []
    else
      var n := |values|;
      var prev := Runs(values[..n - 1]);
      if n >= 2 && Key(values, n - 1) == Key(values, n - 2) then
        prev[..|prev| - 1] + [(prev[|prev| - 1].0, values[n - 1])]
      else
        prev + [(values[n - 1], values[n - 1])]
  }

  /** Every number of every span, in order. */
  function Expand(rs: seq<Span>): seq<int>
  {
    if |rs| == 0 then [] else Expand(rs[..|rs| - 1]) + Range(rs[|rs| - 1].0, rs[|rs| - 1].1 + 1)
  }

  /** No run could be extended by its successor. */
  predicate Maximal(rs: seq<Span>) {
    forall i :: 0 <= i < |rs| - 1 ==> rs[i].1 + 1 != rs[i + 1].0
  }

  /** For any input, sorted or not, the runs spell the values out again. */
  lemma {:induction false} RunsExpand(values: seq<int>)
    ensures Expand(Runs(values)) == values
  {
    var n := |values|;
    if n > 0 {
      var init := values[..n - 1];
      RunsExpand(init);
      RunsStep(values);
      assert values == init + [values[n - 1]];
    }
  }

  /** One more value adds one number at the end of the expansion. */
  lemma RunsStep(values: seq<int>)
    requires |values| > 0
    ensures Expand(Runs(values)) == Expand(Runs(values[..|values| - 1])) + [values[|values| - 1]]
  {
    var n := |values|;
    if n >= 2 && Key(values, n - 1) == Key(values, n - 2) {
      RunsWidenStep(values);
    } else {
      var prev := Runs(values[..n - 1]);
      assert Runs(values) == prev + [(values[n - 1], values[n - 1])];
      ExpandAppend(prev, (values[n - 1], values[n - 1]));
      assert Range(values[n - 1], values[n - 1] + 1) == [values[n - 1]];
    }
  }

  lemma RunsWidenStep(values: seq<int>)
    requires |values| >= 2 && Key(values, |values| - 1) == Key(values, |values| - 2)
    ensures Expand(Runs(values)) == Expand(Runs(values[..|values| - 1])) + [values[|values| - 1]]
  {
    var n := |values|;
    var init := values[..n - 1];
    var prev := Runs(init);
    RunsWellFormed(init);
    var m := |prev|;
    var s := prev[m - 1].0;
    var e := prev[m - 1].1;
    assert e == values[n - 2] && values[n - 1] == e + 1;
    assert prev == prev[..m - 1] + [(s, e)];
    assert Runs(values) == prev[..m - 1] + [(s, e + 1)];
    ExpandWiden(prev[..m - 1], s, e);
  }

  lemma ExpandAppend(rs: seq<Span>, g: Span)
    ensures Expand(rs + [g]) == Expand(rs) + Range(g.0, g.1 + 1)
  {
    assert (rs + [g])[..|rs|] == rs;
  }

  /** Widening the last span by one number adds that number at the end. */
  lemma ExpandWiden(rs: seq<Span>, s: int, e: int)
    requires s <= e
    ensures Expand(rs + [(s, e + 1)]) == Expand(rs + [(s, e)]) + [e + 1]
  {
    ExpandAppend(rs, (s, e + 1));
    ExpandAppend(rs, (s, e));
    assert Range(s, e + 2) == Range(s, e + 1) + [e + 1];
  }

  lemma {:induction false} RunsWellFormed(values: seq<int>)
    ensures SpansWellFormed(Runs(values))
  {
    if |values| > 0 {
      RunsWellFormed(values[..|values| - 1]);
    }
  }

  /** No two neighbouring runs could have been one: with `RunsExpand`, the
      runs are the maximal stretches of values that go up by one. */
  lemma {:induction false} RunsMaximal(values: seq<int>)
    ensures Maximal(Runs(values))
  {
    var n := |values|;
    if n > 0 {
      var init := values[..n - 1];
      RunsMaximal(init);
      var prev := Runs(init);
      if n >= 2 && Key(values, n - 1) == Key(values, n - 2) {
        MaximalWiden(prev, values[n - 1]);
      } else {
        MaximalAppend(prev, (values[n - 1], values[n - 1]));
      }
    }
  }

  lemma MaximalWiden(prev: seq<Span>, e: int)
    requires |prev| > 0 && Maximal(prev)
    ensures Maximal(prev[..|prev| - 1] + [(prev[|prev| - 1].0, e)])
  {
    var m := |prev|;
    var rs := prev[..m - 1] + [(prev[m - 1].0, e)];
    forall i | 0 <= i < |rs| - 1 ensures rs[i].1 + 1 != rs[i + 1].0 {
      assert rs[i] == prev[i] && rs[i + 1].0 == prev[i + 1].0;
    }
  }

  lemma MaximalAppend(prev: seq<Span>, g: Span)
    requires Maximal(prev)
    requires |prev| > 0 ==> prev[|prev| - 1].1 + 1 != g.0
    ensures Maximal(prev + [g])
  {
    var rs := prev + [g];
    forall i | 0 <= i < |rs| - 1 ensures rs[i].1 + 1 != rs[i + 1].0 {
      assert rs[i] == prev[i];
    }
  }

  /** Runs of strictly ascending values are ascending themselves. */
  lemma {:induction false} RunsAscending(values: seq<int>)
    requires StrictlyAscending(values)
    ensures Ascending(Runs(values))
  {
    var n := |values|;
    if n > 0 {
      var init := values[..n - 1];
      var prev := Runs(init);
      RunsAscending(init);
      RunsWellFormed(init);
      if n >= 2 && Key(values, n - 1) == Key(values, n - 2) {
        AscendingWiden(prev, values[n - 1]);
      } else {
        if n >= 2 {
          assert prev[|prev| - 1].1 == values[n - 2] < values[n - 1];
        }
        AscendingAppend(prev, (values[n - 1], values[n - 1]));
      }
    }
  }

  lemma AscendingWiden(prev: seq<Span>, e: int)
    requires |prev| > 0 && Ascending(prev)
    ensures Ascending(prev[..|prev| - 1] + [(prev[|prev| - 1].0, e)])
  {
    var m := |prev|;
    var rs := prev[..m - 1] + [(prev[m - 1].0, e)];
    forall i, j | 0 <= i < j < |rs| ensures rs[i].1 < rs[j].0 {
      assert rs[i] == prev[i] && rs[j].0 == prev[j].0;
    }
  }

  /** A span that starts after the last one ends can follow it. */
  lemma AscendingAppend(prev: seq<Span>, g: Span)
    requires Ascending(prev) && SpansWellFormed(prev)
    requires |prev| > 0 ==> prev[|prev| - 1].1 < g.0
    ensures Ascending(prev + [g])
  {
    var rs := prev + [g];
    forall i, j | 0 <= i < j < |rs| ensures rs[i].1 < rs[j].0 {
      if j < |prev| {
        assert rs[i] == prev[i] && rs[j] == prev[j];
      } else if i < |prev| - 1 {
        assert prev[i].1 < prev[|prev| - 1].0;
      }
    }
  }

  lemma {:induction false} ExpandMember(rs: seq<Span>, x: int)
    ensures x in Expand(rs) <==> exists i :: 0 <= i < |rs| && InSpan(x, rs[i])
  {
    if |rs| > 0 {
      var init := rs[..|rs| - 1];
      ExpandMember(init, x);
      RangeMember(rs[|rs| - 1].0, rs[|rs| - 1].1 + 1, x);
      if exists i :: 0 <= i < |init| && InSpan(x, init[i]) {
        var i :| 0 <= i < |init| && InSpan(x, init[i]);
        assert rs[i] == init[i];
      }
      if exists i :: 0 <= i < |rs| && InSpan(x, rs[i]) {
        var i :| 0 <= i < |rs| && InSpan(x, rs[i]);
        if i < |rs| - 1 {
          assert init[i] == rs[i];
        }
      }
    }
  }

  // ---------------------------------------------------------------------------
  // Merging runs across gaps

  /** `set(range(lastEnd + 1, nextStart)) - joiners`. */
  function Gap(lastEnd: int, nextStart: int, joiners: set<int>): set<int>
  {
    set x | lastEnd < x < nextStart && x !in joiners
  }

  /** The reducer's test: a small gap holding no separator. */
  predicate Mergeable(lastEnd: int, nextStart: int, separators: set<int>, joiners: set<int>, maxGap: int) {
    var gap := Gap(lastEnd, nextStart, joiners);
    |gap| <= maxGap && gap * separators == {}
  }

  /** The reducer's test in words: few enough non-joiner lines in between,
      and every separator in between is also a joiner. */
  lemma MergeableIff(lastEnd: int, nextStart: int, separators: set<int>, joiners: set<int>, maxGap: int)
    ensures Mergeable(lastEnd, nextStart, separators, joiners, maxGap)
      <==> (|Gap(lastEnd, nextStart, joiners)| <= maxGap
            && forall x :: lastEnd < x < nextStart && x in separators ==> x in joiners)
  {
    var gap := Gap(lastEnd, nextStart, joiners);
    if forall x :: lastEnd < x < nextStart && x in separators ==> x in joiners {
      assert gap * separators == {};
    } else {
      var x :| lastEnd < x < nextStart && x in separators && x !in joiners;
      assert x in gap * separators;
    }
  }

  /** A line that is a joiner never blocks a merge, even if it is also a
      separator. */
  lemma JoinerNeverBlocks(lastEnd: int, nextStart: int, separators: set<int>, joiners: set<int>, maxGap: int, x: int)
    requires x in joiners
    ensures Mergeable(lastEnd, nextStart, separators + {x}, joiners, maxGap)
      == Mergeable(lastEnd, nextStart, separators, joiners, maxGap)
  {
    var gap := Gap(lastEnd, nextStart, joiners);
    assert gap * (separators + {x}) == gap * separators;
  }

  /** The reducer: widen the last group to the end of `g`, or append `g`. */
  function Merge(acc: seq<Span>, g: Span, separators: set<int>, joiners: set<int>, maxGap: int): (r: seq<Span>)
  {
    if |acc| == 0 then [g]
    else
      var last := acc[|acc| - 1];
      if Mergeable(last.1, g.0, separators, joiners, maxGap) then acc[..|acc| - 1] + [(last.0, g.1)]
      else acc + [g]
  }

  /** `functools.reduce(reducer, runs, [])`. */
  function Reduce(runs: seq<Span>, separators: set<int>, joiners: set<int>, maxGap: int): (r: seq<Span>)
    ensures |r| <= |runs|
    ensures |runs| == 0 <==> |r| == 0
  {
    if |runs| == 0 then []
    else Merge(Reduce(runs[..|runs| - 1], separators, joiners, maxGap), runs[|runs| - 1], separators, joiners, maxGap)
  }

  /** `compute_contiguous_groups(values, separators, joiners, max_gap)`:
      no value, no group, and never more groups than runs. */
  function ComputeContiguousGroups(values: seq<int>, separators: set<int>, joiners: set<int>, maxGap: int): (r: seq<Span>)
    ensures |values| == 0 <==> |r| == 0
    ensures |r| <= |Runs(values)|
  {
    Reduce(Runs(values), separators, joiners, maxGap)
  }

  // ---------------------------------------------------------------------------
  // What the reduction keeps

  ghost predicate InSome(x: int, rs: seq<Span>) {
    exists i :: 0 <= i < |rs| && InSpan(x, rs[i])
  }

  ghost predicate Within(g: Span, rs: seq<Span>) {
    exists j :: 0 <= j < |rs| && rs[j].0 <= g.0 && g.1 <= rs[j].1
  }

  lemma StartsEndsAppend(rs: seq<Span>, g: Span)
    ensures Starts(rs + [g]) == Starts(rs) + {g.0}
    ensures Ends(rs + [g]) == Ends(rs) + {g.1}
  {
    var rs' := rs + [g];
    assert forall i :: 0 <= i < |rs| ==> rs'[i] == rs[i];
    assert rs'[|rs|] == g;
  }

  /** Widening the last span keeps the starts. */
  lemma StartsWiden(rs: seq<Span>, e: int)
    requires |rs| > 0
    ensures Starts(rs[..|rs| - 1] + [(rs[|rs| - 1].0, e)]) == Starts(rs)
    ensures Ends(rs[..|rs| - 1] + [(rs[|rs| - 1].0, e)]) == Ends(rs[..|rs| - 1]) + {e}
  {
    var init := rs[..|rs| - 1];
    StartsEndsAppend(init, (rs[|rs| - 1].0, e));
    StartsEndsAppend(init, rs[|rs| - 1]);
    assert init + [rs[|rs| - 1]] == rs;
  }

  /** One reducer step keeps the groups well formed and ascending when the
      new run starts after the last group ends. */
  lemma MergeShape(acc: seq<Span>, g: Span, separators: set<int>, joiners: set<int>, maxGap: int)
    requires SpansWellFormed(acc) && Ascending(acc) && g.0 <= g.1
    requires |acc| > 0 ==> acc[|acc| - 1].1 < g.0
    ensures var out := Merge(acc, g, separators, joiners, maxGap);
      && SpansWellFormed(out)
      && Ascending(out)
      && |out| > 0 && out[|out| - 1].1 == g.1
  {
    var k := |acc|;
    if k > 0 {
      if Mergeable(acc[k - 1].1, g.0, separators, joiners, maxGap) {
        assert Merge(acc, g, separators, joiners, maxGap) == acc[..k - 1] + [(acc[k - 1].0, g.1)];
      } else {
        forall i | 0 <= i < k ensures acc[i].1 < g.0 {
          if i < k - 1 {
            assert acc[i].1 < acc[k - 1].0;
          }
        }
      }
    }
  }

  /** One reducer step takes group starts from old starts and the new run's
      start, and group ends from old ends and the new run's end. */
  lemma MergeEndpoints(acc: seq<Span>, g: Span, separators: set<int>, joiners: set<int>, maxGap: int)
    ensures var out := Merge(acc, g, separators, joiners, maxGap);
      && Starts(out) <= Starts(acc) + {g.0}
      && Ends(out) <= Ends(acc) + {g.1}
  {
    var k := |acc|;
    if k > 0 {
      var last := acc[k - 1];
      if Mergeable(last.1, g.0, separators, joiners, maxGap) {
        StartsWiden(acc, g.1);
        StartsEndsAppend(acc[..k - 1], last);
        assert acc[..k - 1] + [last] == acc;
      } else {
        StartsEndsAppend(acc, g);
      }
    }
  }

  /** The groups are well formed, ascending and disjoint, and the last one
      ends where the last run ends. */
  lemma {:induction false} ReduceShape(runs: seq<Span>, separators: set<int>, joiners: set<int>, maxGap: int)
    requires SpansWellFormed(runs) && Ascending(runs)
    ensures var out := Reduce(runs, separators, joiners, maxGap);
      && SpansWellFormed(out)
      && Ascending(out)
      && (|runs| > 0 ==> out[|out| - 1].1 == runs[|runs| - 1].1)
  {
    var n := |runs|;
    if n > 0 {
      var init := runs[..n - 1];
      ReduceShape(init, separators, joiners, maxGap);
      MergeShape(Reduce(init, separators, joiners, maxGap), runs[n - 1], separators, joiners, maxGap);
    }
  }

  /** Every group starts where some run starts and ends where some run ends. */
  lemma {:induction false} ReduceEndpoints(runs: seq<Span>, separators: set<int>, joiners: set<int>, maxGap: int)
    ensures var out := Reduce(runs, separators, joiners, maxGap);
      Starts(out) <= Starts(runs) && Ends(out) <= Ends(runs)
  {
    var n := |runs|;
    if n > 0 {
      var init := runs[..n - 1];
      ReduceEndpoints(init, separators, joiners, maxGap);
      MergeEndpoints(Reduce(init, separators, joiners, maxGap), runs[n - 1], separators, joiners, maxGap);
      StartsEndsAppend(init, runs[n - 1]);
      assert init + [runs[n - 1]] == runs;
    }
  }

  /** A run lies inside the group it was merged into, and every run that was
      inside some group still is after a step. */
  lemma MergeCovers(acc: seq<Span>, g: Span, r: Span, separators: set<int>, joiners: set<int>, maxGap: int)
    requires SpansWellFormed(acc) && g.0 <= g.1
    requires |acc| > 0 ==> acc[|acc| - 1].1 < g.0
    requires r == g || Within(r, acc)
    ensures Within(r, Merge(acc, g, separators, joiners, maxGap))
  {
    var out := Merge(acc, g, separators, joiners, maxGap);
    var k := |acc|;
    if r == g {
      assert out[|out| - 1].0 <= g.0 && g.1 <= out[|out| - 1].1;
    } else {
      var j :| 0 <= j < k && acc[j].0 <= r.0 && r.1 <= acc[j].1;
      if Mergeable(acc[k - 1].1, g.0, separators, joiners, maxGap) {
        if j == k - 1 {
          assert out[k - 1] == (acc[k - 1].0, g.1);
        } else {
          assert out[j] == acc[j];
        }
      } else {
        assert out[j] == acc[j];
      }
    }
  }

  /** Every run lies inside one of the groups. */
  lemma {:induction false} ReduceCovers(runs: seq<Span>, i: int, separators: set<int>, joiners: set<int>, maxGap: int)
    requires SpansWellFormed(runs) && Ascending(runs)
    requires 0 <= i < |runs|
    ensures Within(runs[i], Reduce(runs, separators, joiners, maxGap))
  {
    var n := |runs|;
    var init := runs[..n - 1];
    var acc := Reduce(init, separators, joiners, maxGap);
    PrefixShape(runs);
    ReduceShape(init, separators, joiners, maxGap);
    if i < n - 1 {
      ReduceCovers(init, i, separators, joiners, maxGap);
      assert init[i] == runs[i];
    }
    MergeCovers(acc, runs[n - 1], runs[i], separators, joiners, maxGap);
  }

  /** No two neighbouring groups pass the reducer's test: the reduction has
      merged everything it could. */
  predicate Separated(out: seq<Span>, separators: set<int>, joiners: set<int>, maxGap: int) {
    forall i :: 0 <= i < |out| - 1 ==> !Mergeable(out[i].1, out[i + 1].0, separators, joiners, maxGap)
  }

  lemma {:induction false} ReduceSeparated(runs: seq<Span>, separators: set<int>, joiners: set<int>, maxGap: int)
    ensures Separated(Reduce(runs, separators, joiners, maxGap), separators, joiners, maxGap)
  {
    var n := |runs|;
    if n > 0 {
      var init := runs[..n - 1];
      ReduceSeparated(init, separators, joiners, maxGap);
      var acc := Reduce(init, separators, joiners, maxGap);
      var out := Reduce(runs, separators, joiners, maxGap);
      var k := |acc|;
      if k > 0 {
        if Mergeable(acc[k - 1].1, runs[n - 1].0, separators, joiners, maxGap) {
          assert out == acc[..k - 1] + [(acc[k - 1].0, runs[n - 1].1)];
          forall i | 0 <= i < |out| - 1
            ensures !Mergeable(out[i].1, out[i + 1].0, separators, joiners, maxGap)
          {
            assert out[i] == acc[i] && out[i + 1].0 == acc[i + 1].0;
          }
        } else {
          assert out == acc + [runs[n - 1]];
          forall i | 0 <= i < |out| - 1
            ensures !Mergeable(out[i].1, out[i + 1].0, separators, joiners, maxGap)
          {
            if i < k - 1 {
              assert out[i] == acc[i] && out[i + 1] == acc[i + 1];
            }
          }
        }
      }
    }
  }

  /** The starts after one step: the new run starts a group exactly when it
      could not be merged into the last one. */
  lemma MergeStarts(acc: seq<Span>, g: Span, separators: set<int>, joiners: set<int>, maxGap: int)
    requires SpansWellFormed(acc) && Ascending(acc)
    requires |acc| > 0 ==> acc[|acc| - 1].1 < g.0
    ensures g.0 !in Starts(acc)
    ensures Starts(Merge(acc, g, separators, joiners, maxGap))
      == if |acc| > 0 && Mergeable(acc[|acc| - 1].1, g.0, separators, joiners, maxGap)
         then Starts(acc) else Starts(acc) + {g.0}
  {
    var k := |acc|;
    forall j | 0 <= j < k ensures acc[j].0 < g.0 {
      if j < k - 1 {
        assert acc[j].1 < acc[k - 1].0;
      }
    }
    if k > 0 && Mergeable(acc[k - 1].1, g.0, separators, joiners, maxGap) {
      StartsWiden(acc, g.1);
    } else {
      StartsEndsAppend(acc, g);
    }
  }

  /** A group starts at a run's start exactly when the reducer refused to
      merge that run into the group before it. */
  lemma {:induction false} ReduceBoundaries(runs: seq<Span>, i: int, separators: set<int>, joiners: set<int>, maxGap: int)
    requires SpansWellFormed(runs) && Ascending(runs)
    requires 0 <= i < |runs| - 1
    ensures runs[i + 1].0 in Starts(Reduce(runs, separators, joiners, maxGap))
      <==> !Mergeable(runs[i].1, runs[i + 1].0, separators, joiners, maxGap)
  {
    var n := |runs|;
    var init := runs[..n - 1];
    var g := runs[n - 1];
    var acc := Reduce(init, separators, joiners, maxGap);
    var out := Reduce(runs, separators, joiners, maxGap);
    assert out == Merge(acc, g, separators, joiners, maxGap);
    PrefixShape(runs);
    ReduceShape(init, separators, joiners, maxGap);
    MergeStarts(acc, g, separators, joiners, maxGap);
    var k := |acc|;
    assert k > 0;
    var merged := Mergeable(acc[k - 1].1, g.0, separators, joiners, maxGap);
    assert Starts(out) == if merged then Starts(acc) else Starts(acc) + {g.0};
    if i < n - 2 {
      ReduceBoundaries(init, i, separators, joiners, maxGap);
      BeforeLast(runs, i + 1);
      assert init[i] == runs[i] && init[i + 1] == runs[i + 1];
    } else {
      assert acc[k - 1].1 == init[n - 2].1 == runs[i].1;
    }
  }

  /** A run before the last one starts before the last one does. */
  lemma BeforeLast(runs: seq<Span>, i: int)
    requires SpansWellFormed(runs) && Ascending(runs)
    requires 0 <= i < |runs| - 1
    ensures runs[i].0 < runs[|runs| - 1].0
  {
    assert runs[i].0 <= runs[i].1 < runs[|runs| - 1].0;
  }

  /** Dropping the last run keeps the runs well formed and ascending, and
      the dropped run starts after the others end. */
  lemma PrefixShape(runs: seq<Span>)
    requires SpansWellFormed(runs) && Ascending(runs) && |runs| > 0
    ensures SpansWellFormed(runs[..|runs| - 1]) && Ascending(runs[..|runs| - 1])
    ensures runs[|runs| - 1].0 <= runs[|runs| - 1].1
    ensures |runs| > 1 ==> runs[|runs| - 2].1 < runs[|runs| - 1].0
  {
  }

  /** One reducer step bridges no separator that is not a joiner: a line of
      the new groups lies in the new run or in an old group. */
  lemma MergeNoBridge(acc: seq<Span>, g: Span, x: int, separators: set<int>, joiners: set<int>, maxGap: int)
    requires x in separators && x !in joiners
    requires |acc| > 0 ==> acc[|acc| - 1].0 <= acc[|acc| - 1].1 < g.0
    requires InSome(x, Merge(acc, g, separators, joiners, maxGap))
    ensures InSpan(x, g) || InSome(x, acc)
  {
    var out := Merge(acc, g, separators, joiners, maxGap);
    var k := |acc|;
    var j :| 0 <= j < |out| && InSpan(x, out[j]);
    if !InSpan(x, g) {
      if k > 0 && Mergeable(acc[k - 1].1, g.0, separators, joiners, maxGap) && j == k - 1 {
        assert out[j] == (acc[k - 1].0, g.1);
        // between the old group and the run lies the gap, which holds no
        // separator that is not a joiner
        assert x !in Gap(acc[k - 1].1, g.0, joiners) * separators;
        assert InSpan(x, acc[k - 1]);
      } else {
        assert j < k && out[j] == acc[j];
      }
    }
  }

  /** A line that is a separator and not a joiner is inside a group only if
      it is inside a run: the reduction never bridges it. */
  lemma {:induction false} ReduceNoBridge(runs: seq<Span>, x: int, separators: set<int>, joiners: set<int>, maxGap: int)
    requires SpansWellFormed(runs) && Ascending(runs)
    requires x in separators && x !in joiners
    requires InSome(x, Reduce(runs, separators, joiners, maxGap))
    ensures InSome(x, runs)
  {
    var n := |runs|;
    var init := runs[..n - 1];
    var g := runs[n - 1];
    var acc := Reduce(init, separators, joiners, maxGap);
    assert Reduce(runs, separators, joiners, maxGap) == Merge(acc, g, separators, joiners, maxGap);
    PrefixShape(runs);
    ReduceShape(init, separators, joiners, maxGap);
    MergeNoBridge(acc, g, x, separators, joiners, maxGap);
    if InSpan(x, g) {
      assert InSpan(x, runs[n - 1]);
    } else {
      ReduceNoBridge(init, x, separators, joiners, maxGap);
      InSomePrefix(x, runs);
    }
  }

  lemma InSomePrefix(x: int, runs: seq<Span>)
    requires |runs| > 0 && InSome(x, runs[..|runs| - 1])
    ensures InSome(x, runs)
  {
    var i :| 0 <= i < |runs| - 1 && InSpan(x, runs[..|runs| - 1][i]);
    assert InSpan(x, runs[i]);
  }

  // ---------------------------------------------------------------------------
  // The groups of sorted line numbers

  /** Runs start and end at values. */
  lemma {:induction false} RunsEndpoints(values: seq<int>)
    ensures Starts(Runs(values)) <= Elems(values)
    ensures Ends(Runs(values)) <= Elems(values)
  {
    var n := |values|;
    if n > 0 {
      var init := values[..n - 1];
      var prev := Runs(init);
      RunsEndpoints(init);
      assert values == init + [values[n - 1]];
      ElemsConcat(init, [values[n - 1]]);
      var v := values[n - 1];
      if n >= 2 && Key(values, n - 1) == Key(values, n - 2) {
        var front := prev[..|prev| - 1];
        assert Runs(values) == front + [(prev[|prev| - 1].0, v)];
        StartsWiden(prev, v);
        StartsEndsAppend(front, prev[|prev| - 1]);
        assert front + [prev[|prev| - 1]] == prev;
        assert Ends(front) <= Ends(prev);
      } else {
        assert Runs(values) == prev + [(v, v)];
        StartsEndsAppend(prev, (v, v));
      }
    }
  }

  /** A number lies in some run exactly when it is one of the values. */
  lemma RunsMember(values: seq<int>, x: int)
    ensures InSome(x, Runs(values)) <==> x in values
  {
    RunsExpand(values);
    ExpandMember(Runs(values), x);
  }

  /** For ascending line numbers the groups are well formed, ascending and
      disjoint, start and end on given numbers, and no two neighbours could
      have been merged. */
  lemma ContiguousGroupsShape(values: seq<int>, separators: set<int>, joiners: set<int>, maxGap: int)
    requires StrictlyAscending(values)
    ensures var out := ComputeContiguousGroups(values, separators, joiners, maxGap);
      && SpansWellFormed(out)
      && Ascending(out)
      && Starts(out) <= Elems(values)
      && Ends(out) <= Elems(values)
      && Separated(out, separators, joiners, maxGap)
  {
    var runs := Runs(values);
    RunsWellFormed(values);
    RunsAscending(values);
    RunsEndpoints(values);
    ReduceShape(runs, separators, joiners, maxGap);
    ReduceEndpoints(runs, separators, joiners, maxGap);
    ReduceSeparated(runs, separators, joiners, maxGap);
  }

  /** Every given number lies in a group. */
  lemma ContiguousGroupsCover(values: seq<int>, v: int, separators: set<int>, joiners: set<int>, maxGap: int)
    requires StrictlyAscending(values)
    requires v in values
    ensures InSome(v, ComputeContiguousGroups(values, separators, joiners, maxGap))
    ensures var out := ComputeContiguousGroups(values, separators, joiners, maxGap);
      forall i, j :: 0 <= i < j < |out| && InSpan(v, out[i]) ==> !InSpan(v, out[j])
  {
    var runs := Runs(values);
    RunsWellFormed(values);
    RunsAscending(values);
    RunsMember(values, v);
    var i :| 0 <= i < |runs| && InSpan(v, runs[i]);
    ReduceCovers(runs, i, separators, joiners, maxGap);
    ReduceShape(runs, separators, joiners, maxGap);
  }

  /** A separator that is not also a joiner lies in a group only if it is
      one of the given numbers. */
  lemma ContiguousGroupsNoBridge(values: seq<int>, x: int, separators: set<int>, joiners: set<int>, maxGap: int)
    requires StrictlyAscending(values)
    requires x in separators && x !in joiners
    requires InSome(x, ComputeContiguousGroups(values, separators, joiners, maxGap))
    ensures x in values
  {
    RunsWellFormed(values);
    RunsAscending(values);
    ReduceNoBridge(Runs(values), x, separators, joiners, maxGap);
    RunsMember(values, x);
  }

  // ---------------------------------------------------------------------------
  // A worked example: lines s..s+2 and s+4..s+5 around line s+3

  lemma RunsExample(s: int)
    ensures Runs([s, s + 1, s + 2, s + 4, s + 5]) == [(s, s + 2), (s + 4, s + 5)]
  {
    RunsNew([], s);
    assert [] + [s] == [s];
    RunsExtend([s], s + 1);
    assert [s] + [s + 1] == [s, s + 1];
    RunsExtend([s, s + 1], s + 2);
    assert [s, s + 1] + [s + 2] == [s, s + 1, s + 2];
    RunsNew([s, s + 1, s + 2], s + 4);
    assert [s, s + 1, s + 2] + [s + 4] == [s, s + 1, s + 2, s + 4];
    RunsExtend([s, s + 1, s + 2, s + 4], s + 5);
    assert [s, s + 1, s + 2, s + 4] + [s + 5] == [s, s + 1, s + 2, s + 4, s + 5];
  }

  /** A joiner between two runs lets them merge into one group. */
  lemma JoinerBridgesExample(s: int)
    ensures ComputeContiguousGroups([s, s + 1, s + 2, s + 4, s + 5], {}, {s + 3}, 3) == [(s, s + 5)]
  {
    RunsExample(s);
    var gap := Gap(s + 2, s + 4, {s + 3});
    assert gap == {} by {
      forall x | x in gap ensures false {
      }
    }
    var runs := [(s, s + 2), (s + 4, s + 5)];
    assert runs[..1] == [(s, s + 2)];
    assert Reduce(runs, {}, {s + 3}, 3) == Merge([(s, s + 2)], (s + 4, s + 5), {}, {s + 3}, 3);
  }

  /** The same line as a separator keeps the runs apart. */
  lemma SeparatorSplitsExample(s: int)
    ensures ComputeContiguousGroups([s, s + 1, s + 2, s + 4, s + 5], {s + 3}, {}, 3) == [(s, s + 2), (s + 4, s + 5)]
  {
    RunsExample(s);
    assert s + 3 in Gap(s + 2, s + 4, {}) * {s + 3};
    var runs := [(s, s + 2), (s + 4, s + 5)];
    assert runs[..1] == [(s, s + 2)];
    assert Reduce(runs, {s + 3}, {}, 3) == Merge([(s, s + 2)], (s + 4, s + 5), {s + 3}, {}, 3);
  }

  /** A value one above the last one widens the last run. */
  lemma RunsExtend(values: seq<int>, x: int)
    requires |values| > 0 && x == values[|values| - 1] + 1
    ensures var prev := Runs(values);
      Runs(values + [x]) == prev[..|prev| - 1] + [(prev[|prev| - 1].0, x)]
  {
    var v := values + [x];
    assert v[..|v| - 1] == values;
  }

  /** Any other value opens a run of its own. */
  lemma RunsNew(values: seq<int>, x: int)
    requires |values| == 0 || x != values[|values| - 1] + 1
    ensures Runs(values + [x]) == Runs(values) + [(x, x)]
  {
    var v := values + [x];
    assert v[..|v| - 1] == values;
  }
}

/** Groups of lines of one file and the check-run annotations made from them. */
module Annotations {
  import opened Wrappers
  import opened Text
  import opened CoverageModel

  /** A range of lines of one file, both ends included. */
  datatype Group = Group(file: Path, lineStart: int, lineEnd: int)

  datatype Annotation = Annotation(
    file: Path,
    lineStart: int,
    lineEnd: int,
    title: string,
    messageType: string,
    message: string)

  /** The word that marks branch annotations, with its trailing space. */
  function BranchWord(branch: bool): string {
    if branch then "branch " else ""
  }

  function Title(branch: bool): (t: string)
    ensures StartsWith(t, "Missing ")
  {
    "Missing " + BranchWord(branch) + "coverage"
  }

  /** The message of a group: one line, or the range `start-end`. */
  function Message(g: Group, branch: bool): string {
    if g.lineStart == g.lineEnd then
      Title(branch) + " on line " + IntToString(g.lineStart)
    else
      Title(branch) + " on lines " + IntToString(g.lineStart) + "-" + IntToString(g.lineEnd)
  }

  function MissingCoverageAnnotation(annotationType: string, g: Group, branch: bool): Annotation {
    Annotation(g.file, g.lineStart, g.lineEnd, Title(branch), annotationType, Message(g, branch))
  }

  /** `create_missing_coverage_annotations`: one annotation per group, in
      order, at the group's place and of the requested type. */
  function CreateMissingCoverageAnnotations(annotationType: string, groups: seq<Group>, branch: bool): (r: seq<Annotation>)
    ensures |r| == |groups|
    ensures forall i :: 0 <= i < |r| ==>
      && r[i].file == groups[i].file
      && r[i].lineStart == groups[i].lineStart
      && r[i].lineEnd == groups[i].lineEnd
      && r[i].messageType == annotationType
      && r[i].title == Title(branch)
  {
    seq(|groups|, i requires 0 <= i < |groups| => MissingCoverageAnnotation(annotationType, groups[i], branch))
  }

  // ---------------------------------------------------------------------------
  // Reading a message back

  /** The first occurrence of `c` at or after position `i`. */
  function FindFrom(w: string, c: char, i: nat): (r: Option<nat>)
    ensures r.Some? ==> i <= r.value < |w| && w[r.value] == c
    ensures r.Some? ==> forall k :: i <= k < r.value ==> w[k] != c
    ensures r.None? ==> forall k :: i <= k < |w| ==> w[k] != c
    decreases |w| - i
  {
    if i >= |w| then None
    else if w[i] == c then Some(i)
    else FindFrom(w, c, i + 1)
  }

  /** Reads `start-end`, where either number may carry a minus sign: the
      separating dash is the first one after the first character. */
  function ReadRange(w: string): Option<(int, int)> {
    match FindFrom(w, '-', 1)
    case None => None
    case Some(d) =>
      var s :- ParseInt(w[..d]);
      var e :- ParseInt(w[d + 1..]);
      Some((s, e))
  }

  /** Reads the place back out of a message with the given title. */
  function ReadMessage(title: string, m: string): Option<(int, int)> {
    if StartsWith(m, title + " on lines ") then
      ReadRange(m[|title| + 10..])
    else if StartsWith(m, title + " on line ") then
      var n :- ParseInt(m[|title| + 9..]);
      Some((n, n))
    else None
  }

  lemma IntToStringDashFirst(n: int)
    ensures forall i :: 1 <= i < |IntToString(n)| ==> IntToString(n)[i] != '-'
  {
    if n < 0 {
      assert forall i :: 1 <= i < |IntToString(n)| ==> IntToString(n)[i] == NatToString(-n)[i - 1];
    }
  }

  lemma ReadRangeRoundTrip(s: int, e: int)
    ensures ReadRange(IntToString(s) + "-" + IntToString(e)) == Some((s, e))
  {
    var a := IntToString(s);
    var b := IntToString(e);
    var w := a + "-" + b;
    IntToStringDashFirst(s);
    assert w[|a|] == '-';
    assert forall k :: 1 <= k < |a| ==> w[k] == a[k];
    var d := FindFrom(w, '-', 1);
    assert d == Some(|a|);
    assert w[..|a|] == a;
    assert w[|a| + 1..] == b;
    IntToStringRoundTrip(s);
    IntToStringRoundTrip(e);
  }

  /** The message names the group's lines: reading it back gives the start
      and end, so distinct places never share a message. */
  lemma MessageRoundTrip(g: Group, branch: bool)
    ensures ReadMessage(Title(branch), Message(g, branch)) == Some((g.lineStart, g.lineEnd))
  {
    var t := Title(branch);
    var m := Message(g, branch);
    if g.lineStart == g.lineEnd {
      var x := IntToString(g.lineStart);
      assert m == t + " on line " + x;
      assert m[|t| + 8] == ' ';
      assert !StartsWith(m, t + " on lines ");
      assert m[..|t| + 9] == t + " on line ";
      assert m[|t| + 9..] == x;
      IntToStringRoundTrip(g.lineStart);
    } else {
      var x := IntToString(g.lineStart) + "-" + IntToString(g.lineEnd);
      assert m == t + " on lines " + x;
      assert m[..|t| + 10] == t + " on lines ";
      assert m[|t| + 10..] == x;
      ReadRangeRoundTrip(g.lineStart, g.lineEnd);
    }
  }

  /** The plural form is used exactly for groups of more than one line. */
  lemma MessagePlural(g: Group, branch: bool)
    ensures StartsWith(Message(g, branch), Title(branch) + " on lines ") <==> g.lineStart != g.lineEnd
  {
    var t := Title(branch);
    var m := Message(g, branch);
    if g.lineStart == g.lineEnd {
      assert m[|t| + 8] == ' ';
    } else {
      assert m[..|t| + 10] == t + " on lines ";
    }
  }

  /** The two titles an annotation can carry, and they differ. */
  lemma TitleBranch()
    ensures Title(true) == "Missing branch coverage"
    ensures Title(false) == "Missing coverage"
    ensures Title(true) != Title(false)
  {
  }

  /** Every annotation's message reads back as its own place. */
  lemma AnnotationsRead(annotationType: string, groups: seq<Group>, branch: bool, i: int)
    requires 0 <= i < |groups|
    ensures var a := CreateMissingCoverageAnnotations(annotationType, groups, branch)[i];
      ReadMessage(a.title, a.message) == Some((a.lineStart, a.lineEnd))
  {
    MessageRoundTrip(groups[i], branch);
  }

  // ---------------------------------------------------------------------------
  // `Annotation.to_dict`

  datatype JsonValue = JString(s: string) | JInt(n: int)

  /** The six fields, under their snake-case names, in declaration order. */
  function ToDict(a: Annotation): (d: seq<(string, JsonValue)>)
    ensures |d| == 6
  {
    [ ("file", JString(a.file)),
      ("line_start", JInt(a.lineStart)),
      ("line_end", JInt(a.lineEnd)),
      ("title", JString(a.title)),
      ("message_type", JString(a.messageType)),
      ("message", JString(a.message)) ]
  }

  function Lookup(d: seq<(string, JsonValue)>, key: string): Option<JsonValue> {
    if |d| == 0 then None
    else if d[0].0 == key then Some(d[0].1)
    else Lookup(d[1..], key)
  }

  function LookupString(d: seq<(string, JsonValue)>, key: string): Option<string> {
    match Lookup(d, key)
    case Some(JString(s)) => Some(s)
    case _ => None
  }

  function LookupInt(d: seq<(string, JsonValue)>, key: string): Option<int> {
    match Lookup(d, key)
    case Some(JInt(n)) => Some(n)
    case _ => None
  }

  /** The first entry under a key is the one found. */
  lemma {:induction false} LookupAt(d: seq<(string, JsonValue)>, key: string, i: nat)
    requires i < |d| && d[i].0 == key
    requires forall j :: 0 <= j < i ==> d[j].0 != key
    ensures Lookup(d, key) == Some(d[i].1)
  {
    if i > 0 {
      LookupAt(d[1..], key, i - 1);
    }
  }

  /** Rebuilds an annotation from its dictionary form. */
  function FromDict(d: seq<(string, JsonValue)>): Option<Annotation> {
    var file :- LookupString(d, "file");
    var start :- LookupInt(d, "line_start");
    var end :- LookupInt(d, "line_end");
    var title :- LookupString(d, "title");
    var messageType :- LookupString(d, "message_type");
    var message :- LookupString(d, "message");
    Some(Annotation(file, start, end, title, messageType, message))
  }

  /** The dictionary form loses nothing. */
  lemma ToDictRoundTrip(a: Annotation)
    ensures FromDict(ToDict(a)) == Some(a)
  {
    var d := ToDict(a);
    LookupAt(d, "file", 0);
    LookupAt(d, "line_start", 1);
    LookupAt(d, "line_end", 2);
    LookupAt(d, "title", 3);
    LookupAt(d, "message_type", 4);
    LookupAt(d, "message", 5);
  }
}
