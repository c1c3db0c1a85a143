/** Python's `sorted` as a stable insertion sort over an ordering `leq`, and
    `sorted(set(...))` on integers as a strictly ascending sequence. */
module Sorting {

  ghost predicate Total<T(!new)>(leq: (T, T) -> bool) {
    forall a, b :: leq(a, b) || leq(b, a)
  }

  ghost predicate Transitive<T(!new)>(leq: (T, T) -> bool) {
    forall a, b, c :: leq(a, b) && leq(b, c) ==> leq(a, c)
  }

  ghost predicate TotalPreorder<T(!new)>(leq: (T, T) -> bool) {
    Total(leq) && Transitive(leq)
  }

  predicate Sorted<T>(s: seq<T>, leq: (T, T) -> bool) {
    forall i, j :: 0 <= i < j < |s| ==> leq(s[i], s[j])
  }

  /** Puts `x` after every leading element that is `leq` it, so that among
      equivalent elements the one inserted last comes last. */
  function Insert<T>(x: T, s: seq<T>, leq: (T, T) -> bool): (r: seq<T>)
    ensures multiset(r) == multiset(s) + multiset{x}
    ensures |r| == |s| + 1
  {
    if |s| == 0 then [x]
    else
      assert s == [s[0]] + s[1..];
      if leq(s[0], x) then [s[0]] + Insert(x, s[1..], leq) else [x] + s
  }

  /** `sorted(s, key=...)`: elements taken front to back and inserted after
      their equivalents, which keeps the sort stable. */
  function InsertionSort<T>(s: seq<T>, leq: (T, T) -> bool): (r: seq<T>)
    ensures multiset(r) == multiset(s)
    ensures |r| == |s|
  {
    if |s| == 0 then []
    else
      assert s == s[..|s| - 1] + [s[|s| - 1]];
      Insert(s[|s| - 1], InsertionSort(s[..|s| - 1], leq), leq)
  }

  lemma {:induction false} InsertSorted<T(!new)>(x: T, s: seq<T>, leq: (T, T) -> bool)
    requires TotalPreorder(leq)
    requires Sorted(s, leq)
    ensures Sorted(Insert(x, s, leq), leq)
  {
    if |s| > 0 && leq(s[0], x) {
      InsertSorted(x, s[1..], leq);
      var r := Insert(x, s[1..], leq);
      forall e | e in multiset(r)
        ensures leq(s[0], e)
      {
        assert e in multiset(s[1..]) + multiset{x};
      }
      forall i | 0 <= i < |r|
        ensures leq(s[0], r[i])
      {
        assert r[i] in multiset(r);
      }
    }
  }

  lemma {:induction false} InsertionSortSorted<T(!new)>(s: seq<T>, leq: (T, T) -> bool)
    requires TotalPreorder(leq)
    ensures Sorted(InsertionSort(s, leq), leq)
  {
    if |s| > 0 {
      InsertionSortSorted(s[..|s| - 1], leq);
      InsertSorted(s[|s| - 1], InsertionSort(s[..|s| - 1], leq), leq);
    }
  }

  /** Inserting an element that every element is `leq` to appends it. */
  lemma {:induction false} InsertAtEnd<T>(x: T, s: seq<T>, leq: (T, T) -> bool)
    requires forall i :: 0 <= i < |s| ==> leq(s[i], x)
    ensures Insert(x, s, leq) == s + [x]
  {
    if |s| > 0 {
      InsertAtEnd(x, s[1..], leq);
    }
  }

  /** Sorting leaves an already sorted sequence as it is (the sort is stable). */
  lemma {:induction false} InsertionSortOfSorted<T>(s: seq<T>, leq: (T, T) -> bool)
    requires Sorted(s, leq)
    ensures InsertionSort(s, leq) == s
  {
    if |s| > 0 {
      var init := s[..|s| - 1];
      assert Sorted(init, leq);
      InsertionSortOfSorted(init, leq);
      InsertAtEnd(s[|s| - 1], init, leq);
    }
  }

  // ---------------------------------------------------------------------------
  // Integers: `sorted(set(xs))`

  /** The elements of a sequence, as `set(xs)`. */
  function Elems(s: seq<int>): set<int>
  {
    set i | i in s
  }

  lemma ElemsConcat(a: seq<int>, b: seq<int>)
    ensures Elems(a + b) == Elems(a) + Elems(b)
  {
  }

  predicate StrictlyAscending(s: seq<int>) {
    forall i, j :: 0 <= i < j < |s| ==> s[i] < s[j]
  }

  /** Adds `x` to a strictly ascending sequence unless it is already there. */
  function InsertUnique(x: int, s: seq<int>): (r: seq<int>)
    requires StrictlyAscending(s)
    ensures StrictlyAscending(r)
    ensures Elems(r) == Elems(s) + {x}
  {
    if |s| == 0 then [x]
    else if x == s[0] then
      ElemsCons(s[0], s[1..]);
      s
    else if x < s[0] then
      ElemsCons(x, s);
      ConsAscending(x, s);
      [x] + s
    else
      var rest := InsertUnique(x, s[1..]);
      ElemsCons(s[0], s[1..]);
      ElemsCons(s[0], rest);
      ConsAscending(s[0], rest);
      [s[0]] + rest
  }

  lemma ElemsCons(x: int, s: seq<int>)
    ensures Elems([x] + s) == {x} + Elems(s)
  {
    ElemsConcat([x], s);
  }

  /** An element below everything in an ascending sequence can go in front. */
  lemma ConsAscending(x: int, s: seq<int>)
    requires StrictlyAscending(s)
    requires forall y :: y in Elems(s) ==> x < y
    ensures StrictlyAscending([x] + s)
  {
    ElemsAbove(x, s);
    var r := [x] + s;
    forall i, j | 0 <= i < j < |r|
      ensures r[i] < r[j]
    {
      assert r[j] == s[j - 1];
      if i > 0 {
        assert r[i] == s[i - 1];
      }
    }
  }

  lemma ElemsAbove(lo: int, s: seq<int>)
    requires forall x :: x in Elems(s) ==> lo < x
    ensures forall k :: 0 <= k < |s| ==> lo < s[k]
  {
    forall k | 0 <= k < |s|
      ensures lo < s[k]
    {
      assert s[k] in Elems(s);
    }
  }

  /** `sorted(set(xs))`: the distinct elements of `xs`, ascending. */
  function SortedSet(xs: seq<int>): (r: seq<int>)
    ensures StrictlyAscending(r)
    ensures Elems(r) == Elems(xs)
  {
    if |xs| == 0 then []
    else InsertUnique(xs[0], SortedSet(xs[1..]))
  }

  /** Two strictly ascending sequences with the same elements are equal, so a
      set has exactly one sorted listing. */
  lemma {:induction false} AscendingUnique(s: seq<int>, t: seq<int>)
    requires StrictlyAscending(s) && StrictlyAscending(t)
    requires Elems(s) == Elems(t)
    ensures s == t
  {
    AscendingCardinality(s);
    AscendingCardinality(t);
    if |s| > 0 {
      assert s[0] in Elems(t) && t[0] in Elems(s);
      assert s[0] == t[0];
      assert Elems(s[1..]) == Elems(s) - {s[0]};
      assert Elems(t[1..]) == Elems(t) - {t[0]};
      AscendingUnique(s[1..], t[1..]);
      assert s == [s[0]] + s[1..];
      assert t == [t[0]] + t[1..];
    }
  }

  lemma AscendingCardinality(s: seq<int>)
    requires StrictlyAscending(s)
    ensures |Elems(s)| == |s|
  {
    if |s| > 0 {
      assert Elems(s) == {s[0]} + Elems(s[1..]);
      assert s[0] !in Elems(s[1..]);
      AscendingCardinality(s[1..]);
    }
  }

  /** `list(range(lo, hi))`. */
  function Range(lo: int, hi: int): (r: seq<int>)
    ensures |r| == if lo < hi then hi - lo else 0
    ensures forall k :: 0 <= k < |r| ==> r[k] == lo + k
  {
    seq(if lo < hi then hi - lo else 0, k => lo + k)
  }

  lemma RangeMember(lo: int, hi: int, x: int)
    ensures x in Range(lo, hi) <==> lo <= x < hi
  {
    if lo <= x < hi {
      assert Range(lo, hi)[x - lo] == x;
    }
  }
}
