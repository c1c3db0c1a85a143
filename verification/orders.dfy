/** Python's comparison of sequences: the first position where two
    sequences differ decides, and a proper prefix comes first. Strings
    compare this way by code point, and `pathlib` paths compare their
    '/'-separated parts this way. */
module Orders {
  import opened Text

  /** `a <= b` for Python lists or strings, given the elements' `<`. */
  predicate LexLeq<T(==)>(a: seq<T>, b: seq<T>, less: (T, T) -> bool) {
    if |a| == 0 then true
    else if |b| == 0 then false
    else if a[0] == b[0] then LexLeq(a[1..], b[1..], less)
    else less(a[0], b[0])
  }

  /** `less` is the strict part of a total order. */
  ghost predicate StrictTotal<T(!new)>(less: (T, T) -> bool) {
    && (forall x :: !less(x, x))
    && (forall x, y, z :: less(x, y) && less(y, z) ==> less(x, z))
    && (forall x, y :: x != y ==> less(x, y) || less(y, x))
  }

  lemma {:induction false} LexTotal<T(!new)>(a: seq<T>, b: seq<T>, less: (T, T) -> bool)
    requires StrictTotal(less)
    ensures LexLeq(a, b, less) || LexLeq(b, a, less)
  {
    if |a| > 0 && |b| > 0 && a[0] == b[0] {
      LexTotal(a[1..], b[1..], less);
    }
  }

  lemma {:induction false} LexTransitive<T(!new)>(a: seq<T>, b: seq<T>, c: seq<T>, less: (T, T) -> bool)
    requires StrictTotal(less)
    requires LexLeq(a, b, less) && LexLeq(b, c, less)
    ensures LexLeq(a, c, less)
  {
    if |a| > 0 && |b| > 0 && |c| > 0 && a[0] == b[0] && b[0] == c[0] {
      LexTransitive(a[1..], b[1..], c[1..], less);
    }
  }

  lemma {:induction false} LexAntisymmetric<T(!new)>(a: seq<T>, b: seq<T>, less: (T, T) -> bool)
    requires StrictTotal(less)
    requires LexLeq(a, b, less) && LexLeq(b, a, less)
    ensures a == b
  {
    if |a| > 0 && |b| > 0 {
      assert a[0] == b[0];
      LexAntisymmetric(a[1..], b[1..], less);
      assert a == [a[0]] + a[1..] && b == [b[0]] + b[1..];
    }
  }

  // ---------------------------------------------------------------------------
  // Strings and paths

  function CharLess(x: char, y: char): bool {
    x < y
  }

  /** `a < b` on Python strings. */
  function StrLess(a: string, b: string): bool {
    LexLeq(a, b, CharLess) && a != b
  }

  lemma CharLessStrict()
    ensures StrictTotal(CharLess)
  {
  }

  /** String comparison is a strict total order, so it can order the parts
      of paths. */
  lemma StrLessStrict()
    ensures StrictTotal(StrLess)
  {
    CharLessStrict();
    forall x, y, z | StrLess(x, y) && StrLess(y, z)
      ensures StrLess(x, z)
    {
      LexTransitive(x, y, z, CharLess);
      if x == z {
        LexAntisymmetric(x, y, CharLess);
      }
    }
    forall x: string, y: string | x != y
      ensures StrLess(x, y) || StrLess(y, x)
    {
      LexTotal(x, y, CharLess);
    }
  }

  /** The parts of a path between its '/' separators. */
  function PathParts(p: string): seq<string> {
    SplitOn(p, '/')
  }

  /** `p <= q` on `pathlib` paths: their parts compared as lists of strings. */
  predicate PathLeq(p: string, q: string) {
    LexLeq(PathParts(p), PathParts(q), StrLess)
  }

  /** Paths are totally ordered: any two compare, the order is transitive,
      and two paths each at most the other are the same path. */
  lemma PathOrder(p: string, q: string, r: string)
    ensures PathLeq(p, q) || PathLeq(q, p)
    ensures PathLeq(p, q) && PathLeq(q, r) ==> PathLeq(p, r)
    ensures PathLeq(p, q) && PathLeq(q, p) ==> p == q
  {
    StrLessStrict();
    LexTotal(PathParts(p), PathParts(q), StrLess);
    if PathLeq(p, q) && PathLeq(q, r) {
      LexTransitive(PathParts(p), PathParts(q), PathParts(r), StrLess);
    }
    if PathLeq(p, q) && PathLeq(q, p) {
      LexAntisymmetric(PathParts(p), PathParts(q), StrLess);
      SplitOnInjective(p, q, '/');
    }
  }

  /** Paths do not compare as plain strings: `a/b` comes before `a.b`,
      although '.' is below '/'. */
  lemma PathOrderNotStringOrder()
    ensures PathLeq("a/b", "a.b")
    ensures !LexLeq("a/b", "a.b", CharLess)
  {
    SplitOnNoSep("a", '/');
    SplitOnNoSep("b", '/');
    SplitOnNoSep("a.b", '/');
    SplitOnCons("a", '/', "b");
    assert "a/b" == "a" + ['/'] + "b";
    assert PathParts("a/b") == ["a", "b"];
    assert PathParts("a.b") == ["a.b"];
    assert StrLess("a", "a.b");
  }
}
