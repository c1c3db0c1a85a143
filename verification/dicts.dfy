/** Python dicts as the model sees them: a sequence of (key, value) entries in
    insertion order, no key twice. Iterating a dict (`.items()`) walks the
    sequence front to back. */
module Dicts {
  import opened Wrappers

  predicate DistinctKeys<K(==), V>(m: seq<(K, V)>) {
    forall i, j :: 0 <= i < j < |m| ==> m[i].0 != m[j].0
  }

  type Dict<K(==), V> = m: seq<(K, V)> | DistinctKeys(m) witness []

  function Keys<K, V>(m: seq<(K, V)>): (ks: seq<K>)
    ensures |ks| == |m|
    ensures forall i :: 0 <= i < |m| ==> ks[i] == m[i].0
  {
    if |m| == 0 then [] else [m[0].0] + Keys(m[1..])
  }

  /** Adding a key the dict does not hold keeps the keys distinct. */
  lemma AppendNewKey<K, V>(m: Dict<K, V>, k: K, v: V)
    requires k !in Keys(m)
    ensures DistinctKeys(m + [(k, v)])
    ensures Keys(m + [(k, v)]) == Keys(m) + [k]
  {
    assert forall i :: 0 <= i < |m| ==> m[i].0 in Keys(m);
  }

  /** `m.get(k)`: the value stored under `k`, if any. */
  function Get<K(==), V>(m: seq<(K, V)>, k: K): (r: Option<V>)
    ensures r.Some? <==> k in Keys(m)
    ensures r.Some? ==> exists i :: 0 <= i < |m| && m[i] == (k, r.value)
    ensures forall i :: 0 <= i < |m| && DistinctKeys(m) && m[i].0 == k ==> r == Some(m[i].1)
  {
    if |m| == 0 then None
    else if m[0].0 == k then Some(m[0].1)
    else Get(m[1..], k)
  }

  /** Looking a key up in a dict that only gained a last entry. */
  lemma GetPrefix<K, V>(m: Dict<K, V>, k: K)
    requires |m| > 0
    ensures k in Keys(m[..|m| - 1]) ==> Get(m, k) == Get(m[..|m| - 1], k)
    ensures m[|m| - 1].0 == k ==> Get(m, k) == Some(m[|m| - 1].1)
  {
    var init := m[..|m| - 1];
    if k in Keys(init) {
      var i :| 0 <= i < |init| && init[i].0 == k;
      assert m[i] == init[i];
    }
  }

  /** `m.setdefault(k, []).extend(xs)`: extends the list stored under `k` in
      place, or adds `k` at the end with the list `xs`. */
  function Extend<K(==), X>(m: Dict<K, seq<X>>, k: K, xs: seq<X>): (r: Dict<K, seq<X>>)
    ensures k in Keys(m) ==> |r| == |m| && Keys(r) == Keys(m)
    ensures k !in Keys(m) ==> r == m + [(k, xs)]
    ensures forall i :: 0 <= i < |m| ==> r[i] == (if m[i].0 == k then (k, m[i].1 + xs) else m[i])
  {
    if k in Keys(m) then
      var r := seq(|m|, i requires 0 <= i < |m| => if m[i].0 == k then (k, m[i].1 + xs) else m[i]);
      assert Keys(r) == Keys(m);
      r
    else
      var r := m + [(k, xs)];
      assert forall i :: 0 <= i < |m| ==> m[i].0 in Keys(m);
      r
  }

  /** The list under `k`, or the empty list when `k` is absent. */
  function ListOf<K(==), X>(m: seq<(K, seq<X>)>, k: K): seq<X> {
    match Get(m, k)
    case Some(xs) => xs
    case None => []
  }

  /** After `Extend`, the list under `k` has `xs` at its end and every other
      key keeps its value. */
  lemma GetExtend<K, X>(m: Dict<K, seq<X>>, k: K, xs: seq<X>, p: K)
    ensures Get(Extend(m, k, xs), p) == if p == k then Some(ListOf(m, k) + xs) else Get(m, p)
  {
    if p in Keys(m) {
      GetExtendKept(m, k, xs, p);
    } else if p == k {
      GetExtendNew(m, k, xs);
    } else {
      GetExtendAbsent(m, k, xs, p);
    }
  }

  lemma GetExtendKept<K, X>(m: Dict<K, seq<X>>, k: K, xs: seq<X>, p: K)
    requires p in Keys(m)
    ensures Get(Extend(m, k, xs), p) == if p == k then Some(ListOf(m, k) + xs) else Get(m, p)
  {
    var r := Extend(m, k, xs);
    var i :| 0 <= i < |m| && Keys(m)[i] == p;
    assert m[i].0 == p;
    assert Get(m, p) == Some(m[i].1);
    assert r[i] == (if p == k then (k, m[i].1 + xs) else m[i]);
    assert Get(r, p) == Some(r[i].1);
  }

  lemma GetExtendNew<K, X>(m: Dict<K, seq<X>>, k: K, xs: seq<X>)
    requires k !in Keys(m)
    ensures Get(Extend(m, k, xs), k) == Some(ListOf(m, k) + xs)
  {
    var r := Extend(m, k, xs);
    assert r[|m|] == (k, xs);
    assert Get(r, k) == Some(xs);
    assert ListOf(m, k) == [];
    assert ListOf(m, k) + xs == xs;
  }

  lemma GetExtendAbsent<K, X>(m: Dict<K, seq<X>>, k: K, xs: seq<X>, p: K)
    requires p !in Keys(m) && p != k
    ensures Get(Extend(m, k, xs), p) == None
  {
    var r := Extend(m, k, xs);
    if k in Keys(m) {
      assert Keys(r) == Keys(m);
    } else {
      assert Keys(r) == Keys(m) + [k] by {
        assert r == m + [(k, xs)];
      }
    }
  }
}
