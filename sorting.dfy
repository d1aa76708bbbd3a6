/**
 * Python's `sorted(s, key=key)`: a stable sort that compares keys with `<`
 * only. Modelled as insertion sort, which produces the same (unique) stable
 * ordering whenever `<` on keys is a strict total order.
 */
module Sorting {

  import opened Text

  /** `lt` is irreflexive, transitive and total. */
  ghost predicate StrictTotalOrder<K(!new)>(lt: (K, K) -> bool)
  {
    && (forall a :: !lt(a, a))
    && (forall a, b, c :: lt(a, b) && lt(b, c) ==> lt(a, c))
    && (forall a, b :: a == b || lt(a, b) || lt(b, a))
  }

  /** No later element has a smaller key than an earlier one. */
  predicate SortedBy<T, K>(s: seq<T>, key: T -> K, lt: (K, K) -> bool)
  {
    forall i, j :: 0 <= i < j < |s| ==> !lt(key(s[j]), key(s[i]))
  }

  /** No two elements agree on `f`. */
  predicate DistinctBy<T, U(==)>(s: seq<T>, f: T -> U)
  {
    forall i, j :: 0 <= i < j < |s| ==> f(s[i]) != f(s[j])
  }

  /** The elements whose key is `k`, in order. */
  function KeyFilter<T, K(==)>(s: seq<T>, key: T -> K, k: K): seq<T>
  {
    if s == [] then [] else (if key(s[0]) == k then [s[0]] else []) + KeyFilter(s[1..], key, k)
  }

  /** Puts `x` before the first element of `ys` whose key is not smaller than its own. */
  function InsertBy<T, K>(x: T, ys: seq<T>, key: T -> K, lt: (K, K) -> bool): (r: seq<T>)
    ensures multiset(r) == multiset(ys) + multiset{x}
  {
    if ys == [] || !lt(key(ys[0]), key(x)) then [x] + ys
    else
      assert ys == [ys[0]] + ys[1..];
      [ys[0]] + InsertBy(x, ys[1..], key, lt)
  }

  function SortBy<T, K>(s: seq<T>, key: T -> K, lt: (K, K) -> bool): (r: seq<T>)
    ensures multiset(r) == multiset(s)
    ensures |r| == |s|
  {
    if s == [] then []
    else
      assert s == [s[0]] + s[1..];
      InsertBy(s[0], SortBy(s[1..], key, lt), key, lt)
  }

  lemma {:induction false} InsertBySorted<T, K(!new)>(x: T, ys: seq<T>, key: T -> K, lt: (K, K) -> bool)
    requires StrictTotalOrder(lt)
    requires SortedBy(ys, key, lt)
    ensures SortedBy(InsertBy(x, ys, key, lt), key, lt)
  {
    if ys != [] && lt(key(ys[0]), key(x)) {
      var rest := InsertBy(x, ys[1..], key, lt);
      InsertBySorted(x, ys[1..], key, lt);
      var r := [ys[0]] + rest;
      forall j | 0 < j < |r|
        ensures !lt(key(r[j]), key(ys[0]))
      {
        assert r[j] in multiset(rest);
        if r[j] != x {
          assert r[j] in ys[1..];
        }
      }
    }
  }

  /** The sorted sequence is ordered by key. */
  lemma {:induction false} SortBySorted<T, K(!new)>(s: seq<T>, key: T -> K, lt: (K, K) -> bool)
    requires StrictTotalOrder(lt)
    ensures SortedBy(SortBy(s, key, lt), key, lt)
  {
    if s != [] {
      SortBySorted(s[1..], key, lt);
      InsertBySorted(s[0], SortBy(s[1..], key, lt), key, lt);
    }
  }

  lemma {:induction false} InsertByStable<T, K(!new)>(x: T, ys: seq<T>, key: T -> K, lt: (K, K) -> bool, k: K)
    requires StrictTotalOrder(lt)
    ensures KeyFilter(InsertBy(x, ys, key, lt), key, k) == KeyFilter([x] + ys, key, k)
  {
    if ys != [] && lt(key(ys[0]), key(x)) {
      var rest := InsertBy(x, ys[1..], key, lt);
      InsertByStable(x, ys[1..], key, lt, k);
      assert ([ys[0]] + rest)[1..] == rest;
      assert ([x] + ys[1..])[1..] == ys[1..];
      assert ([x] + ys)[1..] == ys;
    }
  }

  /**
   * Stability: the elements sharing one key keep their relative order, so
   * ties are left in input order.
   */
  lemma {:induction false} SortByStable<T, K(!new)>(s: seq<T>, key: T -> K, lt: (K, K) -> bool, k: K)
    requires StrictTotalOrder(lt)
    ensures KeyFilter(SortBy(s, key, lt), key, k) == KeyFilter(s, key, k)
  {
    if s != [] {
      var rest := SortBy(s[1..], key, lt);
      InsertByStable(s[0], rest, key, lt, k);
      SortByStable(s[1..], key, lt, k);
      assert ([s[0]] + rest)[1..] == rest;
    }
  }

  lemma {:induction false} InsertByKeepsDistinct<T, K, U>(x: T, ys: seq<T>, key: T -> K, lt: (K, K) -> bool, f: T -> U)
    requires DistinctBy(ys, f)
    requires forall y :: y in ys ==> f(y) != f(x)
    ensures DistinctBy(InsertBy(x, ys, key, lt), f)
  {
    if ys != [] && lt(key(ys[0]), key(x)) {
      var rest := InsertBy(x, ys[1..], key, lt);
      assert forall j :: 1 <= j < |ys| ==> f(ys[0]) != f(ys[j]);
      InsertByKeepsDistinct(x, ys[1..], key, lt, f);
      var r := [ys[0]] + rest;
      forall j | 0 < j < |r|
        ensures f(r[j]) != f(ys[0])
      {
        assert r[j] in multiset(rest);
        if r[j] != x {
          assert r[j] in ys[1..];
        }
      }
    }
  }

  /** Sorting keeps a sequence free of two elements that agree on `f`. */
  lemma {:induction false} SortByKeepsDistinct<T, K, U>(s: seq<T>, key: T -> K, lt: (K, K) -> bool, f: T -> U)
    requires DistinctBy(s, f)
    ensures DistinctBy(SortBy(s, key, lt), f)
  {
    if s != [] {
      SortByKeepsDistinct(s[1..], key, lt, f);
      var rest := SortBy(s[1..], key, lt);
      forall y | y in rest
        ensures f(y) != f(s[0])
      {
        assert y in multiset(rest);
        assert y in s[1..];
      }
      InsertByKeepsDistinct(s[0], rest, key, lt, f);
    }
  }

  /** Python's comparison of strings is a strict total order. */
  lemma StrLtStrictTotalOrder()
    ensures StrictTotalOrder(StrLt)
  {
    forall a: string
      ensures !StrLt(a, a)
    {
      StrLtIrreflexive(a);
    }
    forall a: string, b: string, c: string | StrLt(a, b) && StrLt(b, c)
      ensures StrLt(a, c)
    {
      StrLtTransitive(a, b, c);
    }
    forall a: string, b: string
      ensures a == b || StrLt(a, b) || StrLt(b, a)
    {
      StrLtTrichotomous(a, b);
    }
  }
}
