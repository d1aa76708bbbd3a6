/** Sequence helpers shared by the alias index, the card aggregator and the matrix. */
module Lists {

  /** No element occurs twice. */
  predicate Distinct<T(==)>(s: seq<T>)
  {
    forall i, j :: 0 <= i < j < |s| ==> s[i] != s[j]
  }

  /** The index of the first occurrence of `x` in `s`. */
  function IndexOf<T(==)>(s: seq<T>, x: T): (i: nat)
    requires x in s
    ensures i < |s| && s[i] == x && x !in s[..i]
  {
    if s[0] == x then 0 else 1 + IndexOf(s[1..], x)
  }

  /** Prepending or appending elements does not move a first occurrence inside `s`. */
  lemma IndexOfAppend<T>(s: seq<T>, t: seq<T>, x: T)
    requires x in s
    ensures IndexOf(s + t, x) == IndexOf(s, x)
  {
    var i, j := IndexOf(s + t, x), IndexOf(s, x);
    assert (s + t)[j] == x;
  }

  /** An occurrence of `x` with no earlier one is the first occurrence. */
  lemma {:induction false} IndexOfAt<T>(s: seq<T>, x: T, i: nat)
    requires i < |s| && s[i] == x && x !in s[..i]
    ensures IndexOf(s, x) == i
  {
    if i > 0 {
      assert s[..i][0] == s[0];
      assert s[1..][..i - 1] == s[..i][1..];
      IndexOfAt(s[1..], x, i - 1);
    }
  }

  /**
   * Walks `xs` in order and appends to `acc` every element not yet present:
   * Python's
   *     for x in xs:
   *         if x not in acc: acc.append(x)
   * It is also the key order a Python dict takes when `xs` are inserted.
   */
  function AppendMissing<T(==,!new)>(acc: seq<T>, xs: seq<T>): (r: seq<T>)
    ensures acc <= r
    ensures forall x :: x in r <==> x in acc || x in xs
    ensures Distinct(acc) ==> Distinct(r)
    decreases |xs|
  {
    if xs == [] then acc
    else
      var prev := AppendMissing(acc, xs[..|xs| - 1]);
      var x := xs[|xs| - 1];
      if x in prev then prev else prev + [x]
  }

  /**
   * What `AppendMissing` adds is made of elements of `xs` not in `acc`, each
   * once, in the order of their first occurrence in `xs`.
   */
  lemma {:induction false} AppendMissingFirstSeen<T(!new)>(acc: seq<T>, xs: seq<T>)
    ensures forall i :: |acc| <= i < |AppendMissing(acc, xs)| ==>
      AppendMissing(acc, xs)[i] in xs && AppendMissing(acc, xs)[i] !in acc
    ensures forall i, j :: |acc| <= i < j < |AppendMissing(acc, xs)| ==>
      && AppendMissing(acc, xs)[i] != AppendMissing(acc, xs)[j]
      && IndexOf(xs, AppendMissing(acc, xs)[i]) < IndexOf(xs, AppendMissing(acc, xs)[j])
    decreases |xs|
  {
    if xs != [] {
      var front, x := xs[..|xs| - 1], xs[|xs| - 1];
      assert xs == front + [x];
      AppendMissingFirstSeen(acc, front);
      var prev := AppendMissing(acc, front);
      assert forall i :: |acc| <= i < |prev| ==> prev[i] in front;
      var r := AppendMissing(acc, xs);
      forall i | |acc| <= i < |prev|
        ensures prev[i] in front && IndexOf(xs, prev[i]) == IndexOf(front, prev[i])
      {
        assert prev[i] in front;
        IndexOfAppend(front, [x], prev[i]);
      }
      if x !in prev {
        assert x !in front;
        assert IndexOf(xs, x) == |front|;
        assert r == prev + [x];
      }
    }
  }

  /** One more element either is already there or is added at the end. */
  lemma AppendMissingSnoc<T(!new)>(acc: seq<T>, xs: seq<T>, x: T)
    ensures AppendMissing(acc, xs + [x]) ==
      if x in AppendMissing(acc, xs) then AppendMissing(acc, xs) else AppendMissing(acc, xs) + [x]
  {
    assert (xs + [x])[..|xs|] == xs;
  }

  /** The elements of `s` that satisfy `p`, in order (Python's `filter`). */
  function Filter<T(!new)>(s: seq<T>, p: T -> bool): (r: seq<T>)
    ensures |r| <= |s|
    ensures forall x :: x in r <==> x in s && p(x)
  {
    if s == [] then [] else (if p(s[0]) then [s[0]] else []) + Filter(s[1..], p)
  }

  /** Each element that satisfies `p` is kept as often as it occurs in `s`, and no other element. */
  lemma {:induction false} FilterMultiset<T(!new)>(s: seq<T>, p: T -> bool)
    ensures forall x :: multiset(Filter(s, p))[x] == if p(x) then multiset(s)[x] else 0
  {
    if s != [] {
      assert s == [s[0]] + s[1..];
      FilterMultiset(s[1..], p);
    }
  }

  /** The filter works element by element, so it keeps the order of `s`. */
  lemma {:induction false} FilterAppend<T(!new)>(a: seq<T>, b: seq<T>, p: T -> bool)
    ensures Filter(a + b, p) == Filter(a, p) + Filter(b, p)
  {
    if a == [] {
      assert a + b == b;
    } else {
      assert (a + b)[0] == a[0] && (a + b)[1..] == a[1..] + b;
      FilterAppend(a[1..], b, p);
    }
  }
}
