/**
 * The sequence primitives behind the data-frame operations the dashboard uses:
 * boolean-mask selection (`df[mask]`), `unique()` (distinct values in order of
 * appearance) and `sort_values` (ascending by a numeric key).
 */
module Sequences {

  /** The elements of `s` for which `p` holds, in their original order. */
  function Filter<T>(s: seq<T>, p: T -> bool): (r: seq<T>)
    ensures |r| <= |s|
    ensures forall x :: x in r ==> x in s && p(x)
    ensures forall x :: x in s && p(x) ==> x in r
  {
    if s == [] then []
    else
      assert s == [s[0]] + s[1..];
      (if p(s[0]) then [s[0]] else []) + Filter(s[1..], p)
  }

  /** Selecting from a sequence with a given first element. */
  lemma FilterCons<T>(x: T, s: seq<T>, p: T -> bool)
    ensures Filter([x] + s, p) == (if p(x) then [x] else []) + Filter(s, p)
  {
    assert ([x] + s)[0] == x && ([x] + s)[1..] == s;
  }

  /** A mask that holds of no element selects nothing. */
  lemma {:induction false} FilterNone<T>(s: seq<T>, p: T -> bool)
    requires forall x :: x in s ==> !p(x)
    ensures Filter(s, p) == []
  {
    if s != [] {
      assert s[0] in s;
      assert forall x :: x in s[1..] ==> x in s;
      FilterNone(s[1..], p);
    }
  }

  /** Selecting keeps each element with its full multiplicity or drops it altogether. */
  lemma {:induction false} FilterMultiplicity<T>(s: seq<T>, p: T -> bool, x: T)
    ensures multiset(Filter(s, p))[x] == if p(x) then multiset(s)[x] else 0
  {
    if s != [] {
      FilterMultiplicity(s[1..], p, x);
      assert s == [s[0]] + s[1..];
    }
  }

  /** Selecting by `p` and then by `q` is selecting by their conjunction `both`. */
  lemma {:induction false} FilterTwice<T>(s: seq<T>, p: T -> bool, q: T -> bool, both: T -> bool)
    requires forall x :: both(x) == (p(x) && q(x))
    ensures Filter(Filter(s, p), q) == Filter(s, both)
  {
    if s != [] {
      FilterTwice(s[1..], p, q, both);
      var rest := Filter(s[1..], p);
      if p(s[0]) {
        assert Filter(s, p) == [s[0]] + rest;
        assert ([s[0]] + rest)[1..] == rest;
      } else {
        assert Filter(s, p) == rest;
      }
    }
  }

  /** `a` is `b` with some elements left out, the others kept in order. */
  ghost predicate IsSubsequence<T>(a: seq<T>, b: seq<T>)
    decreases |b|
  {
    a == [] || (b != [] && ((a[0] == b[0] && IsSubsequence(a[1..], b[1..])) || IsSubsequence(a, b[1..])))
  }

  lemma {:induction false} FilterIsSubsequence<T>(s: seq<T>, p: T -> bool)
    ensures IsSubsequence(Filter(s, p), s)
  {
    if s != [] {
      FilterIsSubsequence(s[1..], p);
      var a, rest := Filter(s, p), Filter(s[1..], p);
      if p(s[0]) {
        assert a == [s[0]] + rest;
        assert a[0] == s[0] && a[1..] == rest;
      } else {
        assert a == rest;
      }
    }
  }

  lemma {:induction false} SubsequenceLength<T>(a: seq<T>, b: seq<T>)
    requires IsSubsequence(a, b)
    ensures |a| <= |b|
    decreases |b|
  {
    if a != [] {
      if a[0] == b[0] && IsSubsequence(a[1..], b[1..]) {
        SubsequenceLength(a[1..], b[1..]);
      } else {
        SubsequenceLength(a, b[1..]);
      }
    }
  }

  /** Selecting by a weaker mask keeps everything a stronger one keeps, in the same order. */
  lemma {:induction false} FilterMonotone<T>(s: seq<T>, p: T -> bool, q: T -> bool)
    requires forall x :: p(x) ==> q(x)
    ensures IsSubsequence(Filter(s, p), Filter(s, q))
    ensures |Filter(s, p)| <= |Filter(s, q)|
  {
    if s != [] {
      FilterMonotone(s[1..], p, q);
      var a, b := Filter(s[1..], p), Filter(s[1..], q);
      var fa, fb := Filter(s, p), Filter(s, q);
      if p(s[0]) {
        assert fa == [s[0]] + a && fb == [s[0]] + b;
        assert fa[0] == fb[0] && fa[1..] == a && fb[1..] == b;
      } else if q(s[0]) {
        assert fa == a && fb == [s[0]] + b;
        assert fb != [] && fb[1..] == b;
      } else {
        assert fa == a && fb == b;
      }
    }
    SubsequenceLength(Filter(s, p), Filter(s, q));
  }

  predicate NoDuplicates<T(==)>(s: seq<T>) {
    forall i, j :: 0 <= i < j < |s| ==> s[i] != s[j]
  }

  /** Index of the first occurrence of `x` in `s`. */
  function FirstIndex<T(==)>(s: seq<T>, x: T): (k: nat)
    requires x in s
    ensures k < |s| && s[k] == x && x !in s[..k]
  {
    if s[0] == x then 0
    else
      var k := 1 + FirstIndex(s[1..], x);
      assert s[..k] == [s[0]] + s[1..][..k - 1];
      k
  }

  /** An occurrence with no earlier occurrence is the first one. */
  lemma FirstIndexIs<T>(s: seq<T>, x: T, k: nat)
    requires k < |s| && s[k] == x && x !in s[..k]
    ensures FirstIndex(s, x) == k
  {
    var f := FirstIndex(s, x);
    forall i | 0 <= i < k ensures s[i] != x {
      assert s[..k][i] == s[i];
    }
    forall i | 0 <= i < f ensures s[i] != x {
      assert s[..f][i] == s[i];
    }
  }

  /**
   * The distinct elements of `s` in order of first appearance (pandas'
   * `Series.unique()`): no duplicates, exactly the elements of `s`.
   */
  function Unique<T(==)>(s: seq<T>): (u: seq<T>)
    ensures NoDuplicates(u)
    ensures forall x :: x in u ==> x in s
    ensures forall x :: x in s ==> x in u
  {
    if s == [] then []
    else
      var init, last := s[..|s| - 1], s[|s| - 1];
      assert s == init + [last];
      var u := Unique(init);
      if last in u then u else u + [last]
  }

  /** `Unique` lists the elements in the order in which they first appear in `s`. */
  lemma {:induction false} UniqueFirstSeenOrder<T>(s: seq<T>)
    ensures forall i, j :: 0 <= i < j < |Unique(s)| ==> FirstIndex(s, Unique(s)[i]) < FirstIndex(s, Unique(s)[j])
  {
    if s != [] {
      var n := |s|;
      var init, last := s[..n - 1], s[n - 1];
      assert s == init + [last];
      UniqueFirstSeenOrder(init);
      var u := Unique(init);
      forall x | x in init
        ensures FirstIndex(s, x) == FirstIndex(init, x) < n - 1
      {
        var k := FirstIndex(init, x);
        assert s[..k] == init[..k];
        FirstIndexIs(s, x, k);
      }
      if last !in u {
        assert s[..n - 1] == init;
        FirstIndexIs(s, last, n - 1);
        assert Unique(s) == u + [last];
        forall i, j | 0 <= i < j < |Unique(s)|
          ensures FirstIndex(s, Unique(s)[i]) < FirstIndex(s, Unique(s)[j])
        {
          assert Unique(s)[i] == u[i] && u[i] in init;
          if j < |u| {
            assert Unique(s)[j] == u[j];
          }
        }
      }
    }
  }

  /** Occurrences of `x` in a duplicate-free sequence: at most one. */
  lemma {:induction false} NoDuplicatesMultiplicity<T>(s: seq<T>, x: T)
    requires NoDuplicates(s)
    ensures multiset(s)[x] == if x in s then 1 else 0
  {
    if s != [] {
      assert s == [s[0]] + s[1..];
      NoDuplicatesMultiplicity(s[1..], x);
      forall k | 0 <= k < |s| - 1 ensures s[1..][k] != s[0] {
        assert s[1..][k] == s[k + 1];
      }
      assert s[0] !in s[1..];
    }
  }

  /** Two equal elements at different positions make that value occur at least twice. */
  lemma RepeatedMultiplicity<T>(b: seq<T>, i: nat, j: nat)
    requires i < j < |b|
    ensures b[i] == b[j] ==> multiset(b)[b[j]] >= 2
  {
    assert b == b[..j] + [b[j]] + b[j + 1..];
    assert b[..j][i] == b[i];
    assert multiset(b)[b[j]] == multiset(b[..j])[b[j]] + 1 + multiset(b[j + 1..])[b[j]];
  }

  /** A rearrangement of a duplicate-free sequence is duplicate-free. */
  lemma PermutationNoDuplicates<T>(a: seq<T>, b: seq<T>)
    requires multiset(a) == multiset(b) && NoDuplicates(a)
    ensures NoDuplicates(b)
  {
    forall i, j | 0 <= i < j < |b|
      ensures b[i] != b[j]
    {
      NoDuplicatesMultiplicity(a, b[j]);
      RepeatedMultiplicity(b, i, j);
    }
  }

  /** `s` is in non-decreasing order of `key`. */
  predicate SortedBy<T>(s: seq<T>, key: T -> real) {
    forall i, j :: 0 <= i < j < |s| ==> key(s[i]) <= key(s[j])
  }

  /** Inserts `x` into a sorted `s`, before the first element whose key is not smaller. */
  function InsertBy<T>(x: T, s: seq<T>, key: T -> real): (r: seq<T>)
    requires SortedBy(s, key)
    ensures SortedBy(r, key)
    ensures multiset(r) == multiset(s) + multiset{x}
  {
    if s == [] then [x]
    else if key(x) <= key(s[0]) then [x] + s
    else
      assert s == [s[0]] + s[1..];
      var rest := InsertBy(x, s[1..], key);
      LowerBound(s[0], x, s[1..], rest, key);
      SortedCons(s[0], rest, key);
      [s[0]] + rest
  }

  lemma LowerBound<T>(y: T, x: T, s: seq<T>, r: seq<T>, key: T -> real)
    requires multiset(r) == multiset(s) + multiset{x}
    requires key(y) <= key(x) && forall i :: 0 <= i < |s| ==> key(y) <= key(s[i])
    ensures forall i :: 0 <= i < |r| ==> key(y) <= key(r[i])
  {
    forall i | 0 <= i < |r| ensures key(y) <= key(r[i]) {
      assert r[i] in multiset(r);
      if r[i] != x {
        assert r[i] in s;
      }
    }
  }

  lemma SortedCons<T>(y: T, r: seq<T>, key: T -> real)
    requires SortedBy(r, key) && forall i :: 0 <= i < |r| ==> key(y) <= key(r[i])
    ensures SortedBy([y] + r, key)
  {
    forall i, j | 0 <= i < j < |[y] + r| ensures key(([y] + r)[i]) <= key(([y] + r)[j]) {
      if i > 0 {
        assert ([y] + r)[i] == r[i - 1];
      }
      assert ([y] + r)[j] == r[j - 1];
    }
  }

  /** The elements of `s` in non-decreasing order of `key` (insertion sort). */
  function SortBy<T>(s: seq<T>, key: T -> real): (r: seq<T>)
    ensures SortedBy(r, key)
    ensures multiset(r) == multiset(s)
  {
    if s == [] then []
    else
      assert s == [s[0]] + s[1..];
      InsertBy(s[0], SortBy(s[1..], key), key)
  }

  /** Number of elements of `s` whose `key` is `v`. */
  function Count<T, K(==)>(s: seq<T>, key: T -> K, v: K): nat {
    if s == [] then 0 else (if key(s[0]) == v then 1 else 0) + Count(s[1..], key, v)
  }

  /** Selecting the elements whose `key` is `v` keeps `Count(s, key, v)` of them. */
  lemma {:induction false} FilterCount<T, K>(s: seq<T>, key: T -> K, v: K, q: T -> bool)
    requires forall x :: q(x) == (key(x) == v)
    ensures |Filter(s, q)| == Count(s, key, v)
  {
    if s != [] {
      FilterCount(s[1..], key, v, q);
    }
  }

  function Sum(xs: seq<nat>): nat {
    if xs == [] then 0 else xs[0] + Sum(xs[1..])
  }

  /** The sum over the values `vs` of how many elements of `s` have each as their key. */
  function SumCounts<T, K(==)>(s: seq<T>, key: T -> K, vs: seq<K>): nat {
    if vs == [] then 0 else Count(s, key, vs[0]) + SumCounts(s, key, vs[1..])
  }

  /** A sequence of numbers that lists the counts of `vs` sums to `SumCounts`. */
  lemma {:induction false} SumOfCounts<T, K>(xs: seq<nat>, s: seq<T>, key: T -> K, vs: seq<K>)
    requires |xs| == |vs| && forall i :: 0 <= i < |xs| ==> xs[i] == Count(s, key, vs[i])
    ensures Sum(xs) == SumCounts(s, key, vs)
  {
    if xs != [] {
      SumOfCounts(xs[1..], s, key, vs[1..]);
    }
  }

  lemma {:induction false} SumCountsOfNothing<T, K>(key: T -> K, vs: seq<K>)
    ensures SumCounts([], key, vs) == 0
  {
    if vs != [] {
      SumCountsOfNothing(key, vs[1..]);
    }
  }

  /** The first element of `s` adds one for each occurrence of its key in `vs`. */
  lemma {:induction false} SumCountsStep<T, K>(s: seq<T>, key: T -> K, vs: seq<K>)
    requires s != []
    ensures SumCounts(s, key, vs) == multiset(vs)[key(s[0])] + SumCounts(s[1..], key, vs)
  {
    if vs != [] {
      SumCountsStep(s, key, vs[1..]);
      assert vs == [vs[0]] + vs[1..];
    }
  }

  /**
   * Counting every distinct key: when `vs` lists each key of `s` exactly once, the
   * counts of `vs` add up to the length of `s`.
   */
  lemma {:induction false} SumCountsTotal<T, K>(s: seq<T>, key: T -> K, vs: seq<K>)
    requires NoDuplicates(vs)
    requires forall x :: x in s ==> key(x) in vs
    ensures SumCounts(s, key, vs) == |s|
  {
    if s == [] {
      SumCountsOfNothing(key, vs);
    } else {
      assert s[0] in s;
      assert forall x :: x in s[1..] ==> x in s;
      SumCountsTotal(s[1..], key, vs);
      SumCountsStep(s, key, vs);
      NoDuplicatesMultiplicity(vs, key(s[0]));
    }
  }
}
