/**
 * Sorting a vector of tiles along one axis, as `std::sort` does inside both
 * versions of `kdTree`.  `std::sort` is not stable and the grid has many tiles
 * with equal coordinates, so every contract here promises only a sorted
 * permutation, never a particular order of ties.
 */
module Sorting {

  /** `s` is in non-decreasing order of `key`. */
  predicate SortedBy<T>(s: seq<T>, key: T -> int)
  {
    forall i, j :: 0 <= i < j < |s| ==> key(s[i]) <= key(s[j])
  }

  /** Inserts `x` into the sorted sequence `s`. */
  function Insert<T>(x: T, s: seq<T>, key: T -> int): (r: seq<T>)
    requires SortedBy(s, key)
    ensures SortedBy(r, key)
    ensures multiset(r) == multiset(s) + multiset{x}
    ensures |r| == |s| + 1
  {
    if s == [] then [x]
    else if key(x) <= key(s[0]) then [x] + s
    else
      var rest := Insert(x, s[1..], key);
      assert s == [s[0]] + s[1..];
      InsertBelow(s[0], x, s[1..], rest, key);
      [s[0]] + rest
  }

  /** An element no larger than `x` and than everything in `t` can go in front of `t` with `x` inserted. */
  lemma InsertBelow<T>(h: T, x: T, t: seq<T>, rest: seq<T>, key: T -> int)
    requires SortedBy([h] + t, key) && key(h) <= key(x)
    requires SortedBy(rest, key) && multiset(rest) == multiset(t) + multiset{x}
    ensures SortedBy([h] + rest, key)
  {
    forall k | 0 <= k < |rest|
      ensures key(h) <= key(rest[k])
    {
      assert rest[k] in multiset(rest);
      if rest[k] != x {
        assert rest[k] in multiset(t);
        var m :| 0 <= m < |t| && t[m] == rest[k];
        assert ([h] + t)[0] == h && ([h] + t)[m + 1] == t[m];
        assert key(([h] + t)[0]) <= key(([h] + t)[m + 1]);
      }
    }
  }

  /** A sorted permutation of `s` (the model's stand-in for `std::sort`). */
  function InsertionSort<T>(s: seq<T>, key: T -> int): (r: seq<T>)
    ensures SortedBy(r, key)
    ensures multiset(r) == multiset(s)
    ensures |r| == |s|
  {
    if s == [] then []
    else
      assert s == [s[0]] + s[1..];
      Insert(s[0], InsertionSort(s[1..], key), key)
  }

  /** Sorts `a` in place along `key` (the `std::sort` call on the caller's vector). */
  method SortInPlace<T>(a: array<T>, key: T -> int)
    modifies a
    ensures SortedBy(a[..], key)
    ensures multiset(a[..]) == multiset(old(a[..]))
  {
    var sorted := InsertionSort(a[..], key);
    var i := 0;
    while i < a.Length
      invariant 0 <= i <= a.Length
      invariant a[..i] == sorted[..i]
    {
      a[i] := sorted[i];
      i := i + 1;
    }
    assert a[..] == sorted[..a.Length] == sorted;
  }
}
