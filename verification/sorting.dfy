/** Ordering by a numeric key, largest first: what the store's
    `.order(column, { ascending: false })` and the services' in-memory
    `sort((a, b) => b - a)` both produce. */
module Sorting {

  predicate SortedDesc<T>(xs: seq<T>, key: T -> int)
  {
    forall i, j :: 0 <= i < j < |xs| ==> key(xs[i]) >= key(xs[j])
  }

  /** Every element of `xs` has a key of at most `bound`. */
  predicate AllAtMost<T>(xs: seq<T>, key: T -> int, bound: int)
  {
    forall i :: 0 <= i < |xs| ==> key(xs[i]) <= bound
  }

  lemma AllAtMostPermutation<T>(xs: seq<T>, ys: seq<T>, key: T -> int, bound: int)
    requires multiset(xs) == multiset(ys)
    requires AllAtMost(ys, key, bound)
    ensures AllAtMost(xs, key, bound)
  {
    forall i | 0 <= i < |xs|
      ensures key(xs[i]) <= bound
    {
      assert xs[i] in multiset(ys);
      var j :| 0 <= j < |ys| && ys[j] == xs[i];
    }
  }

  /** A sorted sequence stays sorted under a head no smaller than any of
      its keys. */
  lemma ConsSorted<T>(h: T, xs: seq<T>, key: T -> int)
    requires SortedDesc(xs, key) && AllAtMost(xs, key, key(h))
    ensures SortedDesc([h] + xs, key)
  {
    forall i, j | 0 <= i < j < |xs| + 1
      ensures key(([h] + xs)[i]) >= key(([h] + xs)[j])
    {
      assert ([h] + xs)[j] == xs[j - 1];
      if i > 0 {
        assert ([h] + xs)[i] == xs[i - 1];
      }
    }
  }

  /** Places `x` before the first element whose key is strictly smaller. */
  function Insert<T>(x: T, xs: seq<T>, key: T -> int): (r: seq<T>)
    requires SortedDesc(xs, key)
    ensures SortedDesc(r, key)
    ensures multiset(r) == multiset(xs) + multiset{x}
    ensures |r| == |xs| + 1
    decreases |xs|
  {
    if |xs| == 0 then [x]
    else if key(x) >= key(xs[0]) then
      assert AllAtMost(xs, key, key(x)) by {
        assert forall i :: 0 <= i < |xs| ==> key(xs[i]) <= key(xs[0]);
      }
      ConsSorted(x, xs, key);
      [x] + xs
    else
      var tail := xs[1..];
      assert SortedDesc(tail, key);
      var rest := Insert(x, tail, key);
      assert xs == [xs[0]] + tail;
      assert AllAtMost(rest, key, key(xs[0])) by {
        assert AllAtMost(tail + [x], key, key(xs[0])) by {
          forall i | 0 <= i < |tail| + 1
            ensures key((tail + [x])[i]) <= key(xs[0])
          {
            if i < |tail| {
              assert (tail + [x])[i] == xs[i + 1];
            }
          }
        }
        assert multiset(tail + [x]) == multiset(tail) + multiset{x};
        AllAtMostPermutation(rest, tail + [x], key, key(xs[0]));
      }
      ConsSorted(xs[0], rest, key);
      assert multiset([xs[0]] + rest) == multiset{xs[0]} + multiset(rest);
      [xs[0]] + rest
  }

  /** Insertion sort: a permutation of `xs` ordered by `key`, largest first. */
  function SortDesc<T>(xs: seq<T>, key: T -> int): (r: seq<T>)
    ensures SortedDesc(r, key)
    ensures multiset(r) == multiset(xs)
    ensures |r| == |xs|
    decreases |xs|
  {
    if |xs| == 0 then []
    else
      assert xs == [xs[0]] + xs[1..];
      Insert(xs[0], SortDesc(xs[1..], key), key)
  }

  lemma SortedSlice<T>(xs: seq<T>, key: T -> int, lo: int, hi: int)
    requires SortedDesc(xs, key)
    requires 0 <= lo <= hi <= |xs|
    ensures SortedDesc(xs[lo..hi], key)
  {
    forall i, j | 0 <= i < j < hi - lo
      ensures key(xs[lo..hi][i]) >= key(xs[lo..hi][j])
    {
      assert xs[lo..hi][i] == xs[lo + i] && xs[lo..hi][j] == xs[lo + j];
    }
  }

  /** A value occurring at two distinct positions occurs at least twice. */
  lemma TwoPositionsTwoOccurrences<T>(xs: seq<T>, i: int, j: int)
    requires 0 <= i < j < |xs| && xs[i] == xs[j]
    ensures multiset(xs)[xs[i]] >= 2
  {
    var x := xs[i];
    assert xs == xs[..i] + [x] + xs[i + 1..j] + [x] + xs[j + 1..];
    assert multiset(xs) == multiset(xs[..i]) + multiset{x} + multiset(xs[i + 1..j]) + multiset{x} + multiset(xs[j + 1..]);
  }
}
