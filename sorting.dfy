/**
  Ordering of query results. The database sorts with ORDER BY on one integer
  column; the model sorts by an integer key with a stable insertion sort
  (rows with equal keys come back in table order, one of the orders the
  database may choose).
 */
module Sorting {

  ghost predicate SortedBy<T>(xs: seq<T>, key: T -> int) {
    forall i, j :: 0 <= i < j < |xs| ==> key(xs[i]) <= key(xs[j])
  }

  /** A sorted sequence stays sorted with a front element no larger than its head. */
  lemma {:induction false} ConsSorted<T>(y: T, rest: seq<T>, key: T -> int)
    requires SortedBy(rest, key)
    requires rest != [] ==> key(y) <= key(rest[0])
    ensures SortedBy([y] + rest, key)
  {
    var r := [y] + rest;
    forall i, j | 0 <= i < j < |r| ensures key(r[i]) <= key(r[j]) {
      assert r[j] == rest[j - 1];
      if i > 0 {
        assert r[i] == rest[i - 1];
      }
    }
  }

  /** Puts x into the sorted xs after every element whose key is not larger. */
  function Insert<T>(x: T, xs: seq<T>, key: T -> int): (r: seq<T>)
    requires SortedBy(xs, key)
    ensures |r| == |xs| + 1
    ensures r[0] == x || (xs != [] && r[0] == xs[0])
    ensures SortedBy(r, key)
    ensures multiset(r) == multiset(xs) + multiset{x}
  {
    if xs == [] then [x]
    else if key(x) < key(xs[0]) then
      ConsSorted(x, xs, key);
      [x] + xs
    else
      var rest := Insert(x, xs[1..], key);
      assert xs == [xs[0]] + xs[1..];
      assert key(xs[0]) <= key(rest[0]);
      ConsSorted(xs[0], rest, key);
      [xs[0]] + rest
  }

  /** xs reordered by ascending key. */
  function SortBy<T>(xs: seq<T>, key: T -> int): (r: seq<T>)
    ensures SortedBy(r, key)
    ensures multiset(r) == multiset(xs)
    ensures |r| == |xs|
  {
    if xs == [] then []
    else
      assert xs == xs[..|xs| - 1] + [xs[|xs| - 1]];
      var r := Insert(xs[|xs| - 1], SortBy(xs[..|xs| - 1], key), key);
      assert |r| == |multiset(r)|;
      r
  }
}
