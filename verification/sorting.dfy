/** Sorting by a string key, as `Stream.sorted(Comparator.comparing(key))`
    does it: ascending in `String.compareTo` order. */
module Sorting {
  import opened Strings

  /** Every earlier element's key is at most every later element's key. */
  ghost predicate SortedBy<T>(xs: seq<T>, key: T -> string)
  {
    forall i, j | 0 <= i < j < |xs| :: LexLe(key(xs[i]), key(xs[j]))
  }

  /** `x` inserted after every element whose key is not greater than its own. */
  function Insert<T>(x: T, xs: seq<T>, key: T -> string): (r: seq<T>)
    requires SortedBy(xs, key)
    ensures SortedBy(r, key)
    ensures multiset(r) == multiset(xs) + multiset{x}
  {
    if xs == [] then [x]
    else if LexLe(key(xs[0]), key(x)) then
      var tail := Insert(x, xs[1..], key);
      assert xs == [xs[0]] + xs[1..];
      forall j | 0 <= j < |tail|
        ensures LexLe(key(xs[0]), key(tail[j]))
      {
        assert tail[j] in multiset(tail);
        if tail[j] != x {
          assert tail[j] in multiset(xs[1..]);
          var k :| 0 <= k < |xs[1..]| && xs[1..][k] == tail[j];
          assert xs[1 + k] == tail[j];
        }
      }
      [xs[0]] + tail
    else
      LexLeTotal(key(xs[0]), key(x));
      forall j | 0 <= j < |xs|
        ensures LexLe(key(x), key(xs[j]))
      {
        if j > 0 {
          LexLeTransitive(key(x), key(xs[0]), key(xs[j]));
        }
      }
      [x] + xs
  }

  /** Insertion sort by `key`: a sorted permutation of `xs`. */
  function SortBy<T>(xs: seq<T>, key: T -> string): (r: seq<T>)
    ensures SortedBy(r, key)
    ensures multiset(r) == multiset(xs)
    ensures |r| == |xs|
  {
    if xs == [] then []
    else
      var init := xs[..|xs| - 1];
      assert xs == init + [xs[|xs| - 1]];
      var r := Insert(xs[|xs| - 1], SortBy(init, key), key);
      assert |r| == |multiset(r)|;
      r
  }
}
