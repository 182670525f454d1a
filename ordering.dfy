/** `ORDER BY <timestamp> DESC`: a stable insertion sort on an integer key, largest key
    first. Rows with equal keys keep the order in which they were read. */
module Ordering {

  predicate Descending<T>(xs: seq<T>, key: T -> int) {
    forall i, j :: 0 <= i < j < |xs| ==> key(xs[i]) >= key(xs[j])
  }

  /** Puts `x` in front of the first element whose key is not larger than its own. */
  function Insert<T>(x: T, xs: seq<T>, key: T -> int): (r: seq<T>)
    requires Descending(xs, key)
    ensures |r| == |xs| + 1
    ensures r[0] == x || (xs != [] && r[0] == xs[0])
    ensures Descending(r, key)
    ensures multiset(r) == multiset(xs) + multiset{x}
  {
    if xs == [] || key(x) >= key(xs[0]) then [x] + xs
    else
      var tail := Insert(x, xs[1..], key);
      var r := [xs[0]] + tail;
      assert xs == [xs[0]] + xs[1..];
      assert multiset(r) == multiset{xs[0]} + multiset(tail);
      assert key(xs[0]) >= key(tail[0]);
      assert Descending(r, key) by {
        forall i, j | 0 <= i < j < |r| ensures key(r[i]) >= key(r[j]) {
          assert r[j] == tail[j - 1];
          if i > 0 {
            assert r[i] == tail[i - 1];
          } else if j > 1 {
            assert key(tail[0]) >= key(tail[j - 1]);
          }
        }
      }
      r
  }

  /** `xs` ordered by descending key. */
  function SortDescending<T>(xs: seq<T>, key: T -> int): (r: seq<T>)
    ensures Descending(r, key)
    ensures multiset(r) == multiset(xs)
  {
    if xs == [] then []
    else
      assert xs == [xs[0]] + xs[1..];
      Insert(xs[0], SortDescending(xs[1..], key), key)
  }

  /** Sorting keeps exactly the elements it was given. */
  lemma SortKeepsElements<T>(xs: seq<T>, key: T -> int)
    ensures |SortDescending(xs, key)| == |xs|
    ensures forall x :: x in SortDescending(xs, key) <==> x in xs
  {
    var r := SortDescending(xs, key);
    assert |multiset(r)| == |multiset(xs)|;
    forall x ensures x in r <==> x in xs {
      assert x in r <==> x in multiset(r);
      assert x in xs <==> x in multiset(xs);
    }
  }
}
