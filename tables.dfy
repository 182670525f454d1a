/** What a query sees of a table: its rows, keyed by primary key, read in primary-key
    order, and the rows a WHERE clause keeps. */
module Tables {

  lemma NonEmptyHasElement(s: set<int>)
    requires s != {}
    ensures exists x :: x in s
  {
    if forall x :: x !in s { assert false; }
  }

  predicate IsLeast(m: int, s: set<int>) {
    m in s && forall k | k in s :: m <= k
  }

  /** Every non-empty finite set of keys has a least element. */
  lemma LeastExists(s: set<int>)
    requires s != {}
    ensures exists m :: IsLeast(m, s)
    decreases |s|
  {
    NonEmptyHasElement(s);
    var x :| x in s;
    if forall k | k in s :: k == x {
      assert IsLeast(x, s);
    } else {
      var y :| y in s && y != x;
      var rest := s - {x};
      assert y in rest;
      LeastExists(rest);
      var m :| IsLeast(m, rest);
      assert forall k | k in s :: k == x || k in rest;
      if x < m { assert IsLeast(x, s); } else { assert IsLeast(m, s); }
    }
  }

  predicate StrictlyIncreasing(ks: seq<int>) {
    forall i, j :: 0 <= i < j < |ks| ==> ks[i] < ks[j]
  }

  /** The keys of `s` in ascending order, each exactly once. */
  function SortedKeys(s: set<int>): (r: seq<int>)
    ensures forall k :: k in r <==> k in s
    ensures StrictlyIncreasing(r)
    decreases s
  {
    if s == {} then []
    else
      LeastExists(s);
      var m :| IsLeast(m, s);
      [m] + SortedKeys(s - {m})
  }

  /** The rows stored under the keys `ks`, in that order. */
  function RowsAt<V>(m: map<int, V>, ks: seq<int>): (r: seq<V>)
    requires forall i :: 0 <= i < |ks| ==> ks[i] in m
    ensures |r| == |ks|
    ensures forall i :: 0 <= i < |ks| ==> r[i] == m[ks[i]]
  {
    if ks == [] then [] else [m[ks[0]]] + RowsAt(m, ks[1..])
  }

  /** A snapshot of a table: every row once, in primary-key order. */
  function Rows<V(==,!new)>(m: map<int, V>): (r: seq<V>)
    ensures forall v :: v in r <==> v in m.Values
  {
    var ks := SortedKeys(m.Keys);
    var r := RowsAt(m, ks);
    assert forall v :: v in r ==> v in m.Values by {
      forall v | v in r ensures v in m.Values {
        var i :| 0 <= i < |r| && r[i] == v;
        assert ks[i] in m && m[ks[i]] == v;
      }
    }
    assert forall v :: v in m.Values ==> v in r by {
      forall v | v in m.Values ensures v in r {
        var k :| k in m && m[k] == v;
        assert k in ks;
        var i :| 0 <= i < |ks| && ks[i] == k;
        assert r[i] == v;
      }
    }
    r
  }

  /** The rows of `xs` that `keep` accepts, in their order. */
  function Where<T(!new)>(xs: seq<T>, keep: T -> bool): (r: seq<T>)
    ensures |r| <= |xs|
    ensures forall x :: x in r <==> x in xs && keep(x)
  {
    if xs == [] then []
    else if keep(xs[0]) then [xs[0]] + Where(xs[1..], keep)
    else Where(xs[1..], keep)
  }

  /** Two tests that agree on every row keep the same rows. */
  lemma {:induction false} WhereCongruent<T(!new)>(xs: seq<T>, f: T -> bool, g: T -> bool)
    requires forall x :: f(x) == g(x)
    ensures Where(xs, f) == Where(xs, g)
  {
    if xs != [] {
      WhereCongruent(xs[1..], f, g);
    }
  }

  /** The keys of `ks` whose row exists and is kept. */
  function KeptKeys<V(!new)>(m: map<int, V>, ks: seq<int>, keep: V -> bool): set<int> {
    set k | k in ks && k in m && keep(m[k])
  }

  lemma WhereStep<T(!new)>(xs: seq<T>, keep: T -> bool)
    requires xs != []
    ensures |Where(xs, keep)| == |Where(xs[1..], keep)| + (if keep(xs[0]) then 1 else 0)
  {
  }

  lemma KeptKeysStep<V(!new)>(m: map<int, V>, ks: seq<int>, keep: V -> bool)
    requires ks != [] && ks[0] in m && ks[0] !in ks[1..]
    ensures |KeptKeys(m, ks, keep)| == |KeptKeys(m, ks[1..], keep)| + (if keep(m[ks[0]]) then 1 else 0)
  {
    var k0, rest := ks[0], ks[1..];
    var all, later := KeptKeys(m, ks, keep), KeptKeys(m, rest, keep);
    assert ks == [k0] + rest;
    if keep(m[k0]) {
      assert all == later + {k0} by {
        forall k ensures k in all <==> k in later + {k0} {
          assert k in ks <==> k == k0 || k in rest;
        }
      }
    } else {
      assert all == later by {
        forall k ensures k in all <==> k in later {
          assert k in ks <==> k == k0 || k in rest;
        }
      }
    }
  }

  /** The number of kept rows is the number of keys whose row is kept. */
  lemma {:induction false} CountWhereAt<V(!new)>(m: map<int, V>, ks: seq<int>, keep: V -> bool)
    requires forall i :: 0 <= i < |ks| ==> ks[i] in m
    requires StrictlyIncreasing(ks)
    ensures |Where(RowsAt(m, ks), keep)| == |KeptKeys(m, ks, keep)|
  {
    if ks != [] {
      var rest := ks[1..];
      CountWhereAt(m, rest, keep);
      var rows := RowsAt(m, ks);
      assert rows[1..] == RowsAt(m, rest);
      WhereStep(rows, keep);
      assert ks[0] !in rest by {
        forall j | 0 <= j < |rest| ensures rest[j] != ks[0] {
          assert rest[j] == ks[j + 1];
        }
      }
      KeptKeysStep(m, ks, keep);
    }
  }

  /** The keys of the rows of `m` that `keep` accepts. */
  function KeysWhere<V(!new)>(m: map<int, V>, keep: V -> bool): (ks: set<int>)
    ensures forall k :: k in ks <==> k in m && keep(m[k])
  {
    set k | k in m && keep(m[k])
  }

  /** `COUNT(*)` over a WHERE clause equals the number of table rows it keeps. */
  lemma CountWhere<V(!new)>(m: map<int, V>, keep: V -> bool)
    ensures |Where(Rows(m), keep)| == |KeysWhere(m, keep)|
  {
    var ks := SortedKeys(m.Keys);
    CountWhereAt(m, ks, keep);
    assert KeptKeys(m, ks, keep) == KeysWhere(m, keep);
  }
}
