/**
 * The ascending order in which a TreeSet of addresses is iterated, and
 * counting along it.
 */
module SortedKeys {

  import opened Codec

  predicate Increasing(xs: seq<int64>) {
    forall i, j :: 0 <= i < j < |xs| ==> xs[i] < xs[j]
  }

  function Elems(xs: seq<int64>): set<int64> {
    set x | x in xs
  }

  lemma {:induction false} MinimumExists(s: set<int64>)
    requires s != {}
    ensures exists m :: m in s && forall y :: y in s ==> m <= y
  {
    var x :| x in s;
    var below := set y | y in s && y < x;
    if below == {} {
      forall y | y in s ensures x <= y {
        assert y < x ==> y in below;
      }
    } else {
      assert x !in below;
      MinimumExists(below);
      var m :| m in below && forall y :: y in below ==> m <= y;
      forall y | y in s ensures m <= y {
        if y < x {
          assert y in below;
        }
      }
    }
  }

  /** The least element of a non-empty set. */
  function Least(s: set<int64>): (m: int64)
    requires s != {}
    ensures m in s && forall y :: y in s ==> m <= y
  {
    MinimumExists(s);
    var m :| m in s && forall y :: y in s ==> m <= y;
    m
  }

  /** new TreeSet<>(keys) as iterated: the keys, each once, in ascending order. */
  function SortedAddresses(keys: set<int64>): (xs: seq<int64>)
    ensures Increasing(xs) && Elems(xs) == keys
    decreases |keys|
  {
    if keys == {} then []
    else
      var m := Least(keys);
      var tail := SortedAddresses(keys - {m});
      ConsLeast(m, tail, keys);
      [m] + tail
  }

  /** Putting the least key before the ascending rest keeps the order. */
  lemma ConsLeast(m: int64, tail: seq<int64>, keys: set<int64>)
    requires m in keys && forall y :: y in keys ==> m <= y
    requires Increasing(tail) && Elems(tail) == keys - {m}
    ensures Increasing([m] + tail) && Elems([m] + tail) == keys
  {
    var xs := [m] + tail;
    assert Elems(xs) == {m} + Elems(tail);
    forall i, j | 0 <= i < j < |xs| ensures xs[i] < xs[j] {
      assert xs[j] == tail[j - 1] && tail[j - 1] in Elems(tail);
      if i > 0 {
        assert xs[i] == tail[i - 1];
      }
    }
  }

  /** How many elements of xs lie in t. */
  function CountIn(xs: seq<int64>, t: set<int64>): nat {
    if xs == [] then 0 else CountIn(xs[..|xs| - 1], t) + (if xs[|xs| - 1] in t then 1 else 0)
  }

  /** Counting one element further along xs. */
  lemma CountInStep(xs: seq<int64>, i: nat, t: set<int64>)
    requires i < |xs|
    ensures CountIn(xs[..i + 1], t) == CountIn(xs[..i], t) + (if xs[i] in t then 1 else 0)
  {
    assert xs[..i + 1][..i] == xs[..i];
  }

  /** Splitting an ascending sequence before its last element. */
  lemma SplitLast(xs: seq<int64>)
    requires Increasing(xs) && xs != []
    ensures Increasing(xs[..|xs| - 1])
    ensures xs[|xs| - 1] !in Elems(xs[..|xs| - 1])
    ensures Elems(xs) == Elems(xs[..|xs| - 1]) + {xs[|xs| - 1]}
  {
    var init, last := xs[..|xs| - 1], xs[|xs| - 1];
    forall k | 0 <= k < |init| ensures init[k] != last {
      assert init[k] == xs[k];
    }
    assert xs == init + [last];
  }

  /** Counting along a sequence without repeats counts a set. */
  lemma {:induction false} CountInIsCardinality(xs: seq<int64>, t: set<int64>)
    requires Increasing(xs)
    ensures CountIn(xs, t) == |Elems(xs) * t|
  {
    if xs != [] {
      var init, last := xs[..|xs| - 1], xs[|xs| - 1];
      SplitLast(xs);
      CountInIsCardinality(init, t);
      CardinalityStep(Elems(init), Elems(xs), last, t);
    }
  }

  /** Adding a new element to a set adds one to its part in t exactly when the element is in t. */
  lemma CardinalityStep(a: set<int64>, b: set<int64>, x: int64, t: set<int64>)
    requires x !in a && b == a + {x}
    ensures |b * t| == |a * t| + (if x in t then 1 else 0)
  {
    if x in t {
      assert b * t == a * t + {x};
    } else {
      assert b * t == a * t;
    }
  }

  /** Counting along an ascending listing of a set's superset counts the set. */
  lemma CountAll(xs: seq<int64>, t: set<int64>)
    requires Increasing(xs) && t <= Elems(xs)
    ensures CountIn(xs, t) == |t|
  {
    CountInIsCardinality(xs, t);
    assert xs[..|xs|] == xs;
    assert Elems(xs) * t == t;
  }
}
