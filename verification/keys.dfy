/**
 * Enumerating a store. A repository's findAll returns the rows of a
 * table; here a table is a map keyed by id, and its rows are listed in
 * ascending id order.
 */
module Keys {

  predicate Increasing(xs: seq<int>) {
    forall i, j :: 0 <= i < j < |xs| ==> xs[i] < xs[j]
  }

  lemma {:induction false} LeastExists(s: set<int>)
    requires s != {}
    ensures exists m :: m in s && forall x :: x in s ==> m <= x
    decreases s
  {
    assert exists y :: y in s by {
      if forall y :: y !in s {
        assert false;
      }
    }
    var y :| y in s;
    if s != {y} {
      LeastExists(s - {y});
      var m :| m in s - {y} && forall x :: x in s - {y} ==> m <= x;
      var least := if y < m then y else m;
      forall x | x in s ensures least <= x {
        if x != y {
          assert x in s - {y};
        }
      }
      assert least in s;
    } else {
      assert forall x :: x in s ==> y <= x;
    }
  }

  /** The smallest id of a non-empty set of ids. */
  function Least(s: set<int>): (m: int)
    requires s != {}
    ensures m in s && forall x :: x in s ==> m <= x
  {
    LeastExists(s);
    var m :| m in s && forall x :: x in s ==> m <= x;
    m
  }

  /** The ids of s in ascending order, each exactly once. */
  function SortedKeys(s: set<int>): (r: seq<int>)
    ensures Increasing(r)
    ensures forall x :: x in r <==> x in s
    ensures |r| == |s|
    decreases s
  {
    if s == {} then []
    else
      var m := Least(s);
      [m] + SortedKeys(s - {m})
  }

  /** The elements of xs that satisfy p, in their original order. */
  function Filter(xs: seq<int>, p: int -> bool): (r: seq<int>)
    ensures forall x :: x in r ==> x in xs && p(x)
    ensures forall x :: x in xs && p(x) ==> x in r
    ensures Increasing(xs) ==> Increasing(r)
    ensures |r| <= |xs|
  {
    if xs == [] then []
    else
      var rest := Filter(xs[1..], p);
      HeadBelowRest(xs, rest);
      if p(xs[0]) then [xs[0]] + rest else rest
  }

  /** In an increasing list the head is below everything drawn from the tail. */
  lemma HeadBelowRest(xs: seq<int>, rest: seq<int>)
    requires xs != []
    requires forall x :: x in rest ==> x in xs[1..]
    ensures Increasing(xs) ==> forall k :: 0 <= k < |rest| ==> xs[0] < rest[k]
  {
    if Increasing(xs) {
      forall k | 0 <= k < |rest| ensures xs[0] < rest[k] {
        assert rest[k] in rest;
        var j :| 0 <= j < |xs[1..]| && xs[1..][j] == rest[k];
        assert xs[0] < xs[j + 1];
      }
    }
  }

  /** A repeat-free list has as many elements as the set of its elements. */
  lemma {:induction false} IncreasingCard(xs: seq<int>)
    requires Increasing(xs)
    ensures |set x | x in xs| == |xs|
  {
    if xs != [] {
      IncreasingCard(xs[1..]);
      assert (set x | x in xs) == {xs[0]} + (set x | x in xs[1..]);
      assert xs[0] !in (set x | x in xs[1..]);
    }
  }

  /** No id occurs twice. */
  predicate Distinct(xs: seq<int>) {
    forall i, j :: 0 <= i < j < |xs| ==> xs[i] != xs[j]
  }

  /** An ascending list has no repeats. */
  lemma IncreasingDistinct(xs: seq<int>)
    requires Increasing(xs)
    ensures Distinct(xs)
  {
  }

  /** A repeat-free list is as long as the set of its elements is large. */
  lemma {:induction false} DistinctCard(xs: seq<int>)
    requires Distinct(xs)
    ensures |set x | x in xs| == |xs|
  {
    if xs != [] {
      assert Distinct(xs[1..]) by {
        forall i, j | 0 <= i < j < |xs[1..]| ensures xs[1..][i] != xs[1..][j] {
          assert xs[1..][i] == xs[i + 1] && xs[1..][j] == xs[j + 1];
        }
      }
      DistinctCard(xs[1..]);
      assert (set x | x in xs) == {xs[0]} + (set x | x in xs[1..]);
      assert xs[0] !in (set x | x in xs[1..]);
    }
  }

  /** A set has a positive size exactly when it has an element. */
  lemma NonEmptyIffMember(s: set<int>)
    ensures |s| > 0 <==> exists x :: x in s
  {
    if |s| > 0 {
      var m := Least(s);
    }
  }

  /** A subset is no larger than its superset. */
  lemma SubsetCard(a: set<int>, b: set<int>)
    requires a <= b
    ensures |a| <= |b|
  {
    assert b == a + (b - a);
    assert a * (b - a) == {};
  }

  /** A repeat-free listing of a set is as long as the set is large. */
  lemma ListingCard(xs: seq<int>, s: set<int>)
    requires Increasing(xs)
    requires forall x :: x in xs <==> x in s
    ensures |xs| == |s|
  {
    IncreasingCard(xs);
    assert (set x | x in xs) == s;
  }

  /** A filter every element passes returns its input. */
  lemma {:induction false} FilterKeepsAll(xs: seq<int>, p: int -> bool)
    requires forall x :: x in xs ==> p(x)
    ensures Filter(xs, p) == xs
  {
    if xs != [] {
      var h := xs[0];
      assert h in xs;
      assert p(h);
      assert forall x :: x in xs[1..] ==> x in xs;
      FilterKeepsAll(xs[1..], p);
      assert Filter(xs, p) == [xs[0]] + Filter(xs[1..], p);
      assert xs == [xs[0]] + xs[1..];
    }
  }

  /** Filters that agree on every element give the same list. */
  lemma {:induction false} FilterExtensional(xs: seq<int>, p: int -> bool, q: int -> bool)
    requires forall x :: x in xs ==> p(x) == q(x)
    ensures Filter(xs, p) == Filter(xs, q)
  {
    if xs != [] {
      var h := xs[0];
      assert h in xs;
      assert p(h) == q(h);
      assert forall x :: x in xs[1..] ==> x in xs;
      FilterExtensional(xs[1..], p, q);
      if p(xs[0]) {
        assert Filter(xs, p) == [xs[0]] + Filter(xs[1..], p);
        assert Filter(xs, q) == [xs[0]] + Filter(xs[1..], q);
      } else {
        assert Filter(xs, p) == Filter(xs[1..], p);
        assert Filter(xs, q) == Filter(xs[1..], q);
      }
    }
  }
}
