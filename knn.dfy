/** The classifier's decision rule: the neighbours the k-d tree search returns are
    counted by label, and the query is called habitable when any of them is. */
module Knn {
  import opened KdTree

  /** The label that counts as habitable. */
  const HABITABLE: string := "Habitable"

  /** The number of points whose label is exactly `HABITABLE`. */
  function HabitableCount(s: seq<Point>): nat {
    if s == [] then 0
    else (if s[0].tag == HABITABLE then 1 else 0) + HabitableCount(s[1..])
  }

  /** The decision on a list of neighbours: 1 when one is habitable, 0 otherwise. */
  function Decide(neighbors: seq<Point>): int {
    if HabitableCount(neighbors) > 0 then 1 else 0
  }

  /** The count is positive exactly when some point carries the habitable label. */
  lemma {:induction false} HabitableCountPositive(s: seq<Point>)
    ensures HabitableCount(s) > 0 <==> exists i :: 0 <= i < |s| && s[i].tag == HABITABLE
  {
    if s != [] {
      var tail := s[1..];
      HabitableCountPositive(tail);
      if HabitableCount(tail) > 0 {
        var i :| 0 <= i < |tail| && tail[i].tag == HABITABLE;
        assert s[i + 1] == tail[i];
      }
      if exists i :: 0 <= i < |s| && s[i].tag == HABITABLE {
        var i :| 0 <= i < |s| && s[i].tag == HABITABLE;
        if i > 0 { assert tail[i - 1] == s[i]; }
      }
    }
  }

  /** Counting splits over concatenation. */
  lemma {:induction false} HabitableCountAppend(a: seq<Point>, b: seq<Point>)
    ensures HabitableCount(a + b) == HabitableCount(a) + HabitableCount(b)
  {
    if a == [] {
      assert a + b == b;
    } else {
      assert (a + b)[1..] == a[1..] + b;
      HabitableCountAppend(a[1..], b);
    }
  }

  /** A single point counts one when habitable. */
  lemma HabitableCountOne(p: Point)
    ensures HabitableCount([p]) == if p.tag == HABITABLE then 1 else 0
  {
    assert [p][1..] == [];
  }

  /** A sequence is what lies before position `i`, the element there, and what follows. */
  lemma SplitAt<T>(s: seq<T>, i: nat)
    requires i < |s|
    ensures s == s[..i] + [s[i]] + s[i + 1..]
  {
  }

  /** Taking out the point at `i` takes out its share of the count. */
  lemma HabitableCountRemove(b: seq<Point>, i: nat)
    requires i < |b|
    ensures HabitableCount(b)
         == HabitableCount(b[..i] + b[i + 1..]) + (if b[i].tag == HABITABLE then 1 else 0)
  {
    var before, at, after := b[..i], [b[i]], b[i + 1..];
    SplitAt(b, i);
    HabitableCountAppend(before + at, after);
    HabitableCountAppend(before, at);
    HabitableCountAppend(before, after);
    HabitableCountOne(b[i]);
  }

  /** Equal multisets stay equal when the first point of one is taken out of the other. */
  lemma RemoveMatching(a: seq<Point>, b: seq<Point>, i: nat)
    requires a != [] && i < |b| && b[i] == a[0] && multiset(a) == multiset(b)
    ensures multiset(a[1..]) == multiset(b[..i] + b[i + 1..])
  {
    var x := b[i];
    assert a == [x] + a[1..];
    assert b == b[..i] + [x] + b[i + 1..];
    calc {
      multiset(a[1..]);
      multiset(a) - multiset{x};
      multiset(b) - multiset{x};
      multiset(b[..i] + b[i + 1..]);
    }
  }

  /** The count does not depend on the order of the neighbours. */
  lemma {:induction false} HabitableCountPermutation(a: seq<Point>, b: seq<Point>)
    requires multiset(a) == multiset(b)
    ensures HabitableCount(a) == HabitableCount(b)
    decreases |a|
  {
    if a != [] {
      var x := a[0];
      assert x in multiset(b);
      var i :| 0 <= i < |b| && b[i] == x;
      RemoveMatching(a, b, i);
      HabitableCountPermutation(a[1..], b[..i] + b[i + 1..]);
      HabitableCountRemove(b, i);
    }
  }

  /** The decision is 0 or 1, it is 1 exactly when some neighbour is habitable (one is
      enough, whatever the others are: no majority is taken), it is 0 for no neighbours,
      and it does not depend on their order. */
  lemma DecideProperties(a: seq<Point>, b: seq<Point>)
    requires multiset(a) == multiset(b)
    ensures Decide(a) == 0 || Decide(a) == 1
    ensures Decide(a) == 1 <==> exists i :: 0 <= i < |a| && a[i].tag == HABITABLE
    ensures Decide([]) == 0
    ensures Decide(a) == Decide(b)
  {
    HabitableCountPositive(a);
    HabitableCountPermutation(a, b);
  }

  /** One habitable neighbour among any number of others decides 1. */
  lemma AnyMatch(others: seq<Point>, p: Point)
    requires p.tag == HABITABLE
    ensures Decide(others + [p]) == 1 && Decide([p] + others) == 1
  {
    HabitableCountAppend(others, [p]);
    HabitableCountAppend([p], others);
    HabitableCountOne(p);
  }

  /** The conversion of an `int` to `size_t`: the unique value below 2^64 that is
      congruent to `k` modulo 2^64, so a negative value wraps. */
  function SizeT(k: int): (r: nat)
    requires -0x8000_0000 <= k < 0x8000_0000
    ensures r < 0x1_0000_0000_0000_0000
    ensures r == k % 0x1_0000_0000_0000_0000
  {
    if k < 0 then k + 0x1_0000_0000_0000_0000 else k
  }

  /** `KNN`: the number of neighbours, a threshold (which nothing reads) and the tree. */
  class KNN {
    var k: int
    var splitThreshold: real
    var tree: KDTree

    /** The constructor: the tree starts empty with the default threshold. */
    constructor (neighbors: int, threshold: real)
      requires -0x8000_0000 <= neighbors < 0x8000_0000
      ensures k == neighbors && splitThreshold == threshold
      ensures fresh(tree) && tree.root == Nil && tree.splitThreshold == 0.1
    {
      k := neighbors;
      splitThreshold := threshold;
      tree := new KDTree();
    }

    /** `predict`: the neighbours the tree's search returns are counted by label, and the
        answer is 1 when any is habitable. On a tree built by `build`, which holds no
        leaves, there are no neighbours and the answer is 0. */
    method Predict(query: Point, dist: (Point, Point) -> real) returns (prediction: int)
      requires -0x8000_0000 <= k < 0x8000_0000
      requires Fits(tree.root, |query.features|) && (tree.root.Inter? ==> SizeT(k) > 0)
      ensures var neighbors := Search(tree.root, query, SizeT(k), [], dist);
        prediction == Decide(neighbors)
        && (prediction == 1 <==> exists i :: 0 <= i < |neighbors| && neighbors[i].tag == HABITABLE)
        && (prediction == 0 || prediction == 1)
      ensures NoLeaves(tree.root) ==> prediction == 0
    {
      var neighbors := tree.Knn(query, SizeT(k), dist);
      var habitableCount := 0;
      var i := 0;
      while i < |neighbors|
        invariant 0 <= i <= |neighbors|
        invariant habitableCount == HabitableCount(neighbors[..i])
      {
        assert neighbors[..i + 1] == neighbors[..i] + [neighbors[i]];
        HabitableCountAppend(neighbors[..i], [neighbors[i]]);
        HabitableCountOne(neighbors[i]);
        if neighbors[i].tag == HABITABLE {
          habitableCount := habitableCount + 1;
        }
        i := i + 1;
      }
      assert neighbors[..i] == neighbors;
      HabitableCountPositive(neighbors);
      if habitableCount > 0 {
        prediction := 1;
      } else {
        prediction := 0;
      }
    }
  }
}
