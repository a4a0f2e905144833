/** The k-d tree of the classifier: points with real-valued features, the recursive
    median split that builds the tree, and the nearest-neighbour search that walks it.
    The distance between points is a parameter of the search. */
module KdTree {

  /** A point: its features and its (optional) label, here `tag` since `label` is a
      keyword. */
  datatype Point = Point(features: seq<real>, tag: string)

  /** A tree node: none, an internal node splitting on one dimension at one value, or a
      leaf holding points. */
  datatype KdNode =
    | Nil
    | Inter(dim: nat, split: real, left: KdNode, right: KdNode)
    | Leaf(points: seq<Point>)

  /** The value of dimension `dim` of a point; zero past its last feature (the callers
      rule that case out). */
  function Coord(p: Point, dim: nat): real {
    if dim < |p.features| then p.features[dim] else 0.0
  }

  // ---------------------------------------------------------------- nth_element

  /** A position of a smallest value of dimension `dim` from `from` on. */
  method MinIndex(a: array<Point>, from: nat, dim: nat) returns (j: nat)
    requires from < a.Length
    ensures from <= j < a.Length
    ensures forall i :: from <= i < a.Length ==> Coord(a[j], dim) <= Coord(a[i], dim)
  {
    j := from;
    var i := from + 1;
    while i < a.Length
      invariant from <= j < i <= a.Length
      invariant forall q :: from <= q < i ==> Coord(a[j], dim) <= Coord(a[q], dim)
    {
      if Coord(a[i], dim) < Coord(a[j], dim) {
        j := i;
      }
      i := i + 1;
    }
  }

  /** The first `i` positions hold values of dimension `dim` no larger than any later one. */
  predicate Placed(s: seq<Point>, i: nat, dim: nat) {
    forall x, y :: 0 <= x < i && x < y < |s| ==> Coord(s[x], dim) <= Coord(s[y], dim)
  }

  /** Swapping a smallest remaining value into position `i` places one more. */
  lemma PlacedSwap(s: seq<Point>, i: nat, j: nat, dim: nat)
    requires i <= j < |s| && Placed(s, i, dim)
    requires forall q :: i <= q < |s| ==> Coord(s[j], dim) <= Coord(s[q], dim)
    ensures Placed(s[i := s[j]][j := s[i]], i + 1, dim)
    ensures multiset(s[i := s[j]][j := s[i]]) == multiset(s)
  {
    var t := s[i := s[j]][j := s[i]];
    forall x, y | 0 <= x < i + 1 && x < y < |t| ensures Coord(t[x], dim) <= Coord(t[y], dim) {
      if x < i {
        assert t[x] == s[x];
        assert t[y] == s[y] || t[y] == s[i] || t[y] == s[j];
      }
    }
  }

  /** `std::nth_element` on dimension `dim`: the points are permuted so that the one at
      `nth` is where a full sort would put it, none before it is larger and none after
      it is smaller. */
  method NthElement(a: array<Point>, nth: nat, dim: nat)
    requires nth < a.Length
    modifies a
    ensures multiset(a[..]) == multiset(old(a[..]))
    ensures forall i :: 0 <= i < nth ==> Coord(a[i], dim) <= Coord(a[nth], dim)
    ensures forall i :: nth < i < a.Length ==> Coord(a[nth], dim) <= Coord(a[i], dim)
  {
    var i := 0;
    while i <= nth
      invariant 0 <= i <= nth + 1
      invariant multiset(a[..]) == multiset(old(a[..]))
      invariant Placed(a[..], i, dim)
    {
      var j := MinIndex(a, i, dim);
      PlacedSwap(a[..], i, j, dim);
      a[i], a[j] := a[j], a[i];
      i := i + 1;
    }
    assert forall x :: 0 <= x < a.Length ==> a[..][x] == a[x];
  }

  // ---------------------------------------------------------------- the tree's shape

  /** The number of features of the first point (the dimension of the data). */
  function Width(s: seq<Point>): nat {
    if s == [] then 0 else |s[0].features|
  }

  /** All points have the same, positive, number of features. */
  predicate Uniform(s: seq<Point>) {
    forall i :: 0 <= i < |s| ==> |s[i].features| == Width(s) > 0
  }

  /** The number of nodes. */
  function Count(n: KdNode): nat {
    match n
    case Nil => 0
    case Inter(_, _, l, r) => 1 + Count(l) + Count(r)
    case Leaf(_) => 1
  }

  /** The tree holds internal nodes only. */
  predicate NoLeaves(n: KdNode) {
    match n
    case Nil => true
    case Inter(_, _, l, r) => NoLeaves(l) && NoLeaves(r)
    case Leaf(_) => false
  }

  /** A node `k` levels below depth `depth` splits on dimension `(depth + k) % d`. */
  predicate DimsFrom(n: KdNode, depth: nat, d: nat) {
    match n
    case Nil => true
    case Inter(dim, _, l, r) => d > 0 && dim == depth % d && DimsFrom(l, depth + 1, d) && DimsFrom(r, depth + 1, d)
    case Leaf(_) => true
  }

  /** Every point has a value of at most `v` in dimension `c`. */
  predicate PointsAtMost(s: seq<Point>, c: nat, v: real) {
    forall i :: 0 <= i < |s| ==> Coord(s[i], c) <= v
  }

  /** Every point has a value of at least `v` in dimension `c`. */
  predicate PointsAtLeast(s: seq<Point>, c: nat, v: real) {
    forall i :: 0 <= i < |s| ==> v <= Coord(s[i], c)
  }

  /** Every node that splits on dimension `c` splits at most at `v` (and every leaf point
      is at most `v` there). */
  predicate AtMost(n: KdNode, c: nat, v: real) {
    match n
    case Nil => true
    case Inter(dim, sp, l, r) => (dim == c ==> sp <= v) && AtMost(l, c, v) && AtMost(r, c, v)
    case Leaf(ps) => PointsAtMost(ps, c, v)
  }

  /** Every node that splits on dimension `c` splits at least at `v`. */
  predicate AtLeast(n: KdNode, c: nat, v: real) {
    match n
    case Nil => true
    case Inter(dim, sp, l, r) => (dim == c ==> v <= sp) && AtLeast(l, c, v) && AtLeast(r, c, v)
    case Leaf(ps) => PointsAtLeast(ps, c, v)
  }

  /** The k-d ordering: below a node, what lies left is at most its split value in its
      dimension and what lies right is at least that. */
  predicate KdOrdered(n: KdNode) {
    match n
    case Inter(dim, sp, l, r) => AtMost(l, dim, sp) && AtLeast(r, dim, sp) && KdOrdered(l) && KdOrdered(r)
    case _ => true
  }

  /** A permutation of uniform points is uniform, with the same width. */
  lemma UniformPermuted(s: seq<Point>, t: seq<Point>)
    requires multiset(s) == multiset(t) && Uniform(s) && s != []
    ensures t != [] && Uniform(t) && Width(t) == Width(s)
  {
    assert |t| == |multiset(t)| == |multiset(s)| == |s|;
    assert s[0] in multiset(s);
    forall i | 0 <= i < |t| ensures |t[i].features| == Width(s) {
      assert t[i] in multiset(t);
    }
  }

  /** A slice of uniform points is uniform with the same width, when not empty. */
  lemma UniformSlice(s: seq<Point>, i: nat, j: nat)
    requires Uniform(s) && i <= j <= |s|
    ensures Uniform(s[i..j]) && (i < j ==> Width(s[i..j]) == Width(s))
  {
    if i < j {
      forall x | 0 <= x < j - i ensures |s[i..j][x].features| == Width(s) { assert s[i..j][x] == s[i + x]; }
    }
  }

  /** Bounds on all points hold for any permutation of them. */
  lemma BoundsPermuted(s: seq<Point>, t: seq<Point>, c: nat, v: real)
    requires multiset(s) == multiset(t)
    ensures PointsAtMost(s, c, v) ==> PointsAtMost(t, c, v)
    ensures PointsAtLeast(s, c, v) ==> PointsAtLeast(t, c, v)
  {
    forall i | 0 <= i < |t| ensures t[i] in s {
      assert t[i] in multiset(t);
    }
  }

  // ---------------------------------------------------------------- build

  /** The first half of `buildRecursive`'s step: `std::nth_element` around the median
      position `n/2` on dimension `dim`, then copies of the points before and after it. */
  method SplitAtMedian(points: array<Point>, dim: nat) returns (leftPoints: array<Point>, rightPoints: array<Point>)
    requires points.Length > 0
    modifies points
    ensures fresh(leftPoints) && fresh(rightPoints) && leftPoints != rightPoints
    ensures multiset(points[..]) == multiset(old(points[..]))
    ensures var m := points.Length / 2;
      leftPoints[..] == points[..m] && rightPoints[..] == points[m + 1..]
      && (forall i :: 0 <= i < m ==> Coord(points[i], dim) <= Coord(points[m], dim))
      && (forall i :: m < i < points.Length ==> Coord(points[m], dim) <= Coord(points[i], dim))
      && PointsAtMost(leftPoints[..], dim, Coord(points[m], dim))
      && PointsAtLeast(rightPoints[..], dim, Coord(points[m], dim))
  {
    var medianIndex := points.Length / 2;
    NthElement(points, medianIndex, dim);
    ghost var snapshot := points[..];
    leftPoints := new Point[medianIndex](i requires 0 <= i < medianIndex reads points => points[i]);
    rightPoints := new Point[points.Length - medianIndex - 1](
      i requires 0 <= i < points.Length - medianIndex - 1 reads points => points[medianIndex + 1 + i]);
    ghost var lo, hi := snapshot[..medianIndex], snapshot[medianIndex + 1..];
    assert leftPoints[..] == lo && rightPoints[..] == hi;
    var split := Coord(points[medianIndex], dim);
    assert PointsAtMost(lo, dim, split) by {
      forall i | 0 <= i < |lo| ensures Coord(lo[i], dim) <= split { assert lo[i] == snapshot[i]; }
    }
    assert PointsAtLeast(hi, dim, split) by {
      forall i | 0 <= i < |hi| ensures split <= Coord(hi[i], dim) { assert hi[i] == snapshot[medianIndex + 1 + i]; }
    }
  }

  /** What a tree built from the points `s` (at depth `depth`) is: a node per point,
      internal nodes only, split dimensions cycling from `depth`, the k-d ordering, and
      every bound the points share carried over to the split values. */
  ghost predicate Built(n: KdNode, s: seq<Point>, depth: nat) {
    NoLeaves(n) && Count(n) == |s| && KdOrdered(n) && DimsFrom(n, depth, Width(s))
    && (forall c, v :: PointsAtMost(s, c, v) ==> AtMost(n, c, v))
    && (forall c, v :: PointsAtLeast(s, c, v) ==> AtLeast(n, c, v))
  }

  /** The step of `buildRecursive`: with `t` a permutation of `s` partly ordered around
      its median position and both halves built one level deeper, the internal node at
      the median's value is a tree built from `s`. */
  lemma BuiltInter(s: seq<Point>, t: seq<Point>, depth: nat, left: KdNode, right: KdNode)
    requires Uniform(s) && s != [] && multiset(s) == multiset(t)
    requires var m, dim := |t| / 2, depth % Width(s);
      PointsAtMost(t[..m], dim, Coord(t[m], dim)) && PointsAtLeast(t[m + 1..], dim, Coord(t[m], dim))
      && Built(left, t[..m], depth + 1) && Built(right, t[m + 1..], depth + 1)
    ensures Built(Inter(depth % Width(s), Coord(t[|t| / 2], depth % Width(s)), left, right), s, depth)
  {
    var m, dim := |t| / 2, depth % Width(s);
    var split := Coord(t[m], dim);
    var node := Inter(dim, split, left, right);
    UniformPermuted(s, t);
    UniformSlice(t, 0, m);
    UniformSlice(t, m + 1, |t|);
    assert t[m + 1..] == t[m + 1..|t|];
    assert |t| == |s| by { assert |multiset(t)| == |multiset(s)|; }
    assert KdOrdered(node);
    assert DimsFrom(left, depth + 1, Width(s)) by {
      if t[..m] == [] { assert Count(left) == 0; }
    }
    assert DimsFrom(right, depth + 1, Width(s)) by {
      if t[m + 1..] == [] { assert Count(right) == 0; }
    }
    var lo, hi := t[..m], t[m + 1..];
    forall c, v | PointsAtMost(s, c, v) ensures AtMost(node, c, v) {
      BoundsPermuted(s, t, c, v);
      assert PointsAtMost(lo, c, v) by {
        forall i | 0 <= i < |lo| ensures Coord(lo[i], c) <= v { assert lo[i] == t[i]; }
      }
      assert PointsAtMost(hi, c, v) by {
        forall i | 0 <= i < |hi| ensures Coord(hi[i], c) <= v { assert hi[i] == t[m + 1 + i]; }
      }
    }
    forall c, v | PointsAtLeast(s, c, v) ensures AtLeast(node, c, v) {
      BoundsPermuted(s, t, c, v);
      assert PointsAtLeast(lo, c, v) by {
        forall i | 0 <= i < |lo| ensures v <= Coord(lo[i], c) { assert lo[i] == t[i]; }
      }
      assert PointsAtLeast(hi, c, v) by {
        forall i | 0 <= i < |hi| ensures v <= Coord(hi[i], c) { assert hi[i] == t[m + 1 + i]; }
      }
    }
  }

  /** `buildRecursive`: no points give no node; otherwise the points are partly ordered
      around the median position `n/2` on dimension `depth % d`, an internal node splits
      at the median's value, and the points before and after it are copied and built one
      level deeper. */
  method BuildRecursive(points: array<Point>, depth: nat) returns (node: KdNode)
    requires Uniform(points[..])
    modifies points
    decreases points.Length
    ensures multiset(points[..]) == multiset(old(points[..]))
    ensures node == Nil <==> points.Length == 0
    ensures Built(node, old(points[..]), depth)
    ensures node.Inter? ==>
      node.split == Coord(points[points.Length / 2], node.dim) && Count(node.left) == points.Length / 2
    ensures node.Inter? ==>
      (forall i :: 0 <= i < points.Length / 2 ==> Coord(points[i], node.dim) <= node.split)
      && (forall i :: points.Length / 2 < i < points.Length ==> node.split <= Coord(points[i], node.dim))
  {
    if points.Length == 0 {
      return Nil;
    }
    ghost var original := points[..];
    var dim := depth % |points[0].features|;
    var medianIndex := points.Length / 2;
    var leftPoints, rightPoints := SplitAtMedian(points, dim);
    ghost var snapshot := points[..];
    UniformPermuted(original, snapshot);
    var split := points[medianIndex].features[dim];
    assert split == Coord(snapshot[medianIndex], dim);
    UniformSlice(snapshot, 0, medianIndex);
    UniformSlice(snapshot, medianIndex + 1, |snapshot|);
    assert rightPoints[..] == snapshot[medianIndex + 1..|snapshot|];
    var left := BuildRecursive(leftPoints, depth + 1);
    var right := BuildRecursive(rightPoints, depth + 1);
    assert points[..] == snapshot;
    BuiltInter(original, snapshot, depth, left, right);
    node := Inter(dim, split, left, right);
  }


  // ---------------------------------------------------------------- nearest neighbours

  /** The last feature of a point: where the search stores a neighbour's distance. */
  function LastFeature(p: Point): real {
    if p.features == [] then 0.0 else p.features[|p.features| - 1]
  }

  /** A point with its distance to the query appended to its features. */
  function Tag(q: Point, p: Point, dist: (Point, Point) -> real): (t: Point)
    ensures t.tag == p.tag && |t.features| == |p.features| + 1
    ensures t.features[..|p.features|] == p.features && LastFeature(t) == dist(q, p)
  {
    p.(features := p.features + [dist(q, p)])
  }

  /** A leaf's points, each with its distance to the query appended. */
  function Tagged(q: Point, ps: seq<Point>, dist: (Point, Point) -> real): (r: seq<Point>)
    ensures |r| == |ps| && forall i :: 0 <= i < |ps| ==> r[i] == Tag(q, ps[i], dist)
  {
    seq(|ps|, i requires 0 <= i < |ps| => Tag(q, ps[i], dist))
  }

  /** Non-decreasing in the last feature. */
  predicate SortedByLast(s: seq<Point>) {
    forall i, j :: 0 <= i < j < |s| ==> LastFeature(s[i]) <= LastFeature(s[j])
  }

  /** Puts `x` before the first point with a larger last feature. */
  function InsertByLast(x: Point, s: seq<Point>): seq<Point> {
    if s == [] || LastFeature(x) <= LastFeature(s[0]) then [x] + s
    else [s[0]] + InsertByLast(x, s[1..])
  }

  /** `std::sort` by the last feature, as an insertion sort (the order of equal distances
      is not specified by the library; this one keeps them in input order). */
  function SortByLast(s: seq<Point>): seq<Point> {
    if s == [] then [] else InsertByLast(s[0], SortByLast(s[1..]))
  }

  /** Insertion keeps a lower bound that the point and the sequence share. */
  lemma {:induction false} InsertByLastBound(x: Point, s: seq<Point>, b: real)
    requires b <= LastFeature(x) && forall i :: 0 <= i < |s| ==> b <= LastFeature(s[i])
    ensures |InsertByLast(x, s)| == |s| + 1
    ensures forall i :: 0 <= i < |s| + 1 ==> b <= LastFeature(InsertByLast(x, s)[i])
  {
    if s != [] && LastFeature(s[0]) < LastFeature(x) {
      InsertByLastBound(x, s[1..], b);
    }
  }

  /** A point no larger than every point of a sorted sequence can go in front of it. */
  lemma SortedCons(a: Point, u: seq<Point>)
    requires SortedByLast(u) && forall i :: 0 <= i < |u| ==> LastFeature(a) <= LastFeature(u[i])
    ensures SortedByLast([a] + u)
  {
    var r := [a] + u;
    forall i, j | 0 <= i < j < |r| ensures LastFeature(r[i]) <= LastFeature(r[j]) {
      assert r[j] == u[j - 1];
      if i > 0 { assert r[i] == u[i - 1]; }
    }
  }

  /** The tail of a sorted sequence is sorted and bounded below by its head. */
  lemma SortedTail(s: seq<Point>)
    requires s != [] && SortedByLast(s)
    ensures SortedByLast(s[1..])
    ensures forall i :: 0 <= i < |s| - 1 ==> LastFeature(s[0]) <= LastFeature(s[1..][i])
  {
    var t := s[1..];
    forall i, j | 0 <= i < j < |t| ensures LastFeature(t[i]) <= LastFeature(t[j]) {
      assert t[i] == s[i + 1] && t[j] == s[j + 1];
    }
    forall i | 0 <= i < |t| ensures LastFeature(s[0]) <= LastFeature(t[i]) {
      assert t[i] == s[i + 1];
    }
  }

  /** Insertion adds the point and nothing else. */
  lemma {:induction false} InsertByLastPermutes(x: Point, s: seq<Point>)
    ensures multiset(InsertByLast(x, s)) == multiset(s) + multiset{x}
  {
    if s != [] && LastFeature(s[0]) < LastFeature(x) {
      InsertByLastPermutes(x, s[1..]);
      assert s == [s[0]] + s[1..];
    }
  }

  /** Insertion adds the point and keeps the order. */
  lemma {:induction false} InsertByLastProperties(x: Point, s: seq<Point>)
    requires SortedByLast(s)
    ensures var r := InsertByLast(x, s);
      SortedByLast(r) && multiset(r) == multiset(s) + multiset{x} && |r| == |s| + 1
  {
    InsertByLastPermutes(x, s);
    if s == [] || LastFeature(x) <= LastFeature(s[0]) {
      if s != [] { SortedTail(s); }
      SortedCons(x, s);
    } else {
      var t := s[1..];
      SortedTail(s);
      InsertByLastProperties(x, t);
      InsertByLastBound(x, t, LastFeature(s[0]));
      SortedCons(s[0], InsertByLast(x, t));
    }
  }

  /** The sort keeps every point. */
  lemma {:induction false} SortByLastPermutes(s: seq<Point>)
    ensures multiset(SortByLast(s)) == multiset(s)
  {
    if s != [] {
      SortByLastPermutes(s[1..]);
      InsertByLastPermutes(s[0], SortByLast(s[1..]));
      assert s == [s[0]] + s[1..];
    }
  }

  /** The sort puts the points in non-decreasing order of their last feature. */
  lemma {:induction false} SortByLastSorted(s: seq<Point>)
    ensures SortedByLast(SortByLast(s)) && |SortByLast(s)| == |s|
  {
    if s != [] {
      SortByLastSorted(s[1..]);
      InsertByLastProperties(s[0], SortByLast(s[1..]));
    }
  }

  /** The sort puts the points in non-decreasing order of their last feature and keeps
      every point. */
  lemma SortByLastProperties(s: seq<Point>)
    ensures var r := SortByLast(s);
      SortedByLast(r) && multiset(r) == multiset(s) && |r| == |s|
  {
    SortByLastPermutes(s);
    SortByLastSorted(s);
  }


  function Min(a: nat, b: nat): nat { if a < b then a else b }

  function Abs(x: real): real { if x < 0.0 then -x else x }

  /** Every internal node splits on a dimension the query has. */
  predicate Fits(n: KdNode, w: nat) {
    match n
    case Inter(dim, _, l, r) => dim < w && Fits(l, w) && Fits(r, w)
    case _ => true
  }

  /** The last neighbour, if any, carries a distance. */
  predicate LastTagged(nb: seq<Point>) {
    nb != [] ==> nb[|nb| - 1].features != []
  }

  /** Appends the first `min(k, |s|)` points of `s` to `nb`, one at a time. */
  function PushFirst(nb: seq<Point>, s: seq<Point>, k: nat): seq<Point>
    decreases k
  {
    if k == 0 || s == [] then nb else PushFirst(nb + [s[0]], s[1..], k - 1)
  }

  /** Pushing one at a time appends a prefix. */
  lemma {:induction false} PushFirstAppends(nb: seq<Point>, s: seq<Point>, k: nat)
    ensures PushFirst(nb, s, k) == nb + s[..Min(k, |s|)]
    decreases k
  {
    if k != 0 && s != [] {
      PushFirstAppends(nb + [s[0]], s[1..], k - 1);
      assert s[..Min(k, |s|)] == [s[0]] + s[1..][..Min(k - 1, |s| - 1)];
    }
  }

  /** The leaf case of `kNNRecursive`: the leaf's points with their distance to the query
      appended, sorted by it, and the first `min(k, |leaf|)` of them pushed. */
  function LeafSearch(ps: seq<Point>, q: Point, k: nat, nb: seq<Point>, dist: (Point, Point) -> real): (r: seq<Point>)
    requires LastTagged(nb)
    ensures |nb| <= |r| && r[..|nb|] == nb && LastTagged(r)
  {
    var sorted := SortByLast(Tagged(q, ps, dist));
    SortByLastProperties(Tagged(q, ps, dist));
    PushFirstAppends(nb, sorted, k);
    var r := nb + sorted[..Min(k, |sorted|)];
    assert r[..|nb|] == nb;
    assert r != [] && |r| > |nb| ==> r[|r| - 1] in multiset(sorted);
    PushFirst(nb, sorted, k)
  }

  /** Whether the search goes on to the far side of a split at distance `d`: fewer than
      `k` neighbours are known, or the plane is nearer than the last one. */
  predicate Beyond(nb: seq<Point>, k: nat, d: real)
    requires nb != [] || k > 0
  {
    |nb| < k || d < LastFeature(nb[|nb| - 1])
  }

  /** `kNNRecursive` on the neighbours gathered so far: a leaf appends its `k` (or fewer)
      points nearest the query, sorted, each with its distance appended; an internal node
      searches the side of the split the query lies on, then the other side only when
      fewer than `k` neighbours are known or the split plane is nearer than the distance
      of the last neighbour appended. Reading that neighbour is undefined when there is
      none (`k` is 0 and nothing has been gathered), so that case is excluded. */
  function Search(n: KdNode, q: Point, k: nat, nb: seq<Point>, dist: (Point, Point) -> real): (r: seq<Point>)
    requires Fits(n, |q.features|) && LastTagged(nb)
    requires n.Inter? ==> k > 0 || nb != []
    ensures |nb| <= |r| && LastTagged(r)
    decreases n
  {
    match n
    case Nil => nb
    case Leaf(ps) => LeafSearch(ps, q, k, nb, dist)
    case Inter(dim, sp, left, right) =>
      var distToPlane := Abs(q.features[dim] - sp);
      if q.features[dim] < sp then
        var nb1 := Search(left, q, k, nb, dist);
        if Beyond(nb1, k, distToPlane) then
          var r := Search(right, q, k, nb1, dist);
          r
        else nb1
      else
        var nb1 := Search(right, q, k, nb, dist);
        if Beyond(nb1, k, distToPlane) then
          var r := Search(left, q, k, nb1, dist);
          r
        else nb1
  }

  /** On a tree without leaves the search finds nothing: it only ever descends. */
  lemma {:induction false} SearchNoLeaves(n: KdNode, q: Point, k: nat, nb: seq<Point>, dist: (Point, Point) -> real)
    requires Fits(n, |q.features|) && LastTagged(nb) && (n.Inter? ==> k > 0 || nb != [])
    requires NoLeaves(n)
    ensures Search(n, q, k, nb, dist) == nb
  {
    match n
    case Nil =>
    case Inter(dim, sp, left, right) =>
      SearchNoLeaves(left, q, k, nb, dist);
      SearchNoLeaves(right, q, k, nb, dist);
  }

  /** At a leaf the search appends `min(k, |leaf|)` of the leaf's points, each with its
      distance to the query appended, in non-decreasing order of that distance, and none
      of the leaf's points left out is nearer than one appended. */
  lemma LeafNearest(ps: seq<Point>, q: Point, k: nat, nb: seq<Point>, dist: (Point, Point) -> real)
    requires LastTagged(nb)
    ensures var r := LeafSearch(ps, q, k, nb, dist);
      var added := r[|nb|..];
      var all := Tagged(q, ps, dist);
      |added| == Min(k, |ps|) && SortedByLast(added)
      && multiset(added) <= multiset(all)
      && forall p, i :: p in multiset(all) - multiset(added) && 0 <= i < |added| ==>
           LastFeature(added[i]) <= LastFeature(p)
  {
    var all := Tagged(q, ps, dist);
    var sorted := SortByLast(all);
    SortByLastProperties(all);
    var m := Min(k, |sorted|);
    PushFirstAppends(nb, sorted, k);
    var r := LeafSearch(ps, q, k, nb, dist);
    assert r == nb + sorted[..m];
    assert r[|nb|..] == sorted[..m];
    SortedPrefix(sorted, m);
  }

  /** A prefix of a sorted sequence holds its nearest points: none outside it is nearer. */
  lemma SortedPrefix(sorted: seq<Point>, m: nat)
    requires SortedByLast(sorted) && m <= |sorted|
    ensures SortedByLast(sorted[..m]) && multiset(sorted[..m]) <= multiset(sorted)
    ensures forall p, i :: p in multiset(sorted) - multiset(sorted[..m]) && 0 <= i < m ==>
      LastFeature(sorted[..m][i]) <= LastFeature(p)
  {
    assert sorted == sorted[..m] + sorted[m..];
    assert multiset(sorted) == multiset(sorted[..m]) + multiset(sorted[m..]);
    forall p, i | p in multiset(sorted) - multiset(sorted[..m]) && 0 <= i < m
      ensures LastFeature(sorted[..m][i]) <= LastFeature(p)
    {
      assert p in multiset(sorted[m..]);
      var j :| 0 <= j < |sorted[m..]| && sorted[m..][j] == p;
      assert sorted[m + j] == p;
    }
  }

  /** The tagged points of all leaves. */
  function Candidates(n: KdNode, q: Point, dist: (Point, Point) -> real): set<Point> {
    match n
    case Nil => {}
    case Inter(_, _, l, r) => Candidates(l, q, dist) + Candidates(r, q, dist)
    case Leaf(ps) => set i | 0 <= i < |ps| :: Tag(q, ps[i], dist)
  }

  /** The neighbours `r` holds beyond the first `|nb|` are all drawn from `c`. */
  predicate AddedFrom(nb: seq<Point>, r: seq<Point>, c: set<Point>) {
    forall i :: |nb| <= i < |r| ==> r[i] in c
  }

  /** Two searches in a row add only points drawn from either one's candidates. */
  lemma AddedFromTrans(nb: seq<Point>, nb1: seq<Point>, r: seq<Point>, c1: set<Point>, c2: set<Point>, c: set<Point>)
    requires |nb1| <= |r| && r[..|nb1|] == nb1
    requires AddedFrom(nb, nb1, c1) && AddedFrom(nb1, r, c2) && c1 <= c && c2 <= c
    ensures AddedFrom(nb, r, c)
  {
    forall i | |nb| <= i < |r| ensures r[i] in c {
      if i < |nb1| { assert r[i] == r[..|nb1|][i]; }
    }
  }

  /** Every neighbour the search adds is a point of a leaf with its distance to the query
      appended. */
  lemma {:induction false} SearchFromLeaves(n: KdNode, q: Point, k: nat, nb: seq<Point>, dist: (Point, Point) -> real)
    requires Fits(n, |q.features|) && LastTagged(nb) && (n.Inter? ==> k > 0 || nb != [])
    ensures AddedFrom(nb, Search(n, q, k, nb, dist), Candidates(n, q, dist))
    decreases n, 1
  {
    match n
    case Nil =>
    case Leaf(ps) => LeafFromLeaf(ps, q, k, nb, dist);
    case Inter(dim, sp, left, right) =>
      if q.features[dim] < sp {
        ThenSearch(n, left, right, q, k, nb, dist);
      } else {
        ThenSearch(n, right, left, q, k, nb, dist);
      }
  }

  lemma LeafFromLeaf(ps: seq<Point>, q: Point, k: nat, nb: seq<Point>, dist: (Point, Point) -> real)
    requires LastTagged(nb)
    ensures AddedFrom(nb, LeafSearch(ps, q, k, nb, dist), Candidates(Leaf(ps), q, dist))
  {
    var all := Tagged(q, ps, dist);
    LeafNearest(ps, q, k, nb, dist);
    var r := LeafSearch(ps, q, k, nb, dist);
    forall i | |nb| <= i < |r| ensures r[i] in Candidates(Leaf(ps), q, dist) {
      assert r[i] == r[|nb|..][i - |nb|];
      assert r[i] in multiset(all);
      var j :| 0 <= j < |all| && all[j] == r[i];
    }
  }

  /** The step of SearchFromLeaves at an internal node: first the side of the split the
      query lies on, then, if at all, the other side. */
  lemma {:induction false} ThenSearch(n: KdNode, near: KdNode, far: KdNode, q: Point, k: nat, nb: seq<Point>,
                                      dist: (Point, Point) -> real)
    requires n.Inter? && Fits(n, |q.features|) && LastTagged(nb) && (k > 0 || nb != [])
    requires if q.features[n.dim] < n.split then near == n.left && far == n.right
             else near == n.right && far == n.left
    ensures AddedFrom(nb, Search(n, q, k, nb, dist), Candidates(n, q, dist))
    decreases n, 0
  {
    var c := Candidates(n, q, dist);
    SearchStep(n, near, far, q, k, nb, dist);
    var nb1 := Search(near, q, k, nb, dist);
    SearchFromLeaves(near, q, k, nb, dist);
    if Beyond(nb1, k, Abs(q.features[n.dim] - n.split)) {
      SearchFromLeaves(far, q, k, nb1, dist);
      SearchExtends(far, q, k, nb1, dist);
      var r := Search(far, q, k, nb1, dist);
      AddedFromTrans(nb, nb1, r, Candidates(near, q, dist), Candidates(far, q, dist), c);
    } else {
      AddedFromTrans(nb, nb1, nb1, Candidates(near, q, dist), {}, c);
    }
  }

  /** One step of the search at an internal node, with the side the query lies on named
      `near`. */
  lemma SearchStep(n: KdNode, near: KdNode, far: KdNode, q: Point, k: nat, nb: seq<Point>,
                   dist: (Point, Point) -> real)
    requires n.Inter? && Fits(n, |q.features|) && LastTagged(nb) && (k > 0 || nb != [])
    requires if q.features[n.dim] < n.split then near == n.left && far == n.right
             else near == n.right && far == n.left
    ensures var nb1 := Search(near, q, k, nb, dist);
      Search(n, q, k, nb, dist)
      == if Beyond(nb1, k, Abs(q.features[n.dim] - n.split))
         then Search(far, q, k, nb1, dist) else nb1
  {
    match n
    case Inter(dim, sp, left, right) =>
      if q.features[dim] < sp {
        assert Search(n, q, k, nb, dist) == Search(Inter(dim, sp, left, right), q, k, nb, dist);
      } else {
        assert Search(n, q, k, nb, dist) == Search(Inter(dim, sp, left, right), q, k, nb, dist);
      }
  }

  /** The search only appends: the neighbours it starts from stay in front. */
  lemma {:induction false} SearchExtends(n: KdNode, q: Point, k: nat, nb: seq<Point>, dist: (Point, Point) -> real)
    requires Fits(n, |q.features|) && LastTagged(nb) && (n.Inter? ==> k > 0 || nb != [])
    ensures Search(n, q, k, nb, dist)[..|nb|] == nb
    decreases n
  {
    match n
    case Nil =>
    case Leaf(ps) =>
    case Inter(dim, sp, left, right) =>
      var near := if q.features[dim] < sp then left else right;
      var far := if q.features[dim] < sp then right else left;
      SearchStep(n, near, far, q, k, nb, dist);
      SearchExtends(near, q, k, nb, dist);
      var nb1 := Search(near, q, k, nb, dist);
      if Beyond(nb1, k, Abs(q.features[dim] - sp)) {
        SearchExtends(far, q, k, nb1, dist);
        var r := Search(far, q, k, nb1, dist);
        assert r[..|nb|] == r[..|nb1|][..|nb|];
      }
  }

  /** The leaf case of `kNNRecursive`: the loop that appends each point's distance to a
      copy of the leaf's points, the sort, and the loop that appends the first
      `min(k, |leaf|)` of them. */
  method LeafNeighbors(points: seq<Point>, q: Point, k: nat, neighbors: seq<Point>, dist: (Point, Point) -> real)
    returns (out: seq<Point>)
    requires LastTagged(neighbors)
    ensures out == LeafSearch(points, q, k, neighbors, dist)
  {
    var leafPoints := points;
    var i := 0;
    while i < |leafPoints|
      invariant |leafPoints| == |points| && 0 <= i <= |points|
      invariant forall j :: 0 <= j < i ==> leafPoints[j] == Tag(q, points[j], dist)
      invariant forall j :: i <= j < |points| ==> leafPoints[j] == points[j]
    {
      var distance := dist(q, leafPoints[i]);
      leafPoints := leafPoints[i := leafPoints[i].(features := leafPoints[i].features + [distance])];
      i := i + 1;
    }
    assert leafPoints == Tagged(q, points, dist);
    leafPoints := SortByLast(leafPoints);
    out := neighbors;
    var j := 0;
    while j < Min(k, |leafPoints|)
      invariant 0 <= j <= Min(k, |leafPoints|) && out == neighbors + leafPoints[..j]
    {
      out := out + [leafPoints[j]];
      j := j + 1;
    }
    PushFirstAppends(neighbors, leafPoints, k);
  }

  /** `kNNRecursive`: the leaf case as above; at an internal node the side of the split the
      query lies on first, then the other side when the search condition asks for it. */
  method KnnRecursive(node: KdNode, q: Point, k: nat, neighbors: seq<Point>, dist: (Point, Point) -> real)
    returns (out: seq<Point>)
    requires Fits(node, |q.features|) && LastTagged(neighbors)
    requires node.Inter? ==> k > 0 || neighbors != []
    ensures out == Search(node, q, k, neighbors, dist)
    decreases node, 1
  {
    match node
    case Nil =>
      out := neighbors;
    case Leaf(points) =>
      out := LeafNeighbors(points, q, k, neighbors, dist);
    case Inter(dim, splitValue, left, right) =>
      if q.features[dim] < splitValue {
        out := KnnInter(node, left, right, q, k, neighbors, dist);
      } else {
        out := KnnInter(node, right, left, q, k, neighbors, dist);
      }
  }

  /** The two branches of `kNNRecursive` at an internal node, the side the query lies on
      named `near`. */
  method KnnInter(node: KdNode, near: KdNode, far: KdNode, q: Point, k: nat, neighbors: seq<Point>,
                  dist: (Point, Point) -> real)
    returns (out: seq<Point>)
    requires node.Inter? && Fits(node, |q.features|) && LastTagged(neighbors) && (k > 0 || neighbors != [])
    requires if q.features[node.dim] < node.split then near == node.left && far == node.right
             else near == node.right && far == node.left
    ensures out == Search(node, q, k, neighbors, dist)
    decreases node, 0
  {
    var distToPlane := Abs(q.features[node.dim] - node.split);
    SearchStep(node, near, far, q, k, neighbors, dist);
    out := KnnRecursive(near, q, k, neighbors, dist);
    if |out| < k || distToPlane < LastFeature(out[|out| - 1]) {
      out := KnnRecursive(far, q, k, out, dist);
    }
  }

  /** Split dimensions below the width of the data fit every query of that width. */
  lemma {:induction false} DimsFits(n: KdNode, depth: nat, d: nat)
    requires DimsFrom(n, depth, d)
    ensures Fits(n, d)
  {
    match n
    case Nil =>
    case Leaf(_) =>
    case Inter(_, _, l, r) =>
      DimsFits(l, depth + 1, d);
      DimsFits(r, depth + 1, d);
  }

  // ---------------------------------------------------------------- the tree object

  /** `KD_Tree`: the root and the split threshold (which nothing reads). */
  class KDTree {
    var root: KdNode
    var splitThreshold: real

    /** The default constructor: an empty tree, threshold 0.1. */
    constructor ()
      ensures root == Nil && splitThreshold == 0.1
    {
      root := Nil;
      splitThreshold := 0.1;
    }

    /** The constructor with a threshold: an empty tree. */
    constructor WithThreshold(threshold: real)
      ensures root == Nil && splitThreshold == threshold
    {
      root := Nil;
      splitThreshold := threshold;
    }

    /** `build`: the tree is built from a copy of the data, which is left as it is. The
        result has internal nodes only, a node per point, the k-d ordering, splits on
        dimensions below the data's width, and split values within every bound the
        points share; the leaf case of the search is never reached on it. */
    method Build(data: seq<Point>)
      requires Uniform(data)
      modifies this
      ensures Built(root, data, 0) && Fits(root, Width(data))
      ensures splitThreshold == old(splitThreshold)
    {
      var points := new Point[|data|](i requires 0 <= i < |data| => data[i]);
      assert points[..] == data;
      root := BuildRecursive(points, 0);
      DimsFits(root, 0, Width(data));
    }

    /** `kNN`: the search from the root with no neighbours gathered yet. */
    method Knn(query: Point, k: nat, dist: (Point, Point) -> real) returns (nearest: seq<Point>)
      requires Fits(root, |query.features|) && (root.Inter? ==> k > 0)
      ensures nearest == Search(root, query, k, [], dist)
      ensures NoLeaves(root) ==> nearest == []
    {
      nearest := KnnRecursive(root, query, k, [], dist);
      assert NoLeaves(root) ==> nearest == [] by {
        if NoLeaves(root) { SearchNoLeaves(root, query, k, [], dist); }
      }
    }
  }
}
