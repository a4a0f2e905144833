/** Removing a sector from a linked sector tree: the pointer updates of
    `deleteLeafNode` and `deleteNodeWithOneChild`, the shape they leave, and
    what they do to the in-order sequence; the in-order successor that
    `deleteNodeWithTwoChildren` swaps in. */
module SectorSplice {
  import opened Sectors
  import opened SectorTrees

  /** The child a node with at most one child hands to its parent: the left one if any. */
  function ChildOf(s: Sector): Link {
    if s.left != Null then s.left else s.right
  }

  /** The shape after removing `d`, a node with at most one child: its subtree is
      replaced by its only non-empty subtree (or by nothing). */
  function Splice(t: Shape, d: Handle): Shape {
    match t
    case Empty => Empty
    case Fork(l, h, r) =>
      if h == d then (if l.Fork? then l else r)
      else if d in Handles(l) then Fork(Splice(l, d), h, r)
      else if d in Handles(r) then Fork(l, h, Splice(r, d))
      else t
  }

  /** The sector at `g` after the updates: the parent's slot that held `d` now holds
      the child, the child's parent is the removed node's parent. */
  function Relink(m: Arena, d: Handle, g: Handle): Sector
    requires d in m && g in m
  {
    var c, p := ChildOf(m[d]), m[d].parent;
    var a := if p != Null && g == p.h then
               (if m[g].left == Ptr(d) then m[g].(left := c) else m[g].(right := c))
             else m[g];
    if c != Null && g == c.h then a.(parent := p) else a
  }

  /** The arena after `d` has been unlinked and deleted. */
  function Unlink(m: Arena, d: Handle): Arena
    requires d in m
  {
    map g | g in m && g != d :: Relink(m, d, g)
  }

  /** A node the update does not touch: neither the removed one, its parent nor its child. */
  predicate Untouched(m: Arena, d: Handle, g: Handle)
    requires d in m
  {
    g != d && (m[d].parent == Null || g != m[d].parent.h) && (ChildOf(m[d]) == Null || g != ChildOf(m[d]).h)
  }

  /** Unlinking deletes exactly `d`, changes only links, and leaves untouched nodes alone. */
  lemma UnlinkFacts(m: Arena, d: Handle)
    requires d in m
    ensures forall g :: g in Unlink(m, d) <==> g in m && g != d
    ensures forall g :: g in Unlink(m, d) ==> Payload(Unlink(m, d)[g]) == Payload(m[g])
    ensures forall g :: g in m && Untouched(m, d, g) ==> Unlink(m, d)[g] == m[g]
  {
  }

  lemma UntouchedFrame(t: Shape, up: Link, m: Arena, d: Handle)
    requires d in m && Linked(t, up, m)
    requires forall g :: g in Handles(t) ==> Untouched(m, d, g)
    ensures Linked(t, up, Unlink(m, d)) && View(t, Unlink(m, d)) == View(t, m)
  {
    UnlinkFacts(m, d);
    ShapedInArena(t, m);
    LinkedFrame(t, up, m, Unlink(m, d));
    ViewFrame(t, m, Unlink(m, d));
  }

  /** A node below the top of a tree has its parent in the tree. */
  lemma {:induction false} ParentInside(t: Shape, up: Link, m: Arena, d: Handle)
    requires Parented(t, up, m) && d in Handles(t)
    ensures d in m
    ensures d == t.h ==> m[d].parent == up
    ensures d != t.h ==> m[d].parent != Null && m[d].parent.h in Handles(t)
  {
    if d != t.h {
      if d in Handles(t.left) {
        ParentInside(t.left, Ptr(t.h), m, d);
      } else {
        ParentInside(t.right, Ptr(t.h), m, d);
      }
    }
  }

  /** The children of a node of a tree are in the tree, below the top. */
  lemma {:induction false} ChildInside(t: Shape, m: Arena, d: Handle)
    requires Shaped(t, m) && Distinct(t) && d in Handles(t)
    ensures d in m
    ensures m[d].left != Null ==> m[d].left.h in Handles(t) && m[d].left.h != t.h
    ensures m[d].right != Null ==> m[d].right.h in Handles(t) && m[d].right.h != t.h
  {
    if d != t.h {
      if d in Handles(t.left) {
        ChildInside(t.left, m, d);
      } else {
        ChildInside(t.right, m, d);
      }
    }
  }

  /** The subtree whose top is `d`. */
  function SubtreeAt(t: Shape, d: Handle): Shape {
    match t
    case Empty => Empty
    case Fork(l, h, r) =>
      if h == d then t else if d in Handles(l) then SubtreeAt(l, d) else SubtreeAt(r, d)
  }

  /** The subtree at a node of a tree is topped by it and lies inside the tree, and the
      node's child links point at its subtrees. */
  lemma {:induction false} SubtreeAtShaped(t: Shape, m: Arena, d: Handle)
    requires Shaped(t, m) && d in Handles(t)
    ensures SubtreeAt(t, d).Fork? && SubtreeAt(t, d).h == d && Shaped(SubtreeAt(t, d), m)
    ensures m[d].left == LinkOf(SubtreeAt(t, d).left) && m[d].right == LinkOf(SubtreeAt(t, d).right)
    ensures forall g :: g in Handles(SubtreeAt(t, d)) ==> g in Handles(t)
  {
    if d != t.h {
      if d in Handles(t.left) {
        SubtreeAtShaped(t.left, m, d);
      } else {
        SubtreeAtShaped(t.right, m, d);
      }
    }
  }

  /** At most one of the subtrees below `d` is non-empty. */
  predicate OneSided(t: Shape, d: Handle) {
    var s := SubtreeAt(t, d);
    s.Empty? || s.left.Empty? || s.right.Empty?
  }

  /** Splicing out a node, with the arena unlinked accordingly, leaves a linked tree;
      its top changes to the child only when the removed node was the top. */
  lemma {:induction false} SpliceLinked(t: Shape, up: Link, m: Arena, d: Handle)
    requires Linked(t, up, m) && Distinct(t) && d in Handles(t)
    requires up != Null ==> up.h !in Handles(t)
    requires d in m && (m[d].left == Null || m[d].right == Null)
    ensures Linked(Splice(t, d), up, Unlink(m, d))
    ensures LinkOf(Splice(t, d)) == if t.h == d then ChildOf(m[d]) else LinkOf(t)
    decreases t
  {
    var l, h, r := t.left, t.h, t.right;
    if h == d {
      SpliceAtTop(t, up, m);
    } else if d in Handles(l) {
      SpliceLinked(l, Ptr(h), m, d);
      ParentInside(l, Ptr(h), m, d);
      ChildInside(l, m, d);
      SpliceBelowLeft(t, up, m, d);
    } else {
      SpliceLinked(r, Ptr(h), m, d);
      ParentInside(r, Ptr(h), m, d);
      ChildInside(r, m, d);
      SpliceBelowRight(t, up, m, d);
    }
  }

  /** Removing the top of a tree: its only subtree moves up and records `up` as parent. */
  lemma SpliceAtTop(t: Shape, up: Link, m: Arena)
    requires t.Fork? && Linked(t, up, m) && Distinct(t)
    requires up != Null ==> up.h !in Handles(t)
    requires m[t.h].left == Null || m[t.h].right == Null
    ensures Linked(Splice(t, t.h), up, Unlink(m, t.h))
    ensures LinkOf(Splice(t, t.h)) == ChildOf(m[t.h])
  {
    var d := t.h;
    var cs := if t.left.Fork? then t.left else t.right;
    assert Splice(t, d) == cs;
    if cs.Fork? {
      var c := cs.h;
      var m2 := Unlink(m, d);
      UnlinkFacts(m, d);
      assert Linked(cs, Ptr(d), m);
      assert Linked(cs.left, Ptr(c), m) && Linked(cs.right, Ptr(c), m);
      assert c in m && c != d && ChildOf(m[d]) == Ptr(c) && m[d].parent == up;
      assert up != Null ==> c != up.h;
      assert m2[c] == m[c].(parent := up);
      forall g | g in Handles(cs.left) + Handles(cs.right) ensures Untouched(m, d, g) {
        assert g in Handles(t) && g != c;
      }
      UntouchedFrame(cs.left, Ptr(c), m, d);
      UntouchedFrame(cs.right, Ptr(c), m, d);
    }
  }

  /** Removing a node of the left subtree: the top keeps its right subtree and, when the
      removed node was its left child, now points at that node's child. */
  lemma SpliceBelowLeft(t: Shape, up: Link, m: Arena, d: Handle)
    requires t.Fork? && Linked(t, up, m) && Distinct(t) && d in Handles(t.left)
    requires d in m && (m[d].left == Null || m[d].right == Null)
    requires Linked(Splice(t.left, d), Ptr(t.h), Unlink(m, d))
    requires LinkOf(Splice(t.left, d)) == if t.left.h == d then ChildOf(m[d]) else LinkOf(t.left)
    requires d == t.left.h ==> m[d].parent == Ptr(t.h)
    requires d != t.left.h ==> m[d].parent != Null && m[d].parent.h in Handles(t.left)
    requires m[d].left != Null ==> m[d].left.h in Handles(t.left)
    requires m[d].right != Null ==> m[d].right.h in Handles(t.left)
    ensures Linked(Splice(t, d), up, Unlink(m, d)) && LinkOf(Splice(t, d)) == LinkOf(t)
  {
    var h := t.h;
    var m2 := Unlink(m, d);
    UnlinkFacts(m, d);
    assert h in m2;
    if d == t.left.h {
      assert m2[h] == m[h].(left := ChildOf(m[d]));
    } else {
      assert Untouched(m, d, h);
    }
    forall g | g in Handles(t.right) ensures Untouched(m, d, g) {
      assert g !in Handles(t.left);
    }
    UntouchedFrame(t.right, Ptr(h), m, d);
  }

  lemma SpliceBelowRight(t: Shape, up: Link, m: Arena, d: Handle)
    requires t.Fork? && Linked(t, up, m) && Distinct(t) && d in Handles(t.right) && d !in Handles(t.left)
    requires d in m && (m[d].left == Null || m[d].right == Null)
    requires Linked(Splice(t.right, d), Ptr(t.h), Unlink(m, d))
    requires LinkOf(Splice(t.right, d)) == if t.right.h == d then ChildOf(m[d]) else LinkOf(t.right)
    requires d == t.right.h ==> m[d].parent == Ptr(t.h)
    requires d != t.right.h ==> m[d].parent != Null && m[d].parent.h in Handles(t.right)
    requires m[d].left != Null ==> m[d].left.h in Handles(t.right)
    requires m[d].right != Null ==> m[d].right.h in Handles(t.right)
    ensures Linked(Splice(t, d), up, Unlink(m, d)) && LinkOf(Splice(t, d)) == LinkOf(t)
  {
    var h := t.h;
    var m2 := Unlink(m, d);
    UnlinkFacts(m, d);
    assert h in m2;
    if d == t.right.h {
      assert m[h].left != Ptr(d);
      assert m2[h] == m[h].(right := ChildOf(m[d]));
    } else {
      assert Untouched(m, d, h);
    }
    forall g | g in Handles(t.left) ensures Untouched(m, d, g) {
      assert g !in Handles(t.right);
    }
    UntouchedFrame(t.left, Ptr(h), m, d);
  }

  /** Splicing removes exactly `d` from the handles and keeps them distinct. */
  lemma {:induction false} SpliceHandles(t: Shape, d: Handle)
    requires Distinct(t) && d in Handles(t) && OneSided(t, d)
    ensures Distinct(Splice(t, d))
    ensures forall g :: g in Handles(Splice(t, d)) <==> g in Handles(t) && g != d
  {
    if t.h != d {
      if d in Handles(t.left) {
        SpliceHandles(t.left, d);
      } else {
        SpliceHandles(t.right, d);
      }
    }
  }

  /** Splicing removes `d` from the in-order sequence and keeps the others in order. */
  lemma {:induction false} SpliceInOrder(t: Shape, d: Handle) returns (a: seq<Handle>, b: seq<Handle>)
    requires d in Handles(t) && OneSided(t, d)
    ensures InOrderHandles(t) == a + [d] + b
    ensures InOrderHandles(Splice(t, d)) == a + b
  {
    var l, h, r := t.left, t.h, t.right;
    if h == d {
      a, b := InOrderHandles(l), InOrderHandles(r);
    } else if d in Handles(l) {
      var a1, b1 := SpliceInOrder(l, d);
      a, b := a1, b1 + [h] + InOrderHandles(r);
    } else {
      var a1, b1 := SpliceInOrder(r, d);
      a, b := InOrderHandles(l) + [h] + a1, b1;
    }
  }

  /** The node `findMinNode` stops at: the end of the left spine. */
  function Leftmost(t: Shape): Handle
    requires t.Fork?
  {
    if t.left.Empty? then t.h else Leftmost(t.left)
  }

  /** The leftmost node comes first in in-order, lies in the tree and has no left child. */
  lemma {:induction false} LeftmostFirst(t: Shape, m: Arena)
    requires t.Fork? && Shaped(t, m)
    ensures |InOrderHandles(t)| >= 1 && InOrderHandles(t)[0] == Leftmost(t)
    ensures Leftmost(t) in Handles(t) && Leftmost(t) in m && m[Leftmost(t)].left == Null
  {
    if t.left.Fork? {
      LeftmostFirst(t.left, m);
    }
  }

  /** The leftmost node of the right subtree at `d` follows `d` directly in in-order. */
  lemma {:induction false} InOrderSuccessor(t: Shape, m: Arena, d: Handle) returns (a: seq<Handle>, b: seq<Handle>)
    requires Shaped(t, m) && d in Handles(t) && SubtreeAt(t, d).Fork? && SubtreeAt(t, d).right.Fork?
    ensures InOrderHandles(t) == a + [d, Leftmost(SubtreeAt(t, d).right)] + b
  {
    var l, h, r := t.left, t.h, t.right;
    if h == d {
      LeftmostFirst(r, m);
      a, b := InOrderHandles(l), InOrderHandles(r)[1..];
      assert InOrderHandles(r) == [Leftmost(r)] + b;
    } else if d in Handles(l) {
      var a1, b1 := InOrderSuccessor(l, m, d);
      a, b := a1, b1 + [h] + InOrderHandles(r);
    } else {
      var a1, b1 := InOrderSuccessor(r, m, d);
      a, b := InOrderHandles(l) + [h] + a1, b1;
    }
  }

  /** The position of an element that occurs once fixes the parts around it. */
  lemma SamePosition(a1: seq<Handle>, b1: seq<Handle>, a2: seq<Handle>, b2: seq<Handle>, x: Handle)
    requires a1 + [x] + b1 == a2 + [x] + b2 && x !in a1 && x !in a2
    ensures a1 == a2 && b1 == b2
  {
    var s := a1 + [x] + b1;
    assert s[|a1|] == x && s[|a2|] == x;
    assert forall i :: 0 <= i < |a1| ==> s[i] == a1[i];
    assert forall i :: 0 <= i < |a2| ==> s[i] == a2[i];
    assert |a1| == |a2|;
    assert a1 == s[..|a1|] && a2 == s[..|a2|];
    assert b1 == s[|a1| + 1..] && b2 == s[|a2| + 1..];
  }

  /** Keys read through handles whose sectors kept their keys are the same. */
  lemma KeysOfFrame(m: Arena, m2: Arena, hs: seq<Handle>)
    requires forall i :: 0 <= i < |hs| ==> KeyAt(m2, hs[i]) == KeyAt(m, hs[i])
    ensures KeysOf(m2, hs) == KeysOf(m, hs)
  {
  }

  /** Dropping an element of a strictly increasing sequence keeps it increasing. */
  lemma IncreasingDrop(a: seq<Key>, x: Key, b: seq<Key>)
    requires Increasing(a + [x] + b)
    ensures Increasing(a + b)
  {
    var s, s2 := a + [x] + b, a + b;
    forall i, j | 0 <= i < j < |s2| ensures Less(s2[i], s2[j]) {
      var i2 := if i < |a| then i else i + 1;
      var j2 := if j < |a| then j else j + 1;
      assert s2[i] == s[i2] && s2[j] == s[j2];
    }
  }

  /** Two arenas with the same handles and the same links. */
  ghost predicate SameLinks(m: Arena, m2: Arena) {
    (forall g :: g in m <==> g in m2)
    && (forall g :: g in m ==> g in m2 && m2[g].left == m[g].left && m2[g].right == m[g].right
                                     && m2[g].parent == m[g].parent)
  }

  /** Links are all that `Linked` looks at. */
  lemma {:induction false} LinkedRelabel(t: Shape, up: Link, m: Arena, m2: Arena)
    requires Linked(t, up, m) && SameLinks(m, m2)
    ensures Linked(t, up, m2)
  {
    if t.Fork? {
      LinkedRelabel(t.left, Ptr(t.h), m, m2);
      LinkedRelabel(t.right, Ptr(t.h), m, m2);
    }
  }
  /** A handle occurring once is in neither part around it. */
  lemma DistinctParts(a: seq<Handle>, x: Handle, b: seq<Handle>)
    requires forall i, j :: 0 <= i < j < |a + [x] + b| ==> (a + [x] + b)[i] != (a + [x] + b)[j]
    ensures x !in a && x !in b
  {
    var s := a + [x] + b;
    forall i | 0 <= i < |a| ensures a[i] != x {
      assert s[i] == a[i] && s[|a|] == x;
    }
    forall i | 0 <= i < |b| ensures b[i] != x {
      assert s[|a| + 1 + i] == b[i] && s[|a|] == x;
    }
  }

  /** Two adjacent handles occurring once are in neither part around them. */
  lemma DistinctPairParts(a: seq<Handle>, x: Handle, y: Handle, b: seq<Handle>)
    requires forall i, j :: 0 <= i < j < |a + [x, y] + b| ==> (a + [x, y] + b)[i] != (a + [x, y] + b)[j]
    ensures x !in a && x !in b && y !in a && y !in b
  {
    var s := a + [x, y] + b;
    forall i | 0 <= i < |a| ensures a[i] != x && a[i] != y {
      assert s[i] == a[i] && s[|a|] == x && s[|a| + 1] == y;
    }
    forall i | 0 <= i < |b| ensures b[i] != x && b[i] != y {
      assert s[|a| + 2 + i] == b[i] && s[|a|] == x && s[|a| + 1] == y;
    }
  }

  /** Unlinking `d` keeps the keys of every other sector of the tree. */
  lemma UnlinkKeys(t: Shape, m: Arena, d: Handle, a: seq<Handle>, b: seq<Handle>)
    requires Shaped(t, m) && Distinct(t) && d in m && InOrderHandles(t) == a + [d] + b
    ensures KeysOf(Unlink(m, d), a) == KeysOf(m, a) && KeysOf(Unlink(m, d), b) == KeysOf(m, b)
  {
    var s := a + [d] + b;
    InOrderHandlesDistinct(t);
    DistinctParts(a, d, b);
    ShapedInArena(t, m);
    UnlinkFacts(m, d);
    forall i | 0 <= i < |a| ensures KeyAt(Unlink(m, d), a[i]) == KeyAt(m, a[i]) {
      assert s[i] == a[i] && s[i] in Handles(t);
    }
    forall i | 0 <= i < |b| ensures KeyAt(Unlink(m, d), b[i]) == KeyAt(m, b[i]) {
      assert s[|a| + 1 + i] == b[i] && s[|a| + 1 + i] in Handles(t);
    }
    KeysOfFrame(m, Unlink(m, d), a);
    KeysOfFrame(m, Unlink(m, d), b);
  }
}
