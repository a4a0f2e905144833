/** The left-leaning red-black sector tree over an arena of sectors. Rotations and
    colour flips rewrite child, parent and colour fields in place; each method is
    proved to act on the view of the tree as the pure function of the same name in
    LlrbSpec does. */
module SectorLLRB {
  import opened Sectors
  import opened SectorTrees
  import opened SectorBST
  import opened LlrbSpec
  import opened LlrbStellar

  // ---------------------------------------------------------------- shapes of the rotations

  /** Where the handles are after `rotateLeft`. */
  function ShapeRotL(t: Shape): Shape
    requires t.Fork? && t.right.Fork?
  {
    Fork(Fork(t.left, t.h, t.right.left), t.right.h, t.right.right)
  }

  /** Where the handles are after `rotateRight`. */
  function ShapeRotR(t: Shape): Shape
    requires t.Fork? && t.left.Fork?
  {
    Fork(t.left.left, t.left.h, Fork(t.left.right, t.h, t.right))
  }

  /** `m2` differs from `m` inside `t` only in links and colours, `t2` has the handles of
      `t`, and nothing outside `t` changed. */
  ghost predicate Rearranged(m: Arena, m2: Arena, t: Shape, t2: Shape) {
    (forall g :: g in Handles(t2) <==> g in Handles(t))
    && (forall g :: g in m2 <==> g in m)
    && AgreeOutside(m, m2, t)
    && (forall g :: g in m ==> Payload(m2[g]) == Payload(m[g]))
  }

  /** A subtree whose top node only got a new parent link, hung under `up2`. */
  lemma Rehang(t: Shape, up: Link, up2: Link, m: Arena, m2: Arena)
    requires Linked(t, up, m) && Distinct(t)
    requires t.Fork? ==> t.h in m2 && m2[t.h] == m[t.h].(parent := up2)
    requires forall g :: g in Handles(t) && g != LinkOf(t).h ==> g in m && g in m2 && m2[g] == m[g]
    ensures Linked(t, up2, m2) && View(t, m2) == View(t, m)
  {
    if t.Fork? {
      assert t.h !in Handles(t.left) && t.h !in Handles(t.right);
      FrameAfterChild(t.left, Ptr(t.h), m, m2);
      FrameAfterChild(t.right, Ptr(t.h), m, m2);
    }
  }

  /** The arena after `rotateLeft` at the top of `t`: links of the node, its right child
      and that child's left child move, colours pass from the node to the child. */
  lemma RotLArena(t: Shape, up: Link, m: Arena, m2: Arena)
    requires t.Fork? && t.right.Fork? && Linked(t, up, m) && Distinct(t)
    requires var h, g := t.h, t.right.h;
      h in m && g in m && h in m2 && g in m2
      && m2[h] == m[h].(right := LinkOf(t.right.left), parent := Ptr(g), color := RED)
      && m2[g] == m[g].(left := Ptr(h), parent := up, color := m[h].color)
    requires t.right.left.Fork? ==>
      t.right.left.h in m && t.right.left.h in m2 && m2[t.right.left.h] == m[t.right.left.h].(parent := Ptr(t.h))
    requires forall q :: q in m2 <==> q in m
    requires forall q :: q in m && q != t.h && q != t.right.h && Ptr(q) != LinkOf(t.right.left) ==> m2[q] == m[q]
    ensures Linked(ShapeRotL(t), up, m2) && Distinct(ShapeRotL(t))
    ensures View(t, m).right.Node? && View(ShapeRotL(t), m2) == RotL(View(t, m))
    ensures Rearranged(m, m2, t, ShapeRotL(t))
  {
    var a, h, b, g, c := t.left, t.h, t.right.left, t.right.h, t.right.right;
    assert Linked(t.right, Ptr(h), m);
    ShapedInArena(t, m);
    RotationFrames(a, h, b, g, c, m, m2);
    FrameAfterChild(a, Ptr(h), m, m2);
    FrameAfterChild(c, Ptr(g), m, m2);
    Rehang(b, Ptr(g), Ptr(h), m, m2);
    ForkAt(a, h, b, Ptr(g), m2);
    ForkAt(Fork(a, h, b), g, c, up, m2);
    RotLDistinct(t);
    RotLRearranged(t, m, m2);
  }

  /** In a rotation of the subtrees `a`, `b`, `c` under the nodes `x` and `y`, whatever
      the rotation leaves alone is kept in all three subtrees but for the top of `b`. */
  lemma RotationFrames(a: Shape, x: Handle, b: Shape, y: Handle, c: Shape, m: Arena, m2: Arena)
    requires x !in Handles(a) && x !in Handles(b) && x !in Handles(c) && y != x
    requires y !in Handles(a) && y !in Handles(b) && y !in Handles(c)
    requires Handles(a) !! Handles(b) && Handles(b) !! Handles(c)
    requires Handles(a) <= m.Keys && Handles(b) <= m.Keys && Handles(c) <= m.Keys
    requires forall q :: q in m2 <==> q in m
    requires forall q :: q in m && q != x && q != y && Ptr(q) != LinkOf(b) ==> m2[q] == m[q]
    ensures Agree(m, m2, Handles(a)) && Agree(m, m2, Handles(c))
    ensures forall q :: q in Handles(b) && q != LinkOf(b).h ==> q in m && q in m2 && m2[q] == m[q]
  {
    KeptBeside(a, x, b, y, m, m2);
    KeptBeside(c, x, b, y, m, m2);
    forall q | q in Handles(b) && q != LinkOf(b).h ensures q in m && q in m2 && m2[q] == m[q] {
      assert Ptr(q) != LinkOf(b);
    }
  }

  /** A subtree beside `b` that holds neither `x` nor `y` keeps all its nodes. */
  lemma KeptBeside(s: Shape, x: Handle, b: Shape, y: Handle, m: Arena, m2: Arena)
    requires x !in Handles(s) && y !in Handles(s) && Handles(s) !! Handles(b) && Handles(s) <= m.Keys
    requires forall q :: q in m2 <==> q in m
    requires forall q :: q in m && q != x && q != y && Ptr(q) != LinkOf(b) ==> m2[q] == m[q]
    ensures Agree(m, m2, Handles(s))
  {
    forall q | q in Handles(s) ensures q in m2 && m2[q] == m[q] {
      if b.Fork? { assert b.h in Handles(b); }
    }
  }

  /** A node whose links match two linked subtrees tops a linked tree. */
  lemma ForkAt(l: Shape, h: Handle, r: Shape, up: Link, m: Arena)
    requires h in m && m[h].left == LinkOf(l) && m[h].right == LinkOf(r) && m[h].parent == up
    requires Linked(l, Ptr(h), m) && Linked(r, Ptr(h), m)
    ensures Linked(Fork(l, h, r), up, m)
    ensures View(Fork(l, h, r), m) == Node(RedAt(m, h), View(l, m), KeyAt(m, h), View(r, m))
  {
  }

  lemma RotLDistinct(t: Shape)
    requires t.Fork? && t.right.Fork? && Distinct(t)
    ensures Distinct(ShapeRotL(t))
  {
    assert Handles(ShapeRotL(t).left) == Handles(t.left) + {t.h} + Handles(t.right.left);
  }

  lemma RotLRearranged(t: Shape, m: Arena, m2: Arena)
    requires t.Fork? && t.right.Fork? && Distinct(t) && Shaped(t, m)
    requires var h, g := t.h, t.right.h;
      h in m && g in m && h in m2 && g in m2 && Payload(m2[h]) == Payload(m[h]) && Payload(m2[g]) == Payload(m[g])
    requires t.right.left.Fork? ==>
      t.right.left.h in m && t.right.left.h in m2 && Payload(m2[t.right.left.h]) == Payload(m[t.right.left.h])
    requires forall q :: q in m2 <==> q in m
    requires forall q :: q in m && q != t.h && q != t.right.h && Ptr(q) != LinkOf(t.right.left) ==> m2[q] == m[q]
    ensures Rearranged(m, m2, t, ShapeRotL(t))
  {
    assert t.right.h in Handles(t) && (t.right.left.Fork? ==> t.right.left.h in Handles(t));
    forall q | q in m ensures Payload(m2[q]) == Payload(m[q]) {
    }
    assert forall g :: g in Handles(ShapeRotL(t)) <==> g in Handles(t);
    assert AgreeOutside(m, m2, t);
  }

  /** The arena after `rotateRight` at the top of `t`, the mirror image of RotLArena. */
  lemma RotRArena(t: Shape, up: Link, m: Arena, m2: Arena)
    requires t.Fork? && t.left.Fork? && Linked(t, up, m) && Distinct(t)
    requires var h, g := t.h, t.left.h;
      h in m && g in m && h in m2 && g in m2
      && m2[h] == m[h].(left := LinkOf(t.left.right), parent := Ptr(g), color := RED)
      && m2[g] == m[g].(right := Ptr(h), parent := up, color := m[h].color)
    requires t.left.right.Fork? ==>
      t.left.right.h in m && t.left.right.h in m2 && m2[t.left.right.h] == m[t.left.right.h].(parent := Ptr(t.h))
    requires forall q :: q in m2 <==> q in m
    requires forall q :: q in m && q != t.h && q != t.left.h && Ptr(q) != LinkOf(t.left.right) ==> m2[q] == m[q]
    ensures Linked(ShapeRotR(t), up, m2) && Distinct(ShapeRotR(t))
    ensures View(t, m).left.Node? && View(ShapeRotR(t), m2) == RotR(View(t, m))
    ensures Rearranged(m, m2, t, ShapeRotR(t))
  {
    var a, g, b, h, c := t.left.left, t.left.h, t.left.right, t.h, t.right;
    assert Linked(t.left, Ptr(h), m);
    ShapedInArena(t, m);
    RotationFrames(a, g, b, h, c, m, m2);
    FrameAfterChild(a, Ptr(g), m, m2);
    FrameAfterChild(c, Ptr(h), m, m2);
    Rehang(b, Ptr(g), Ptr(h), m, m2);
    ForkAt(b, h, c, Ptr(g), m2);
    ForkAt(a, g, Fork(b, h, c), up, m2);
    RotRDistinct(t);
    RotRRearranged(t, m, m2);
  }

  lemma RotRDistinct(t: Shape)
    requires t.Fork? && t.left.Fork? && Distinct(t)
    ensures Distinct(ShapeRotR(t))
  {
    assert Handles(ShapeRotR(t).right) == Handles(t.left.right) + {t.h} + Handles(t.right);
  }

  lemma RotRRearranged(t: Shape, m: Arena, m2: Arena)
    requires t.Fork? && t.left.Fork? && Distinct(t) && Shaped(t, m)
    requires var h, g := t.h, t.left.h;
      h in m && g in m && h in m2 && g in m2 && Payload(m2[h]) == Payload(m[h]) && Payload(m2[g]) == Payload(m[g])
    requires t.left.right.Fork? ==>
      t.left.right.h in m && t.left.right.h in m2 && Payload(m2[t.left.right.h]) == Payload(m[t.left.right.h])
    requires forall q :: q in m2 <==> q in m
    requires forall q :: q in m && q != t.h && q != t.left.h && Ptr(q) != LinkOf(t.left.right) ==> m2[q] == m[q]
    ensures Rearranged(m, m2, t, ShapeRotR(t))
  {
    assert t.left.h in Handles(t) && (t.left.right.Fork? ==> t.left.right.h in Handles(t));
    forall q | q in m ensures Payload(m2[q]) == Payload(m[q]) {
    }
    assert forall g :: g in Handles(ShapeRotR(t)) <==> g in Handles(t);
    assert AgreeOutside(m, m2, t);
  }

  /** The arena after `flipColors` at the top of `t` when both children exist. */
  lemma FlipArena(t: Shape, up: Link, m: Arena, m2: Arena)
    requires t.Fork? && t.left.Fork? && t.right.Fork? && Linked(t, up, m) && Distinct(t)
    requires var h, l, r := t.h, t.left.h, t.right.h;
      h in m && l in m && r in m && h in m2 && l in m2 && r in m2
      && m2[h] == m[h].(color := !m[h].color)
      && m2[l] == m[l].(color := !m[l].color)
      && m2[r] == m[r].(color := !m[r].color)
    requires forall q :: q in m2 <==> q in m
    requires forall q :: q in m && q != t.h && q != t.left.h && q != t.right.h ==> m2[q] == m[q]
    ensures Linked(t, up, m2)
    ensures View(t, m2) == Flip(View(t, m))
    ensures Rearranged(m, m2, t, t)
  {
    var l, h, r := t.left, t.h, t.right;
    assert Linked(l, Ptr(h), m) && Linked(r, Ptr(h), m);
    ShapedInArena(t, m);
    FlipFrames(t, m, m2);
    FrameAfterChild(l.left, Ptr(l.h), m, m2);
    FrameAfterChild(l.right, Ptr(l.h), m, m2);
    FrameAfterChild(r.left, Ptr(r.h), m, m2);
    FrameAfterChild(r.right, Ptr(r.h), m, m2);
    ForkAt(l.left, l.h, l.right, Ptr(h), m2);
    ForkAt(r.left, r.h, r.right, Ptr(h), m2);
    ForkAt(l, h, r, up, m2);
    FlipRearranged(t, m, m2);
  }

  /** The four grandchild subtrees of a colour flip keep all their nodes. */
  lemma FlipFrames(t: Shape, m: Arena, m2: Arena)
    requires t.Fork? && t.left.Fork? && t.right.Fork? && Distinct(t) && Handles(t) <= m.Keys
    requires forall q :: q in m2 <==> q in m
    requires forall q :: q in m && q != t.h && q != t.left.h && q != t.right.h ==> m2[q] == m[q]
    ensures Agree(m, m2, Handles(t.left.left)) && Agree(m, m2, Handles(t.left.right))
    ensures Agree(m, m2, Handles(t.right.left)) && Agree(m, m2, Handles(t.right.right))
  {
    var l, h, r := t.left, t.h, t.right;
    assert h !in Handles(l) && h !in Handles(r) && Handles(l) !! Handles(r);
    assert l.h !in Handles(l.left) && l.h !in Handles(l.right);
    assert r.h !in Handles(r.left) && r.h !in Handles(r.right);
  }

  lemma FlipRearranged(t: Shape, m: Arena, m2: Arena)
    requires t.Fork? && t.left.Fork? && t.right.Fork?
    requires var h, l, r := t.h, t.left.h, t.right.h;
      h in m && l in m && r in m && h in m2 && l in m2 && r in m2
      && Payload(m2[h]) == Payload(m[h]) && Payload(m2[l]) == Payload(m[l]) && Payload(m2[r]) == Payload(m[r])
    requires forall q :: q in m2 <==> q in m
    requires forall q :: q in m && q != t.h && q != t.left.h && q != t.right.h ==> m2[q] == m[q]
    ensures Rearranged(m, m2, t, t)
  {
    assert t.left.h in Handles(t) && t.right.h in Handles(t);
    forall q | q in m ensures Payload(m2[q]) == Payload(m[q]) {
    }
  }

  lemma RearrangedRefl(m: Arena, t: Shape)
    ensures Rearranged(m, m, t, t)
  {
  }

  lemma RearrangedTrans(m0: Arena, m1: Arena, m2: Arena, t0: Shape, t1: Shape, t2: Shape)
    requires Rearranged(m0, m1, t0, t1) && Rearranged(m1, m2, t1, t2)
    ensures Rearranged(m0, m2, t0, t2)
  {
  }

  /** What the recursive step of the insertion has before its fix-ups: `t1`, with the
      same top node as `t`, is linked and has grown from `t`, and balancing its view
      gives `Ins` of the old one. */
  ghost predicate Attached(m0: Arena, n0: Handle, t: Shape, up: Link, m: Arena, n: Handle, t1: Shape, k: Key) {
    t.Fork? && t1.Fork? && t1.h == t.h && Linked(t1, up, m) && Distinct(t1) && Grew(m0, m, t, t1, n0, n)
    && Balance(View(t1, m)) == Ins(View(t, m0), k)
  }

  /** The subtree returned by the insertion on the left, stored as the left child: the
      node's subtree has grown, and rebalancing it yields `Ins` of the old one. */
  lemma AttachedLeft(t: Shape, up: Link, m0: Arena, m1: Arena, m2: Arena, t1: Shape, n0: Handle, n1: Handle, k: Key)
    requires t.Fork? && Linked(t, up, m0) && Distinct(t)
    requires forall g :: g in m0 ==> g < n0
    requires t1.Fork? && t1.h == t.h && t1.right == t.right
    requires Linked(t1.left, Ptr(t.h), m1) && Distinct(t1.left) && Grew(m0, m1, t.left, t1.left, n0, n1)
    requires View(t1.left, m1) == Ins(View(t.left, m0), k) && Less(k, KeyAt(m0, t.h))
    requires m2 == m1[t.h := m1[t.h].(left := LinkOf(t1.left))]
    ensures Attached(m0, n0, t, up, m2, n1, t1, k)
  {
    AttachLeftLinks(t, up, m0, m1, t1.left, n0, n1);
  }

  lemma AttachedRight(t: Shape, up: Link, m0: Arena, m1: Arena, m2: Arena, t1: Shape, n0: Handle, n1: Handle, k: Key)
    requires t.Fork? && Linked(t, up, m0) && Distinct(t)
    requires forall g :: g in m0 ==> g < n0
    requires t1.Fork? && t1.h == t.h && t1.left == t.left
    requires Linked(t1.right, Ptr(t.h), m1) && Distinct(t1.right) && Grew(m0, m1, t.right, t1.right, n0, n1)
    requires View(t1.right, m1) == Ins(View(t.right, m0), k) && Less(KeyAt(m0, t.h), k) && !Less(k, KeyAt(m0, t.h))
    requires m2 == m1[t.h := m1[t.h].(right := LinkOf(t1.right))]
    ensures Attached(m0, n0, t, up, m2, n1, t1, k)
  {
    AttachRightLinks(t, up, m0, m1, t1.right, n0, n1);
  }

  /** An insertion that found its key at the top of `t` changed nothing below it. */
  lemma AttachedFound(t: Shape, up: Link, m: Arena, n: Handle, k: Key)
    requires t.Fork? && Linked(t, up, m) && Distinct(t) && forall g :: g in m ==> g < n
    requires !Less(k, KeyAt(m, t.h)) && !Less(KeyAt(m, t.h), k)
    ensures Attached(m, n, t, up, m, n, t, k)
  {
    GrewRefl(m, t, n);
  }

  /** An insertion that found its key grew nothing. */
  lemma GrewRefl(m: Arena, t: Shape, n: Handle)
    requires Shaped(t, m) && forall g :: g in m ==> g < n
    ensures Grew(m, m, t, t, n, n)
  {
    ShapedInArena(t, m);
  }

  /** A rearrangement after a growth is a growth. */
  lemma GrewRearranged(m0: Arena, m1: Arena, m2: Arena, t: Shape, t1: Shape, t2: Shape, n0: Handle, n: Handle)
    requires forall g :: g in m0 ==> g < n0
    requires Grew(m0, m1, t, t1, n0, n) && Rearranged(m1, m2, t1, t2)
    ensures Grew(m0, m2, t, t2, n0, n)
  {
    forall g | g in m0 && g !in Handles(t) ensures g in m2 && m2[g] == m0[g] {
      assert g !in Handles(t1);
    }
    if n0 in m2 && n0 !in m0 {
      PayloadWellFormed(m1[n0], m2[n0]);
    }
  }

  /** Well-formedness depends on coordinates, distance and code only. */
  lemma PayloadWellFormed(a: Sector, b: Sector)
    requires WellFormed(a) && Payload(b) == Payload(a)
    ensures WellFormed(b)
  {
  }

  /** Painting the top node black paints the view's root black and keeps the links. */
  lemma BlackenArena(t: Shape, m: Arena, m2: Arena)
    requires t.Fork? && Linked(t, Null, m) && Distinct(t)
    requires m2 == m[t.h := m[t.h].(color := BLACK)]
    ensures Linked(t, Null, m2) && View(t, m2) == Blacken(View(t, m))
  {
    ShapedInArena(t, m);
    assert t.h !in Handles(t.left) && t.h !in Handles(t.right);
    ShapedFrame(t.left, m, m2);
    ShapedFrame(t.right, m, m2);
    ViewFrame(t.left, m, m2);
    ViewFrame(t.right, m, m2);
    ParentedFrame(t.left, Ptr(t.h), m, m2);
    ParentedFrame(t.right, Ptr(t.h), m, m2);
  }

  /** A sound arena tree whose view is an ordered left-leaning red-black tree with a
      black root. */
  ghost predicate ValidTree(t: Shape, m: Arena, r: Link, n: Handle) {
    SoundTree(t, m, r, n) && Ordered(View(t, m)) && IsLlrb(View(t, m)) && !IsRed(View(t, m))
  }

  /** After the insertion below the root and the root painted black, the arena is
      again a valid tree, whose view is `LlrbInsert` of the old one. */
  lemma InsertedValid(t0: Shape, m0: Arena, n0: Handle, t: Shape, m1: Arena, n1: Handle, m2: Arena, k: Key)
    requires ValidTree(t0, m0, LinkOf(t0), n0)
    requires Linked(t, Null, m1) && Distinct(t) && t.Fork? && Grew(m0, m1, t0, t, n0, n1)
    requires View(t, m1) == Ins(View(t0, m0), k)
    requires m2 == m1[t.h := m1[t.h].(color := BLACK)]
    ensures ValidTree(t, m2, Ptr(t.h), n1)
    ensures View(t, m2) == LlrbInsert(View(t0, m0), k)
    ensures InOrder(View(t, m2)) == Below(InOrder(View(t0, m0)), k) + [k] + Above(InOrder(View(t0, m0)), k)
  {
    InsertedSound(t0, m0, n0, t, m1, n1, m2);
    LlrbInsertOrdered(View(t0, m0), k);
    LlrbInsertValid(View(t0, m0), k);
  }

  lemma InsertedSound(t0: Shape, m0: Arena, n0: Handle, t: Shape, m1: Arena, n1: Handle, m2: Arena)
    requires SoundTree(t0, m0, LinkOf(t0), n0)
    requires Linked(t, Null, m1) && Distinct(t) && t.Fork? && Grew(m0, m1, t0, t, n0, n1)
    requires m2 == m1[t.h := m1[t.h].(color := BLACK)]
    ensures SoundTree(t, m2, Ptr(t.h), n1)
    ensures View(t, m2) == Blacken(View(t, m1))
  {
    BlackenArena(t, m1, m2);
    InsertedDomain(t0, m0, t, m1, m2, n0, n1);
    InsertedWellFormed(t0, m0, t, m1, m2, n0, n1);
    SoundFrom(t, m2, n1);
  }

  /** The parts of a sound tree, put together. */
  lemma SoundFrom(t: Shape, m: Arena, n: Handle)
    requires Linked(t, Null, m) && Distinct(t)
    requires forall g :: g in Handles(t) <==> g in m
    requires forall g :: g in m ==> g < n
    requires forall g :: g in m ==> WellFormed(m[g])
    ensures SoundTree(t, m, LinkOf(t), n)
  {
  }

  /** The painted arena holds exactly the nodes of the grown tree, all below `n1`. */
  lemma InsertedDomain(t0: Shape, m0: Arena, t: Shape, m1: Arena, m2: Arena, n0: Handle, n1: Handle)
    requires forall g :: g in Handles(t0) <==> g in m0
    requires Grew(m0, m1, t0, t, n0, n1) && t.Fork? && t.h in m1
    requires m2 == m1[t.h := m1[t.h].(color := BLACK)]
    ensures forall g :: g in Handles(t) <==> g in m2
    ensures forall g :: g in m2 ==> g < n1
  {
    assert m2.Keys == m1.Keys;
    forall g ensures g in Handles(t) <==> g in m2 {
      if g in m2 && g in m0 {
        assert g in Handles(t0);
      }
    }
  }

  lemma InsertedWellFormed(t0: Shape, m0: Arena, t: Shape, m1: Arena, m2: Arena, n0: Handle, n1: Handle)
    requires forall g :: g in Handles(t0) <==> g in m0
    requires forall g :: g in m0 ==> WellFormed(m0[g])
    requires Grew(m0, m1, t0, t, n0, n1) && t.Fork? && t.h in m1
    requires m2 == m1[t.h := m1[t.h].(color := BLACK)]
    ensures forall g :: g in m2 ==> WellFormed(m2[g])
  {
    forall g | g in m2 ensures WellFormed(m2[g]) {
      if g in m0 {
        PayloadWellFormed(m0[g], m2[g]);
      } else {
        assert g in Handles(t) && g !in Handles(t0);
        PayloadWellFormed(m1[g], m2[g]);
      }
    }
  }


  // ---------------------------------------------------------------- the stellar path

  /** The sectors `findSector` returns for a sequence of codes, searching from the root. */
  function Lookups(m: Arena, t: Shape, codes: seq<string>): (r: seq<Link>)
    requires Shaped(t, m)
    ensures |r| == |codes| && forall i :: 0 <= i < |codes| ==> r[i] == FindSector(m, LinkOf(t), codes[i], t)
  {
    if codes == [] then [] else [FindSector(m, LinkOf(t), codes[0], t)] + Lookups(m, t, codes[1..])
  }

  /** The codes of the sectors from the root to `g`; for a node of the tree the list
      is not empty, starts at the root's code, ends at `g`'s, and the search finds a
      sector for each of its codes. */
  lemma CodePathEnds(t: Shape, m: Arena, g: Handle)
    requires Linked(t, Null, m) && g in Handles(t)
    ensures var p := Codes(m, RootPath(t, g));
      p != [] && p[0] == CodeAt(m, t.h) && p[|p| - 1] == CodeAt(m, g)
      && forall i :: 0 <= i < |p| ==> FindSector(m, LinkOf(t), p[i], t) != Null
  {
    RootPathLinks(t, Null, m, g);
    var rp := RootPath(t, g);
    var p := Codes(m, rp);
    forall i | 0 <= i < |p| ensures FindSector(m, LinkOf(t), p[i], t) != Null {
      assert rp[i] in Handles(t) && p[i] == CodeAt(m, rp[i]);
      FindSectorSpec(m, t, p[i]);
    }
  }

  /** One step of the pre-order search: a match at the top, else the left subtree's
      result if any, else the right's; a node found below lies on the root path through
      the child it was found in. */
  lemma FindSectorStep(m: Arena, t: Shape, x: string)
    requires Shaped(t, m) && Distinct(t) && t.Fork?
    ensures var f, fl, fr := FindSector(m, Ptr(t.h), x, t),
                             FindSector(m, LinkOf(t.left), x, t.left), FindSector(m, LinkOf(t.right), x, t.right);
      (CodeAt(m, t.h) == x ==> f == Ptr(t.h) && RootPath(t, t.h) == [t.h])
      && (CodeAt(m, t.h) != x && fl != Null ==>
            f == fl && fl.h in Handles(t.left) && RootPath(t, fl.h) == [t.h] + RootPath(t.left, fl.h))
      && (CodeAt(m, t.h) != x && fl == Null ==> f == fr)
      && (fr != Null ==> fr.h in Handles(t.right) && RootPath(t, fr.h) == [t.h] + RootPath(t.right, fr.h))
  {
    FindSectorSpec(m, t.left, x);
    FindSectorSpec(m, t.right, x);
  }

  lemma AppendAssoc<T>(a: seq<T>, b: seq<T>, c: seq<T>)
    ensures (a + b) + c == a + (b + c)
  {
  }

  lemma ReverseStep<T>(s: seq<T>, i: int)
    requires 0 <= i < |s|
    ensures Reverse(s[i..]) == Reverse(s[i + 1..]) + [s[i]]
  {
    assert s[i..][1..] == s[i + 1..];
  }

  lemma SliceSnoc<T>(s: seq<T>, lo: int, k: int)
    requires 0 <= lo <= k < |s|
    ensures s[lo..k + 1] == s[lo..k] + [s[k]]
  {
  }

  lemma LookupsSnoc(m: Arena, t: Shape, codes: seq<string>, c: string)
    requires Shaped(t, m)
    ensures Lookups(m, t, codes + [c]) == Lookups(m, t, codes) + [FindSector(m, LinkOf(t), c, t)]
  {
  }

  lemma CodesCons(m: Arena, h: Handle, hs: seq<Handle>)
    ensures Codes(m, [h] + hs) == [CodeAt(m, h)] + Codes(m, hs)
  {
    assert ([h] + hs)[1..] == hs;
  }

  /** The codes the corrected walk looks up between the sectors `e` and `d`: the codes
      from the root down to each, joined where they part. */
  ghost function WalkCodes(m: Arena, t: Shape, e: Link, d: Link): seq<string>
    requires e != Null && d != Null
  {
    Walk(Codes(m, RootPath(t, e.h)), Codes(m, RootPath(t, d.h)))
  }

  /** Between two sectors of the tree, the codes the corrected walk looks up start with
      the first one's code and end with the second one's. */
  lemma WalkCodesEnds(t: Shape, m: Arena, e: Link, d: Link)
    requires Linked(t, Null, m) && e != Null && d != Null && e.h in Handles(t) && d.h in Handles(t)
    ensures var s := WalkCodes(m, t, e, d);
      s != [] && s[0] == CodeAt(m, e.h) && s[|s| - 1] == CodeAt(m, d.h)
  {
    var p1, p2 := Codes(m, RootPath(t, e.h)), Codes(m, RootPath(t, d.h));
    CodePathEnds(t, m, e.h);
    CodePathEnds(t, m, d.h);
    PathCodesEnds(p1, p2, CodeAt(m, e.h), CodeAt(m, d.h));
  }


  /** Between two sectors of the tree, every code the corrected walk looks up is found. */
  lemma WalkCodesFound(t: Shape, m: Arena, e: Link, d: Link)
    requires Linked(t, Null, m) && e != Null && d != Null && e.h in Handles(t) && d.h in Handles(t)
    ensures var s := WalkCodes(m, t, e, d);
      forall i :: 0 <= i < |s| ==> FindSector(m, LinkOf(t), s[i], t) != Null
  {
    var p1, p2 := Codes(m, RootPath(t, e.h)), Codes(m, RootPath(t, d.h));
    var found := (c: string) => Shaped(t, m) && FindSector(m, LinkOf(t), c, t) != Null;
    CodePathEnds(t, m, e.h);
    CodePathEnds(t, m, d.h);
    assert forall i :: 0 <= i < |p1| ==> found(p1[i]);
    assert forall i :: 0 <= i < |p2| ==> found(p2[i]);
    WalkWithin(p1, p2, found);
  }


  /** Between two sectors of the tree, the corrected walk is not empty, starts at the
      sector the search finds for the first one's code, ends at the one it finds for the
      second one's code, and every step is a sector of the tree. */
  lemma StellarPathWalk(t: Shape, m: Arena, e: Link, d: Link)
    requires Linked(t, Null, m) && e != Null && d != Null && e.h in Handles(t) && d.h in Handles(t)
    ensures var path := Lookups(m, t, WalkCodes(m, t, e, d));
      path != [] && path[0] == FindSector(m, LinkOf(t), CodeAt(m, e.h), t)
      && path[|path| - 1] == FindSector(m, LinkOf(t), CodeAt(m, d.h), t)
      && forall i :: 0 <= i < |path| ==> path[i] != Null
  {
    WalkCodesEnds(t, m, e, d);
    WalkCodesFound(t, m, e, d);
  }

  /** When Earth and the target are both in the tree, the corrected walk between the
      sectors the search finds for them is not empty, starts at Earth, ends at the
      target, and every step is a sector of the tree. */
  lemma StellarPathEnds(t: Shape, m: Arena, code: string)
    requires Linked(t, Null, m)
    ensures var e, d := FindSector(m, LinkOf(t), EARTH, t), FindSector(m, LinkOf(t), code, t);
      e != Null && d != Null ==>
        var path := Lookups(m, t, WalkCodes(m, t, e, d));
        path != [] && path[0] == e && path[|path| - 1] == d
        && forall i :: 0 <= i < |path| ==> path[i] != Null
  {
    var e, d := FindSector(m, LinkOf(t), EARTH, t), FindSector(m, LinkOf(t), code, t);
    if e != Null && d != Null {
      assert e.h in Handles(t) && CodeAt(m, e.h) == EARTH by { FindSectorSpec(m, t, EARTH); }
      assert d.h in Handles(t) && CodeAt(m, d.h) == code by { FindSectorSpec(m, t, code); }
      StellarPathWalk(t, m, e, d);
    }
  }



  /** The first assembly loop of `getStellarPath`: the sectors for the first path's
      codes, from its end back to just after the intersection. */
  method WalkUp(m: Arena, ghost t: Shape, root: Link, path1: seq<string>, intersection: int) returns (path: seq<Link>)
    requires Shaped(t, m) && root == LinkOf(t)
    requires -1 <= intersection < |path1|
    ensures path == Lookups(m, t, Reverse(path1[intersection + 1..]))
  {
    path := [];
    var i := |path1| - 1;
    while i > intersection
      invariant intersection <= i < |path1|
      invariant path == Lookups(m, t, Reverse(path1[i + 1..]))
    {
      var sector := FindSector(m, root, path1[i], t);
      ReverseStep(path1, i);
      LookupsSnoc(m, t, Reverse(path1[i + 1..]), path1[i]);
      path := path + [sector];
      i := i - 1;
    }
  }

  /** The second assembly loop: after `path0`, the sectors for the second path's codes
      from the intersection on. Its index is compared with an unsigned size, so an
      intersection of -1 converts to the largest size and the loop does not run; the
      model tests for it before the loop. */
  method WalkDown(m: Arena, ghost t: Shape, root: Link, path0: seq<Link>, path2: seq<string>, intersection: int,
                  ghost up: seq<string>)
    returns (path: seq<Link>)
    requires Shaped(t, m) && root == LinkOf(t)
    requires -1 <= intersection < |path2|
    requires path0 == Lookups(m, t, up)
    ensures path == Lookups(m, t, up + if intersection >= 0 then path2[intersection..] else [])
  {
    path := path0;
    if intersection < 0 {
      assert up + [] == up;
      return;
    }
    var k := intersection;
    ghost var codes := up;
    assert path2[intersection..k] == [];
    while k < |path2|
      invariant intersection <= k <= |path2|
      invariant codes == up + path2[intersection..k] && path == Lookups(m, t, codes)
    {
      var sector := FindSector(m, root, path2[k], t);
      SliceSnoc(path2, intersection, k);
      AppendAssoc(up, path2[intersection..k], [path2[k]]);
      LookupsSnoc(m, t, codes, path2[k]);
      path, codes := path + [sector], codes + [path2[k]];
      k := k + 1;
    }
    assert path2[intersection..k] == path2[intersection..];
  }

  // ---------------------------------------------------------------- the arena tree

  class SpaceSectorLLRBT {
    /** The sectors, by handle. */
    var nodes: Arena
    var root: Link
    /** The handle the next `new Sector` receives. */
    var next: Handle
    /** Which handles form the tree. */
    ghost var shape: Shape

    /** The pointer structure is a tree with correct derived fields (as for the plain
        search tree), in-order traversal is increasing, and the colours form a
        left-leaning red-black tree with a black root. */
    ghost predicate Valid()
      reads this
    {
      ValidTree(shape, nodes, root, next)
    }

    /** The keys in in-order. */
    ghost function Keys(): seq<Key>
      reads this
    {
      InOrder(View(shape, nodes))
    }

    constructor ()
      ensures Valid() && Keys() == [] && root == Null
    {
      nodes := map[];
      root := Null;
      next := 0;
      shape := Empty;
    }

    /** `insertSectorByCoordinates`: insert below the root, then paint the root black.
        The tree of colours and keys becomes `LlrbInsert` of the old one; a sector is
        only constructed when the key is absent, so only then must its squared distance
        fit in an `int`. */
    method InsertSectorByCoordinates(x: int, y: int, z: int)
      requires Valid()
      requires (x, y, z) !in Keys() ==> NoOverflow(x, y, z)
      modifies this
      ensures Valid()
      ensures View(shape, nodes) == LlrbInsert(old(View(shape, nodes)), (x, y, z))
      ensures Keys() == Below(old(Keys()), (x, y, z)) + [(x, y, z)] + Above(old(Keys()), (x, y, z))
    {
      FoundIffMember(View(shape, nodes), (x, y, z));
      assert SoundTree(shape, nodes, root, next);
      var r, t := InsertRecursive(root, Null, x, y, z, shape);
      ghost var m1 := nodes;
      nodes := nodes[r.h := nodes[r.h].(color := BLACK)];
      root := r;
      shape := t;
      InsertedValid(old(shape), old(nodes), old(next), t, m1, next, nodes, (x, y, z));
    }

    /** `insertRecursive` on the subtree `t` whose top node hangs from `parent`: the
        subtree of colours and keys becomes `Ins` of the old one. */
    method InsertRecursive(node: Link, parent: Link, x: int, y: int, z: int, ghost t: Shape)
      returns (r: Link, ghost t2: Shape)
      requires Linked(t, parent, nodes) && Distinct(t) && node == LinkOf(t)
      requires forall g :: g in nodes ==> g < next
      requires !Found(View(t, nodes), (x, y, z)) ==> NoOverflow(x, y, z)
      modifies this`nodes, this`next
      ensures t2.Fork? && Linked(t2, parent, nodes) && Distinct(t2) && r == LinkOf(t2)
      ensures View(t2, nodes) == Ins(View(t, old(nodes)), (x, y, z))
      ensures Grew(old(nodes), nodes, t, t2, old(next), next)
      decreases t
    {
      if node == Null {
        var s := NewSector(x, y, z);
        s := s.(parent := parent, color := RED);
        var h := next;
        NewLeaf(nodes, h, s, parent);
        nodes := nodes[h := s];
        next := next + 1;
        r := Ptr(h);
        t2 := Fork(Empty, h, Empty);
        return;
      }
      var n := nodes[node.h];
      ghost var t1: Shape;
      if x < n.x || (x == n.x && y < n.y) || (x == n.x && y == n.y && z < n.z) {
        var c, tl := InsertRecursive(n.left, node, x, y, z, t.left);
        ghost var m1 := nodes;
        nodes := nodes[node.h := nodes[node.h].(left := c)];
        t1 := Fork(tl, t.h, t.right);
        AttachedLeft(t, parent, old(nodes), m1, nodes, t1, old(next), next, (x, y, z));
      } else if x > n.x || (x == n.x && y > n.y) || (x == n.x && y == n.y && z > n.z) {
        var c, tr := InsertRecursive(n.right, node, x, y, z, t.right);
        ghost var m1 := nodes;
        nodes := nodes[node.h := nodes[node.h].(right := c)];
        t1 := Fork(t.left, t.h, tr);
        AttachedRight(t, parent, old(nodes), m1, nodes, t1, old(next), next, (x, y, z));
      } else {
        AttachedFound(t, parent, nodes, next, (x, y, z));
        t1 := t;
      }
      assert Attached(old(nodes), old(next), t, parent, nodes, next, t1, (x, y, z));
      ghost var mb := nodes;
      r, t2 := FixUp(node.h, t1, parent);
      GrewRearranged(old(nodes), mb, nodes, t, t1, t2, old(next), next);
    }

    /** The three fix-ups at the end of `insertRecursive`, on the subtree `t` whose top
        node is `node`: lean red links left, split a left red-red pair, and push a
        4-node's red up. The tree of colours and keys becomes `Balance` of the old one. */
    method FixUp(node: Handle, ghost t: Shape, ghost up: Link) returns (r: Link, ghost t2: Shape)
      requires Linked(t, up, nodes) && Distinct(t) && t.Fork? && t.h == node
      modifies this`nodes
      ensures t2.Fork? && Linked(t2, up, nodes) && Distinct(t2) && r == LinkOf(t2)
      ensures View(t2, nodes) == Balance(View(t, old(nodes)))
      ensures Rearranged(old(nodes), nodes, t, t2)
    {
      ghost var v := View(t, nodes);
      r, t2 := Ptr(node), t;
      RearrangedRefl(nodes, t);
      ghost var mb, tb := nodes, t2;
      if IsRed(nodes[node].right, t.right) && !IsRed(nodes[node].left, t.left) {
        r, t2 := RotateLeft(node, t, up);
        RearrangedTrans(old(nodes), mb, nodes, t, tb, t2);
      }
      ghost var v1 := View(t2, nodes);
      assert v1 == if LlrbSpec.IsRed(v.right) && !LlrbSpec.IsRed(v.left) then RotL(v) else v;
      mb, tb := nodes, t2;
      if IsRed(nodes[r.h].left, t2.left) && IsRed(nodes[nodes[r.h].left.h].left, t2.left.left) {
        r, t2 := RotateRight(r.h, t2, up);
        RearrangedTrans(old(nodes), mb, nodes, t, tb, t2);
      }
      ghost var v2 := View(t2, nodes);
      assert v2 == if LlrbSpec.IsRed(v1.left) && LlrbSpec.IsRed(v1.left.left) then RotR(v1) else v1;
      mb := nodes;
      if IsRed(nodes[r.h].left, t2.left) && IsRed(nodes[r.h].right, t2.right) {
        FlipColors(r, t2, up);
        RearrangedTrans(old(nodes), mb, nodes, t, t2, t2);
      }
    }

    /** `isRed`: a null link is black; otherwise the sector's colour. On the subtree `s`
        the link points at, it is the colour of the view's top. */
    function IsRed(node: Link, ghost s: Shape): (red: bool)
      reads this
      requires Shaped(s, nodes) && node == LinkOf(s)
      ensures red == LlrbSpec.IsRed(View(s, nodes))
    {
      if node == Null then false else nodes[node.h].color
    }

    /** `rotateLeft` on the node `node`, top of the subtree `t` hanging from `up`. The
        caller stores the returned promoted child in the slot that held `node`. */
    method RotateLeft(node: Handle, ghost t: Shape, ghost up: Link) returns (r: Link, ghost t2: Shape)
      requires Linked(t, up, nodes) && Distinct(t) && t.Fork? && t.h == node && t.right.Fork?
      modifies this`nodes
      ensures t2 == ShapeRotL(t) && r == LinkOf(t2)
      ensures Linked(t2, up, nodes) && Distinct(t2)
      ensures View(t, old(nodes)).right.Node? && View(t2, nodes) == RotL(View(t, old(nodes)))
      ensures Rearranged(old(nodes), nodes, t, t2)
    {
      assert Linked(t.right, Ptr(node), nodes);
      assert t.right.left.Fork? ==> t.right.left.h in nodes by { ShapedInArena(t, nodes); }
      var rightChild := nodes[node].right.h;
      nodes := nodes[node := nodes[node].(right := nodes[rightChild].left)];
      if nodes[rightChild].left != Null {
        var b := nodes[rightChild].left.h;
        nodes := nodes[b := nodes[b].(parent := Ptr(node))];
      }
      nodes := nodes[rightChild := nodes[rightChild].(left := Ptr(node))];
      nodes := nodes[rightChild := nodes[rightChild].(parent := nodes[node].parent)];
      nodes := nodes[node := nodes[node].(parent := Ptr(rightChild))];
      nodes := nodes[rightChild := nodes[rightChild].(color := nodes[node].color)];
      nodes := nodes[node := nodes[node].(color := RED)];
      r := Ptr(rightChild);
      t2 := ShapeRotL(t);
      RotLArena(t, up, old(nodes), nodes);
    }

    /** `rotateRight`, the mirror image. */
    method RotateRight(node: Handle, ghost t: Shape, ghost up: Link) returns (r: Link, ghost t2: Shape)
      requires Linked(t, up, nodes) && Distinct(t) && t.Fork? && t.h == node && t.left.Fork?
      modifies this`nodes
      ensures t2 == ShapeRotR(t) && r == LinkOf(t2)
      ensures Linked(t2, up, nodes) && Distinct(t2)
      ensures View(t, old(nodes)).left.Node? && View(t2, nodes) == RotR(View(t, old(nodes)))
      ensures Rearranged(old(nodes), nodes, t, t2)
    {
      assert Linked(t.left, Ptr(node), nodes);
      assert t.left.right.Fork? ==> t.left.right.h in nodes by { ShapedInArena(t, nodes); }
      var leftChild := nodes[node].left.h;
      nodes := nodes[node := nodes[node].(left := nodes[leftChild].right)];
      if nodes[leftChild].right != Null {
        var b := nodes[leftChild].right.h;
        nodes := nodes[b := nodes[b].(parent := Ptr(node))];
      }
      nodes := nodes[leftChild := nodes[leftChild].(right := Ptr(node))];
      nodes := nodes[leftChild := nodes[leftChild].(parent := nodes[node].parent)];
      nodes := nodes[node := nodes[node].(parent := Ptr(leftChild))];
      nodes := nodes[leftChild := nodes[leftChild].(color := nodes[node].color)];
      nodes := nodes[node := nodes[node].(color := RED)];
      r := Ptr(leftChild);
      t2 := ShapeRotR(t);
      RotRArena(t, up, old(nodes), nodes);
    }

    /** `flipColors`: toggles the node and both children when both exist. */
    method FlipColors(node: Link, ghost t: Shape, ghost up: Link)
      requires Linked(t, up, nodes) && Distinct(t) && node == LinkOf(t)
      modifies this`nodes
      ensures Linked(t, up, nodes)
      ensures View(t, nodes) == Flip(View(t, old(nodes)))
      ensures Rearranged(old(nodes), nodes, t, t)
    {
      assert t.Fork? ==> Linked(t.left, node, nodes) && Linked(t.right, node, nodes);
      if node != Null && nodes[node.h].left != Null && nodes[node.h].right != Null {
        var h, l, r := node.h, nodes[node.h].left.h, nodes[node.h].right.h;
        nodes := nodes[h := nodes[h].(color := !nodes[h].color)];
        nodes := nodes[l := nodes[l].(color := !nodes[l].color)];
        nodes := nodes[r := nodes[r].(color := !nodes[r].color)];
        FlipArena(t, up, old(nodes), nodes);
      } else {
        ShapedInArena(t, nodes);
      }
    }

    /** `getPath`: the pre-order search for the code `x`, keeping the codes of the
        sectors on the way down. It succeeds exactly when `findSector` does, and then
        appends the codes from the subtree's top down to the sector `findSector` finds;
        a search that fails leaves the path as it was. */
    method GetPath(node: Link, path: seq<string>, x: string, ghost t: Shape) returns (found: bool, path': seq<string>)
      requires Shaped(t, nodes) && Distinct(t) && node == LinkOf(t)
      ensures var f := FindSector(nodes, node, x, t);
        (found <==> f != Null)
        && (found ==> f.h in Handles(t) && path' == path + Codes(nodes, RootPath(t, f.h)))
        && (!found ==> path' == path)
      decreases t
    {
      if node == Null {
        return false, path;
      }
      var h := node.h;
      FindSectorStep(nodes, t, x);
      path' := path + [nodes[h].code];
      if nodes[h].code == x {
        return true, path';
      }
      found, path' := GetPath(nodes[h].left, path', x, t.left);
      if found {
        ghost var q := RootPath(t.left, FindSector(nodes, nodes[h].left, x, t.left).h);
        CodesCons(nodes, h, q);
        AppendAssoc(path, [nodes[h].code], Codes(nodes, q));
        return;
      }
      found, path' := GetPath(nodes[h].right, path', x, t.right);
      if found {
        ghost var q := RootPath(t.right, FindSector(nodes, nodes[h].right, x, t.right).h);
        CodesCons(nodes, h, q);
        AppendAssoc(path, [nodes[h].code], Codes(nodes, q));
        return;
      }
      path' := path'[..|path'| - 1];
    }

    /** `getStellarPath` with the intersection loop corrected: the sectors from Earth up
        to where Earth's root path and the target's part, then down to the target. It is
        empty when Earth or the target is not in the tree; otherwise it starts at Earth,
        ends at the target and every step is a sector of the tree. */
    method GetStellarPath(code: string) returns (path: seq<Link>)
      requires Valid()
      ensures var e, d := FindSector(nodes, root, EARTH, shape), FindSector(nodes, root, code, shape);
        path == if e == Null || d == Null then [] else Lookups(nodes, shape, WalkCodes(nodes, shape, e, d))
    {
      var earth := FindSector(nodes, root, EARTH, shape);
      var elara := FindSector(nodes, root, code, shape);
      if earth == Null || elara == Null {
        return [];
      }
      assert earth.h in Handles(shape) && CodeAt(nodes, earth.h) == EARTH by { FindSectorSpec(nodes, shape, EARTH); }
      assert elara.h in Handles(shape) && CodeAt(nodes, elara.h) == code by { FindSectorSpec(nodes, shape, code); }
      var found1, path1 := GetPath(root, [], EARTH, shape);
      var found2, path2 := GetPath(root, [], code, shape);
      assert path1 == Codes(nodes, RootPath(shape, earth.h)) && path2 == Codes(nodes, RootPath(shape, elara.h));
      var intersection := Intersection(path1, path2);
      assert PathCodes(path1, path2, intersection) == WalkCodes(nodes, shape, earth, elara);
      path := WalkUp(nodes, shape, root, path1, intersection);
      path := WalkDown(nodes, shape, root, path, path2, intersection, Reverse(path1[intersection + 1..]));
    }

    /** `getStellarPath` as written, with the intersection loop of the source. It agrees
        with the corrected walk except when the target is Earth: then both code paths
        are equal, the intersection stays at -1 and the sectors are looked up for Earth's
        whole root path, backwards, ending at the root's code instead of at Earth. */
    method GetStellarPathAsWritten(code: string) returns (path: seq<Link>)
      requires Valid()
      ensures var e, d := FindSector(nodes, root, EARTH, shape), FindSector(nodes, root, code, shape);
        path == if e == Null || d == Null then []
                else Lookups(nodes, shape, WalkAsWritten(Codes(nodes, RootPath(shape, e.h)), Codes(nodes, RootPath(shape, d.h))))
      ensures var e := FindSector(nodes, root, EARTH, shape);
        code == EARTH && e != Null ==> path == Lookups(nodes, shape, Reverse(Codes(nodes, RootPath(shape, e.h))))
    {
      var earth := FindSector(nodes, root, EARTH, shape);
      var elara := FindSector(nodes, root, code, shape);
      if earth == Null || elara == Null {
        return [];
      }
      assert earth.h in Handles(shape) && CodeAt(nodes, earth.h) == EARTH by { FindSectorSpec(nodes, shape, EARTH); }
      assert elara.h in Handles(shape) && CodeAt(nodes, elara.h) == code by { FindSectorSpec(nodes, shape, code); }
      var found1, path1 := GetPath(root, [], EARTH, shape);
      var found2, path2 := GetPath(root, [], code, shape);
      assert path1 == Codes(nodes, RootPath(shape, earth.h)) && path2 == Codes(nodes, RootPath(shape, elara.h));
      var intersection := IntersectionAsWritten(path1, path2);
      if code == EARTH {
        CodePathEnds(shape, nodes, earth.h);
        AsWrittenClimbsToRoot(path1);
      }
      path := WalkUp(nodes, shape, root, path1, intersection);
      path := WalkDown(nodes, shape, root, path, path2, intersection, Reverse(path1[intersection + 1..]));
    }
  }
}
