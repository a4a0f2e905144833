/** What the left-leaning red-black insertion does to the tree of colours and keys:
    rotations, the colour flip, the three rebalancing steps run on the way back up,
    and the invariants of a 2-3 left-leaning red-black tree that insertion keeps. */
module LlrbSpec {
  import opened Sectors
  import opened SectorTrees
  import opened SectorBST

  /** `isRed` on the tree of colours: a leaf is black. */
  predicate IsRed(t: Tree) { t.Node? && t.red }

  /** `rotateLeft`: the right child is promoted and takes the node's colour; the
      node is demoted to its left child and becomes red. */
  function RotL(t: Tree): Tree
    requires t.Node? && t.right.Node?
  {
    Node(t.red, Node(RED, t.left, t.key, t.right.left), t.right.key, t.right.right)
  }

  /** `rotateRight`, the mirror image. */
  function RotR(t: Tree): Tree
    requires t.Node? && t.left.Node?
  {
    Node(t.red, t.left.left, t.left.key, Node(RED, t.left.right, t.key, t.right))
  }

  /** `flipColors`: toggles a node and both children when both children exist. */
  function Flip(t: Tree): Tree {
    if t.Node? && t.left.Node? && t.right.Node? then
      Node(!t.red, t.left.(red := !t.left.red), t.key, t.right.(red := !t.right.red))
    else t
  }

  /** The three fix-ups `insertRecursive` applies, in order, on the way back up. */
  function Balance(t: Tree): Tree
    requires t.Node?
  {
    var t1 := if IsRed(t.right) && !IsRed(t.left) then RotL(t) else t;
    var t2 := if IsRed(t1.left) && IsRed(t1.left.left) then RotR(t1) else t1;
    if IsRed(t2.left) && IsRed(t2.right) then Flip(t2) else t2
  }

  /** `insertRecursive`: a red leaf where the search ends, the subtree on the search path
      replaced, then rebalancing; for a key already present only the rebalancing runs. */
  function Ins(t: Tree, k: Key): Tree {
    match t
    case Leaf => Node(RED, Leaf, k, Leaf)
    case Node(c, l, x, r) =>
      if Less(k, x) then Balance(Node(c, Ins(l, k), x, r))
      else if Less(x, k) then Balance(Node(c, l, x, Ins(r, k)))
      else Balance(t)
  }

  function Blacken(t: Tree): Tree {
    if t.Node? then t.(red := BLACK) else t
  }

  /** `insertSectorByCoordinates`: insert, then force the root black. */
  function LlrbInsert(t: Tree, k: Key): Tree {
    Blacken(Ins(t, k))
  }

  // ---------------------------------------------------------------- order

  /** A rotation keeps the in-order key sequence, and rotating back undoes it
      when the promoted child was red. */
  lemma RotLProperties(t: Tree)
    requires t.Node? && t.right.Node?
    ensures InOrder(RotL(t)) == InOrder(t)
    ensures IsRed(t.right) ==> RotR(RotL(t)) == t
  {
  }

  lemma RotRProperties(t: Tree)
    requires t.Node? && t.left.Node?
    ensures InOrder(RotR(t)) == InOrder(t)
    ensures IsRed(t.left) ==> RotL(RotR(t)) == t
  {
  }

  /** The flip keeps the keys and undoes itself. */
  lemma FlipProperties(t: Tree)
    ensures InOrder(Flip(t)) == InOrder(t)
    ensures Flip(Flip(t)) == t
  {
  }

  lemma BalanceInOrder(t: Tree)
    requires t.Node?
    ensures InOrder(Balance(t)) == InOrder(t)
  {
    var t1 := if IsRed(t.right) && !IsRed(t.left) then RotL(t) else t;
    if IsRed(t.right) && !IsRed(t.left) { RotLProperties(t); }
    var t2 := if IsRed(t1.left) && IsRed(t1.left.left) then RotR(t1) else t1;
    if IsRed(t1.left) && IsRed(t1.left.left) { RotRProperties(t1); }
    FlipProperties(t2);
  }

  /** Rebalancing never moves a key: the LLRB insertion orders keys as the plain BST
      insertion does. */
  lemma {:induction false} InsInOrder(t: Tree, k: Key)
    ensures InOrder(Ins(t, k)) == InOrder(BstInsert(t, k))
  {
    match t
    case Leaf =>
    case Node(c, l, x, r) =>
      if Less(k, x) {
        InsInOrder(l, k);
        BalanceInOrder(Node(c, Ins(l, k), x, r));
      } else if Less(x, k) {
        InsInOrder(r, k);
        BalanceInOrder(Node(c, l, x, Ins(r, k)));
      } else {
        BalanceInOrder(t);
      }
  }

  /** Insertion into an ordered tree puts the key at its place among the others
      (and changes no keys when it is already present); the tree stays ordered and its
      key set gains exactly the new key. */
  lemma LlrbInsertOrdered(t: Tree, k: Key)
    requires Ordered(t)
    ensures InOrder(LlrbInsert(t, k)) == Below(InOrder(t), k) + [k] + Above(InOrder(t), k)
    ensures Ordered(LlrbInsert(t, k))
    ensures forall y :: y in KeySet(LlrbInsert(t, k)) <==> y in KeySet(t) || y == k
  {
    InsInOrder(t, k);
    BstInsertInOrder(t, k);
    var t2 := Ins(t, k);
    assert InOrder(Blacken(t2)) == InOrder(t2);
    KeySetMembers(t);
    KeySetMembers(LlrbInsert(t, k));
    InsertMembers(InOrder(t), k);
  }

  /** Splitting a sorted sequence around a key and putting the key between the parts
      adds the key and nothing else. */
  lemma InsertMembers(s: seq<Key>, k: Key)
    requires Increasing(s)
    ensures forall y :: y in Below(s, k) + [k] + Above(s, k) <==> y in s || y == k
  {
    SplitAt(s, k);
  }

  // ---------------------------------------------------------------- balance invariants

  /** Black links from a node down its left spine; equal in every direction when `Balanced`. */
  function BlackHeight(t: Tree): nat {
    match t
    case Leaf => 0
    case Node(c, l, _, _) => (if c then 0 else 1) + BlackHeight(l)
  }

  /** Every path from a node to a leaf crosses the same number of black nodes. */
  predicate Balanced(t: Tree) {
    match t
    case Leaf => true
    case Node(_, l, _, r) => Balanced(l) && Balanced(r) && BlackHeight(l) == BlackHeight(r)
  }

  /** Red links lean left: no right child is red. */
  predicate LeansLeft(t: Tree) {
    match t
    case Leaf => true
    case Node(_, l, _, r) => !IsRed(r) && LeansLeft(l) && LeansLeft(r)
  }

  /** No red node has a red left child. */
  predicate NoRedRed(t: Tree) {
    match t
    case Leaf => true
    case Node(c, l, _, r) => !(c && IsRed(l)) && NoRedRed(l) && NoRedRed(r)
  }

  /** A left-leaning red-black tree (a 2-3 tree drawn with red left links). */
  predicate IsLlrb(t: Tree) {
    Balanced(t) && LeansLeft(t) && NoRedRed(t)
  }

  /** On a valid tree the three fix-ups do nothing. */
  lemma BalanceValid(t: Tree)
    requires t.Node? && IsLlrb(t)
    ensures Balance(t) == t
  {
    assert !IsRed(t.right) && NoRedRed(t.left);
    if t.left.Node? {
      assert !(t.left.red && IsRed(t.left.left));
    }
  }

  /** Rebalancing after an insertion into the left subtree. */
  lemma BalanceAfterLeft(c: bool, l: Tree, x: Key, r: Tree)
    requires l.Node? && Balanced(l) && LeansLeft(l) && NoRedRed(l.left) && NoRedRed(l.right)
    requires IsLlrb(r) && !IsRed(r) && BlackHeight(l) == BlackHeight(r)
    requires c ==> NoRedRed(l)
    ensures var b := Balance(Node(c, l, x, r));
      b.Node? && Balanced(b) && LeansLeft(b)
      && BlackHeight(b) == BlackHeight(Node(c, l, x, r))
      && (!c ==> NoRedRed(b))
      && (c ==> IsRed(b) && NoRedRed(b.left) && NoRedRed(b.right))
  {
    if IsRed(l) && IsRed(l.left) {
      var t1 := RotR(Node(c, l, x, r));
      assert Balance(Node(c, l, x, r)) == Flip(t1);
    }
  }

  /** Rebalancing after an insertion into the right subtree. */
  lemma BalanceAfterRight(c: bool, l: Tree, x: Key, r: Tree)
    requires r.Node? && IsLlrb(r) && IsLlrb(l) && BlackHeight(l) == BlackHeight(r)
    requires c ==> !IsRed(l)
    ensures var b := Balance(Node(c, l, x, r));
      b.Node? && Balanced(b) && LeansLeft(b)
      && BlackHeight(b) == BlackHeight(Node(c, l, x, r))
      && (!c ==> NoRedRed(b))
      && (c ==> IsRed(b) && NoRedRed(b.left) && NoRedRed(b.right))
  {
    if IsRed(r) && !IsRed(l) {
      var t1 := RotL(Node(c, l, x, r));
      assert Balance(Node(c, l, x, r)) == t1;
    } else if IsRed(r) {
      assert Balance(Node(c, l, x, r)) == Flip(Node(c, l, x, r));
    }
  }

  /** The invariant of the recursion: the black height is kept and red links lean left;
      below a black node the result is a valid tree (possibly with a red root), below a
      red node it is red with at most one red-red pair, at its top on the left. */
  lemma {:induction false} InsInvariant(t: Tree, k: Key)
    requires IsLlrb(t)
    ensures var r := Ins(t, k);
      r.Node? && Balanced(r) && LeansLeft(r) && BlackHeight(r) == BlackHeight(t)
      && (!IsRed(t) ==> NoRedRed(r))
      && (IsRed(t) ==> IsRed(r) && NoRedRed(r.left) && NoRedRed(r.right))
  {
    match t
    case Leaf =>
    case Node(c, l, x, r) =>
      if Less(k, x) {
        InsInvariant(l, k);
        BalanceAfterLeft(c, Ins(l, k), x, r);
      } else if Less(x, k) {
        InsInvariant(r, k);
        BalanceAfterRight(c, l, x, Ins(r, k));
      } else {
        BalanceValid(t);
      }
  }

  /** `insertSectorByCoordinates` keeps a valid left-leaning red-black tree with a black
      root; the black height grows by at most one. */
  lemma LlrbInsertValid(t: Tree, k: Key)
    requires IsLlrb(t)
    ensures IsLlrb(LlrbInsert(t, k)) && !IsRed(LlrbInsert(t, k))
    ensures BlackHeight(t) <= BlackHeight(LlrbInsert(t, k)) <= BlackHeight(t) + 1
  {
    InsInvariant(t, k);
  }

  /** On a valid tree, inserting a key that is already present changes nothing. */
  lemma {:induction false} InsPresent(t: Tree, k: Key)
    requires IsLlrb(t) && Found(t, k)
    ensures Ins(t, k) == t
  {
    match t
    case Node(c, l, x, r) =>
      if Less(k, x) {
        InsPresent(l, k);
      } else if Less(x, k) {
        InsPresent(r, k);
      }
      BalanceValid(t);
  }
}
