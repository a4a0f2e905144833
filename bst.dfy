/** The unbalanced sector BST, keyed on (x, y, z) in the composite order. */
module SectorBST {
  import opened Sectors
  import opened SectorTrees
  import opened SectorSplice

  // ---------------------------------------------------------------- pure insertion

  /** What `insertRecursive` does to the tree of keys: a new sector hangs where the
      search for its key ends; a key already present leaves the tree as it is. */
  function BstInsert(t: Tree, k: Key): Tree {
    match t
    case Leaf => Node(RED, Leaf, k, Leaf)
    case Node(c, l, x, r) =>
      if Less(k, x) then Node(c, BstInsert(l, k), x, r)
      else if Less(x, k) then Node(c, l, x, BstInsert(r, k))
      else t
  }

  /** The search `insertRecursive` performs: true when it meets a node with the key. */
  predicate Found(t: Tree, k: Key) {
    match t
    case Leaf => false
    case Node(_, l, x, r) => if Less(k, x) then Found(l, k) else if Less(x, k) then Found(r, k) else true
  }

  lemma IncreasingParts(a: seq<Key>, x: Key, b: seq<Key>)
    requires Increasing(a + [x] + b)
    ensures Increasing(a) && Increasing(b)
    ensures forall y :: y in a ==> Less(y, x)
    ensures forall y :: y in b ==> Less(x, y)
  {
    var s := a + [x] + b;
    forall i, j | 0 <= i < j < |b| ensures Less(b[i], b[j]) {
      assert s[|a| + 1 + i] == b[i] && s[|a| + 1 + j] == b[j];
    }
    forall y | y in a ensures Less(y, x) {
      var i :| 0 <= i < |a| && a[i] == y;
      assert s[i] == y && s[|a|] == x;
    }
    forall y | y in b ensures Less(x, y) {
      var i :| 0 <= i < |b| && b[i] == y;
      assert s[|a| + 1 + i] == y && s[|a|] == x;
    }
    forall i, j | 0 <= i < j < |a| ensures Less(a[i], a[j]) {
      assert s[i] == a[i] && s[j] == a[j];
    }
  }

  /** A sorted sequence around one of its own elements: below it is its prefix, above it its suffix. */
  lemma PositionSplit(a: seq<Key>, x: Key, b: seq<Key>)
    requires Increasing(a + [x] + b)
    ensures Below(a + [x] + b, x) == a && Above(a + [x] + b, x) == b
  {
    IncreasingParts(a, x, b);
    BelowAboveSplit(a + [x], b, x);
    BelowAboveSplit(a, [x], x);
    AllBelow(a, x);
    AllAbove(b, x);
    forall y | y in a ensures !Less(x, y) { LessIsStrictTotalOrder(y, x, y); }
    forall y | y in b ensures !Less(y, x) { LessIsStrictTotalOrder(x, y, x); }
    NoneAbove(a, x);
    NoneBelow(b, x);
    LessIsStrictTotalOrder(x, x, x);
    assert Below([x], x) == [] && Above([x], x) == [];
  }

  /** Insertion puts the key between the keys below it and the keys above it: it adds
      the key when absent, changes nothing when present, and keeps the order. */
  lemma BstInsertInOrder(t: Tree, k: Key)
    requires Ordered(t)
    ensures InOrder(BstInsert(t, k)) == Below(InOrder(t), k) + [k] + Above(InOrder(t), k)
    ensures Ordered(BstInsert(t, k))
    ensures Found(t, k) ==> BstInsert(t, k) == t
  {
    BstInsertSplits(t, k);
    SortedAroundKey(InOrder(t), k);
    FoundUnchanged(t, k);
  }

  lemma {:induction false} BstInsertSplits(t: Tree, k: Key)
    requires Ordered(t)
    ensures InOrder(BstInsert(t, k)) == Below(InOrder(t), k) + [k] + Above(InOrder(t), k)
  {
    match t
    case Leaf =>
    case Node(c, l, x, r) =>
      var a, b := InOrder(l), InOrder(r);
      IncreasingParts(a, x, b);
      if Less(k, x) {
        BstInsertSplits(l, k);
        InsertLeftCase(a, x, b, k, InOrder(BstInsert(l, k)));
      } else if Less(x, k) {
        BstInsertSplits(r, k);
        InsertRightCase(a, x, b, k, InOrder(BstInsert(r, k)));
      } else {
        LessIsStrictTotalOrder(x, k, x);
        PositionSplit(a, x, b);
      }
  }

  /** The left step of BstInsertSplits on sequences: inserting into the left part. */
  lemma InsertLeftCase(a: seq<Key>, x: Key, b: seq<Key>, k: Key, a2: seq<Key>)
    requires Increasing(a + [x] + b) && Less(k, x)
    requires a2 == Below(a, k) + [k] + Above(a, k)
    ensures a2 + [x] + b == Below(a + [x] + b, k) + [k] + Above(a + [x] + b, k)
  {
    KeysLeftOf(a, x, b, k);
  }

  lemma InsertRightCase(a: seq<Key>, x: Key, b: seq<Key>, k: Key, b2: seq<Key>)
    requires Increasing(a + [x] + b) && Less(x, k)
    requires b2 == Below(b, k) + [k] + Above(b, k)
    ensures a + [x] + b2 == Below(a + [x] + b, k) + [k] + Above(a + [x] + b, k)
  {
    KeysRightOf(a, x, b, k);
  }

  /** Inserting a key the search finds returns the tree unchanged. */
  lemma {:induction false} FoundUnchanged(t: Tree, k: Key)
    ensures Found(t, k) ==> BstInsert(t, k) == t
  {
    if t.Node? {
      FoundUnchanged(t.left, k);
      FoundUnchanged(t.right, k);
    }
  }

  /** A key below the node's key splits only the left part. */
  lemma KeysLeftOf(a: seq<Key>, x: Key, b: seq<Key>, k: Key)
    requires Increasing(a + [x] + b) && Less(k, x)
    ensures Below(a + [x] + b, k) == Below(a, k)
    ensures Above(a + [x] + b, k) == Above(a, k) + [x] + b
  {
    IncreasingParts(a, x, b);
    BelowAboveSplit(a + [x], b, k);
    BelowAboveSplit(a, [x], k);
    forall y | y in b ensures Less(k, y) {
      LessIsStrictTotalOrder(k, x, y);
    }
    forall y | y in [x] + b ensures !Less(y, k) {
      LessIsStrictTotalOrder(k, y, k);
    }
    NoneBelow([x] + b, k);
    BelowAboveSplit([x], b, k);
    AllAbove(b, k);
    assert Above([x], k) == [x];
  }

  /** A key above the node's key splits only the right part. */
  lemma KeysRightOf(a: seq<Key>, x: Key, b: seq<Key>, k: Key)
    requires Increasing(a + [x] + b) && Less(x, k)
    ensures Below(a + [x] + b, k) == a + [x] + Below(b, k)
    ensures Above(a + [x] + b, k) == Above(b, k)
  {
    IncreasingParts(a, x, b);
    BelowAboveSplit(a + [x], b, k);
    BelowAboveSplit(a, [x], k);
    forall y | y in a ensures Less(y, k) {
      LessIsStrictTotalOrder(y, x, k);
    }
    forall y | y in a + [x] ensures !Less(k, y) {
      LessIsStrictTotalOrder(y, k, y);
    }
    NoneAbove(a + [x], k);
    AllBelow(a, k);
    assert Below([x], k) == [x];
  }

  /** For an ordered tree the search finds exactly the keys the tree holds. */
  lemma {:induction false} FoundIffMember(t: Tree, k: Key)
    requires Ordered(t)
    ensures Found(t, k) <==> k in InOrder(t)
  {
    match t
    case Leaf =>
    case Node(_, l, x, r) =>
      var a, b := InOrder(l), InOrder(r);
      IncreasingParts(a, x, b);
      LessIsStrictTotalOrder(x, k, x);
      if Less(k, x) {
        FoundIffMember(l, k);
        forall y | y in b ensures y != k { LessIsStrictTotalOrder(k, x, y); }
      } else if Less(x, k) {
        FoundIffMember(r, k);
        forall y | y in a ensures y != k { LessIsStrictTotalOrder(y, x, k); }
      }
  }

  // ---------------------------------------------------------------- the arena tree

  class SpaceSectorBST {
    /** The sectors, by handle. */
    var nodes: Arena
    var root: Link
    /** The handle the next `new Sector` receives. */
    var next: Handle
    /** Which handles form the tree. */
    ghost var shape: Shape

    /** The pointer structure is a tree: child and parent links agree with the shape,
        the root's parent is null, and every sector's derived fields are correct. */
    ghost predicate Sound()
      reads this
    {
      SoundTree(shape, nodes, root, next)
    }

    /** Sound, and in-order traversal is strictly increasing in (x, y, z). */
    ghost predicate Valid()
      reads this
    {
      Sound() && Ordered(View(shape, nodes))
    }

    /** The keys in in-order. */
    ghost function Keys(): seq<Key>
      reads this
    {
      InOrder(View(shape, nodes))
    }

    constructor ()
      ensures Valid() && Keys() == [] && root == Null
    {
      nodes := map[];
      root := Null;
      next := 0;
      shape := Empty;
    }

    /** `insertSectorByCoordinates`. A sector is only constructed when the key is
        absent, so only then must its squared distance fit in an `int`. */
    method InsertSectorByCoordinates(x: int, y: int, z: int)
      requires Valid()
      requires (x, y, z) !in Keys() ==> NoOverflow(x, y, z)
      modifies this
      ensures Valid()
      ensures View(shape, nodes) == BstInsert(old(View(shape, nodes)), (x, y, z))
      ensures Keys() == Below(old(Keys()), (x, y, z)) + [(x, y, z)] + Above(old(Keys()), (x, y, z))
      ensures (x, y, z) in old(Keys()) ==> nodes == old(nodes) && root == old(root)
    {
      FoundIffMember(View(shape, nodes), (x, y, z));
      var r, t := InsertRecursive(root, Null, x, y, z, shape);
      root := r;
      shape := t;
      BstInsertInOrder(View(old(shape), old(nodes)), (x, y, z));
      WellFormedKept(old(nodes), nodes, old(next));
    }

    /** `insertRecursive` on the subtree `t` whose top node hangs from `parent`. */
    method InsertRecursive(node: Link, parent: Link, x: int, y: int, z: int, ghost t: Shape)
      returns (r: Link, ghost t2: Shape)
      requires Linked(t, parent, nodes) && Distinct(t) && node == LinkOf(t)
      requires forall g :: g in nodes ==> g < next
      requires !Found(View(t, nodes), (x, y, z)) ==> NoOverflow(x, y, z)
      modifies this`nodes, this`next
      ensures Linked(t2, parent, nodes) && Distinct(t2) && r == LinkOf(t2)
      ensures View(t2, nodes) == BstInsert(View(t, old(nodes)), (x, y, z))
      ensures Grew(old(nodes), nodes, t, t2, old(next), next)
      ensures Found(View(t, old(nodes)), (x, y, z)) ==> nodes == old(nodes) && t2 == t
      decreases t
    {
      if node == Null {
        var s := NewSector(x, y, z);
        s := s.(parent := parent);
        var h := next;
        NewLeaf(nodes, h, s, parent);
        nodes := nodes[h := s];
        next := next + 1;
        r := Ptr(h);
        t2 := Fork(Empty, h, Empty);
      } else {
        var n := nodes[node.h];
        if x < n.x || (x == n.x && y < n.y) || (x == n.x && y == n.y && z < n.z) {
          var c, tl := InsertRecursive(n.left, node, x, y, z, t.left);
          AttachLeft(t, parent, old(nodes), nodes, tl, old(next), next, (x, y, z));
          nodes := nodes[node.h := nodes[node.h].(left := c)];
          t2 := Fork(tl, t.h, t.right);
        } else if x > n.x || (x == n.x && y > n.y) || (x == n.x && y == n.y && z > n.z) {
          var c, tr := InsertRecursive(n.right, node, x, y, z, t.right);
          AttachRight(t, parent, old(nodes), nodes, tr, old(next), next, (x, y, z));
          nodes := nodes[node.h := nodes[node.h].(right := c)];
          t2 := Fork(t.left, t.h, tr);
        } else {
          ShapedInArena(t, nodes);
          t2 := t;
        }
        r := node;
      }
    }
    /** `deleteSector`: the first sector in level order that carries the code is removed;
        an unknown code leaves the tree as it is. */
    method DeleteSector(code: string)
      requires Valid()
      modifies this
      ensures Valid()
      ensures var f := FirstMatch(LevelOrder(old(shape)), old(nodes), code);
        (f == Null ==> nodes == old(nodes) && shape == old(shape) && root == old(root))
        && (f != Null ==>
              f.h in old(nodes) && old(nodes)[f.h].code == code
              && Keys() == Below(old(Keys()), KeyAt(old(nodes), f.h)) + Above(old(Keys()), KeyAt(old(nodes), f.h))
              && if old(nodes)[f.h].left != Null && old(nodes)[f.h].right != Null
                 then SuccessorSwappedOut(old(shape), old(nodes), f.h, shape, nodes)
                 else shape == Splice(old(shape), f.h) && nodes == Unlink(old(nodes), f.h))
    {
      var target := FindSectorByCode(code);
      if target == Null {
        return;
      }
      var d := target.h;
      if nodes[d].left == Null && nodes[d].right == Null {
        DeleteLeafNode(d);
        SpliceRemovesKey(old(shape), old(nodes), d);
      } else if nodes[d].left == Null || nodes[d].right == Null {
        DeleteNodeWithOneChild(d);
        SpliceRemovesKey(old(shape), old(nodes), d);
      } else {
        DeleteNodeWithTwoChildren(d);
      }
    }

    /** `deleteLeafNode`: the parent's slot (or the root) that held the node becomes null. */
    method DeleteLeafNode(d: Handle)
      requires Sound() && d in nodes && nodes[d].left == Null && nodes[d].right == Null
      modifies this
      ensures Sound()
      ensures shape == Splice(old(shape), d) && nodes == Unlink(old(nodes), d)
    {
      SpliceSound(shape, nodes, d, next);
      UnlinkSteps(nodes, d);
      ghost var nodes', root' := Unlink(nodes, d), LinkOf(Splice(shape, d));
      var p := nodes[d].parent;
      var m := nodes;
      if p == Null {
        root := Null;
      } else if Ptr(d) == m[p.h].left {
        m := m[p.h := m[p.h].(left := Null)];
      } else {
        m := m[p.h := m[p.h].(right := Null)];
      }
      assert m - {d} == nodes' && root == root';
      nodes := m - {d};
      shape := Splice(shape, d);
    }

    /** `deleteNodeWithOneChild`: the only child takes the node's place under its parent. */
    method DeleteNodeWithOneChild(d: Handle)
      requires Sound() && d in nodes && (nodes[d].left == Null) != (nodes[d].right == Null)
      modifies this
      ensures Sound()
      ensures shape == Splice(old(shape), d) && nodes == Unlink(old(nodes), d)
    {
      SpliceSound(shape, nodes, d, next);
      UnlinkSteps(nodes, d);
      ghost var nodes', root' := Unlink(nodes, d), LinkOf(Splice(shape, d));
      var child := if nodes[d].left != Null then nodes[d].left else nodes[d].right;
      var p := nodes[d].parent;
      var m := nodes;
      if p == Null {
        root := child;
      } else if Ptr(d) == m[p.h].left {
        m := m[p.h := m[p.h].(left := child)];
      } else {
        m := m[p.h := m[p.h].(right := child)];
      }
      m := m[child.h := m[child.h].(parent := p)];
      assert m - {d} == nodes' && root == root';
      nodes := m - {d};
      shape := Splice(shape, d);
    }

    /** `deleteNodeWithTwoChildren`: the data of the in-order successor is swapped in and
        the successor, which has no left child, is removed in its place. */
    method DeleteNodeWithTwoChildren(d: Handle)
      requires Valid() && d in nodes && nodes[d].left != Null && nodes[d].right != Null
      modifies this
      ensures Valid()
      ensures Keys() == Below(old(Keys()), KeyAt(old(nodes), d)) + Above(old(Keys()), KeyAt(old(nodes), d))
      ensures SuccessorSwappedOut(old(shape), old(nodes), d, shape, nodes)
    {
      SubtreeAtShaped(shape, nodes, d);
      var s := FindMinNode(nodes[d].right, SubtreeAt(shape, d).right);
      ghost var s' := SwapSpliceRemovesKey(shape, nodes, d);
      SwapSound(shape, nodes, d, s, next);
      SwapData(d, s);
      if nodes[s].left != Null || nodes[s].right != Null {
        DeleteNodeWithOneChild(s);
      } else {
        DeleteLeafNode(s);
      }
      SwappedOutFrom(old(shape), old(nodes), d, s, shape, nodes);
    }

    /** The five `std::swap` calls of `deleteNodeWithTwoChildren`: the coordinates,
        distance and code of `d` and `s` trade places; links and colours stay. */
    method SwapData(d: Handle, s: Handle)
      requires d in nodes && s in nodes
      modifies this`nodes
      ensures nodes == Swap(old(nodes), d, s)
    {
      var a, b := nodes[d], nodes[s];
      nodes := nodes[d := Assign(a, b)][s := Assign(b, a)];
    }

    /** `findMinNode`: follows left links to the end of the left spine. */
    method FindMinNode(start: Link, ghost st: Shape) returns (s: Handle)
      requires start != Null && Shaped(st, nodes) && start == LinkOf(st)
      ensures s == Leftmost(st) && s in nodes && nodes[s].left == Null
    {
      var current := start.h;
      ghost var ct := st;
      while nodes[current].left != Null
        invariant ct.Fork? && Shaped(ct, nodes) && current == ct.h && Leftmost(ct) == Leftmost(st)
        decreases Size(ct)
      {
        current := nodes[current].left.h;
        ct := ct.left;
      }
      s := current;
    }

    /** `findSectorByCode`: the breadth-first search from the root. The result is null
        exactly when no sector carries the code; otherwise it carries the code. */
    method FindSectorByCode(code: string) returns (r: Link)
      requires Sound()
      ensures r == FirstMatch(LevelOrder(shape), nodes, code)
      ensures r == Null <==> forall g :: g in nodes ==> nodes[g].code != code
      ensures r != Null ==> r.h in nodes && nodes[r.h].code == code
    {
      r := FindSectorByCodeBFS(root, code, shape);
      LevelOrderSpec(shape, nodes, code);
    }

    /** `findSectorByCodeBFS`: a FIFO queue of non-null sectors, children pushed left
        first; the first dequeued sector with the code is returned. */
    method FindSectorByCodeBFS(start: Link, code: string, ghost t: Shape) returns (r: Link)
      requires Shaped(t, nodes) && start == LinkOf(t)
      ensures r == FirstMatch(LevelOrder(t), nodes, code)
    {
      if start == Null {
        return Null;
      }
      var q := [start.h];
      ghost var qs := [t];
      while q != []
        invariant Queued(q, qs, nodes)
        invariant FirstMatch(LevelOrder(t), nodes, code) == FirstMatch(Bfs(qs), nodes, code)
        decreases SizeAll(qs)
      {
        var current := q[0];
        ghost var qs0, top := qs, qs[0];
        BfsStep(qs, nodes, code);
        QueuedTail(q, qs, nodes);
        q, qs := q[1..], qs[1..];
        if nodes[current].code == code {
          return Ptr(current);
        }
        if nodes[current].left != Null {
          QueuedPush(q, qs, nodes, top.left);
          q, qs := q + [nodes[current].left.h], qs + [top.left];
        }
        if nodes[current].right != Null {
          QueuedPush(q, qs, nodes, top.right);
          q, qs := q + [nodes[current].right.h], qs + [top.right];
        }
        assert qs == qs0[1..] + Kids(top);
      }
      r := Null;
    }

    /** `getStellarPath`: from the sector the pre-order search finds, parent links are
        followed up to the root and the collected path is reversed. The path runs from
        the root to that sector, each step from a node to one of its children; it is
        empty when no sector carries the code. */
    method GetStellarPath(code: string) returns (path: seq<Handle>)
      requires Sound()
      ensures var f := FindSector(nodes, root, code, shape);
        path == (if f == Null then [] else RootPath(shape, f.h))
      ensures FindSector(nodes, root, code, shape) == Null <==> path == []
      ensures path != [] ==>
        LinkOf(shape) == Ptr(path[0]) && FindSector(nodes, root, code, shape) == Ptr(path[|path| - 1])
        && (forall i :: 0 <= i < |path| ==> path[i] in nodes)
        && forall i :: 1 <= i < |path| ==>
             (nodes[path[i]].parent == Ptr(path[i - 1])
              && (nodes[path[i - 1]].left == Ptr(path[i]) || nodes[path[i - 1]].right == Ptr(path[i])))
    {
      var destination := FindSector(nodes, root, code, shape);
      path := [];
      if destination == Null {
        return;
      }
      ghost var rp := RootPath(shape, destination.h);
      assert destination.h in Handles(shape) by { FindSectorSpec(nodes, shape, code); }
      assert UpChain(nodes, rp) && rp[|rp| - 1] == destination.h by {
        RootPathLinks(shape, Null, nodes, destination.h);
      }
      path := ClimbToRoot(nodes, destination, rp);
      ReverseReverse(rp);
      path := Reverse(path);
      FindSectorSpec(nodes, shape, code);
      RootPathLinks(shape, Null, nodes, destination.h);
    }
  }

  /** The walk of `getStellarPath`: push the current sector and move to its parent until
      the parent is null. Along a parent chain it collects the chain backwards. */
  method ClimbToRoot(m: Arena, start: Link, ghost rp: seq<Handle>) returns (path: seq<Handle>)
    requires UpChain(m, rp) && start == Ptr(rp[|rp| - 1])
    ensures path == Reverse(rp)
  {
    path := [];
    var current := start;
    while current != Null
      invariant |path| <= |rp|
      invariant forall i :: 0 <= i < |path| ==> path[i] == rp[|rp| - 1 - i]
      invariant current == if |path| < |rp| then Ptr(rp[|rp| - 1 - |path|]) else Null
      decreases |rp| - |path|
    {
      ghost var k := |rp| - 1 - |path|;
      assert rp[k] in m && m[rp[k]].parent == if k == 0 then Null else Ptr(rp[k - 1]);
      path := path + [current.h];
      current := m[current.h].parent;
    }
  }

  /** The arena holds exactly the sectors of `t`, linked as `t` says, rooted at `r`,
      with handles below `n` and correct derived fields. */
  ghost predicate SoundTree(t: Shape, m: Arena, r: Link, n: Handle) {
    Linked(t, Null, m) && Distinct(t) && (forall g :: g in Handles(t) <==> g in m)
    && r == LinkOf(t)
    && (forall g :: g in m ==> g < n && WellFormed(m[g]))
  }

  /** Replacing a subtree by one that gained at most a fresh handle keeps handles distinct. */
  lemma GrowLeft(t: Shape, l2: Shape, n: Handle)
    requires t.Fork? && Distinct(t) && Distinct(l2)
    requires forall g :: g in Handles(t) ==> g < n
    requires forall g :: g in Handles(l2) ==> g in Handles(t.left) || g == n
    ensures Distinct(Fork(l2, t.h, t.right))
  {
    assert t.h in Handles(t) && t.h !in Handles(t.left);
    forall g | g in Handles(l2) ensures g != t.h && g !in Handles(t.right) {
      if g == n {
        assert g !in Handles(t);
      }
    }
  }

  lemma GrowRight(t: Shape, r2: Shape, n: Handle)
    requires t.Fork? && Distinct(t) && Distinct(r2)
    requires forall g :: g in Handles(t) ==> g < n
    requires forall g :: g in Handles(r2) ==> g in Handles(t.right) || g == n
    ensures Distinct(Fork(t.left, t.h, r2))
  {
    assert t.h in Handles(t) && t.h !in Handles(t.right);
    forall g | g in Handles(r2) ensures g != t.h && g !in Handles(t.left) {
      if g == n {
        assert g !in Handles(t);
      }
    }
  }

  /** Hanging the grown left subtree `tl` back under the top node of `t` after an
      insertion below a smaller key: the result is a linked tree, its view is the
      insertion into the old view, and a key already present changes nothing. */
  lemma AttachLeft(t: Shape, up: Link, m0: Arena, m1: Arena, tl: Shape, n0: Handle, n1: Handle, k: Key)
    requires t.Fork? && Linked(t, up, m0) && Distinct(t)
    requires forall g :: g in m0 ==> g < n0
    requires Linked(tl, Ptr(t.h), m1) && Distinct(tl)
    requires Grew(m0, m1, t.left, tl, n0, n1)
    requires Less(k, KeyAt(m0, t.h))
    requires View(tl, m1) == BstInsert(View(t.left, m0), k)
    requires Found(View(t.left, m0), k) ==> m1 == m0 && tl == t.left
    ensures var m2 := m1[t.h := m1[t.h].(left := LinkOf(tl))];
      var t2 := Fork(tl, t.h, t.right);
      Linked(t2, up, m2) && Distinct(t2)
      && View(t2, m2) == BstInsert(View(t, m0), k)
      && (Found(View(t, m0), k) ==> m2 == m0 && t2 == t)
      && Grew(m0, m2, t, t2, n0, n1)
  {
    AttachLeftLinks(t, up, m0, m1, tl, n0, n1);
    if Found(View(t, m0), k) {
      var m2 := m1[t.h := m1[t.h].(left := LinkOf(tl))];
      assert m2[t.h] == m0[t.h];
    }
  }

  lemma AttachLeftLinks(t: Shape, up: Link, m0: Arena, m1: Arena, tl: Shape, n0: Handle, n1: Handle)
    requires t.Fork? && Linked(t, up, m0) && Distinct(t)
    requires forall g :: g in m0 ==> g < n0
    requires Linked(tl, Ptr(t.h), m1) && Distinct(tl)
    requires Grew(m0, m1, t.left, tl, n0, n1)
    ensures var m2 := m1[t.h := m1[t.h].(left := LinkOf(tl))];
      var t2 := Fork(tl, t.h, t.right);
      Linked(t2, up, m2) && Distinct(t2)
      && View(t2, m2) == Node(RedAt(m0, t.h), View(tl, m1), KeyAt(m0, t.h), View(t.right, m0))
      && Grew(m0, m2, t, t2, n0, n1)
  {
    var m2 := m1[t.h := m1[t.h].(left := LinkOf(tl))];
    ShapedInArena(t, m0);
    GrowLeft(t, tl, n0);
    assert m1[t.h] == m0[t.h];
    FrameAfterChild(t.right, Ptr(t.h), m0, m2);
    FrameAfterChild(tl, Ptr(t.h), m1, m2);
    AttachLeftGrew(t, m0, m1, tl, n0, n1);
  }

  lemma AttachLeftGrew(t: Shape, m0: Arena, m1: Arena, tl: Shape, n0: Handle, n1: Handle)
    requires t.Fork? && t.h in m0 && Distinct(t) && (forall g :: g in Handles(t) ==> g in m0)
    requires Grew(m0, m1, t.left, tl, n0, n1)
    ensures Grew(m0, m1[t.h := m1[t.h].(left := LinkOf(tl))], t, Fork(tl, t.h, t.right), n0, n1)
  {
    var m2 := m1[t.h := m1[t.h].(left := LinkOf(tl))];
    var t2 := Fork(tl, t.h, t.right);
    assert m1[t.h] == m0[t.h];
    assert Handles(t2) == Handles(t2.left) + {t.h} + Handles(t2.right);
    assert Handles(t) == Handles(t.left) + {t.h} + Handles(t.right);
    forall g | g in m0 && g !in Handles(t) ensures g in m2 && m2[g] == m0[g] {
      assert g !in Handles(t.left);
    }
    forall g ensures g in m2 <==> g in m0 || g in Handles(t2) {
      assert g in m2 <==> g in m1 || g == t.h;
    }
    forall g | g in m0 ensures Payload(m2[g]) == Payload(m0[g]) {
      if g == t.h { assert Payload(m1[g]) == Payload(m0[g]); }
    }
  }



  /** The mirror image of AttachLeft, for an insertion below a larger key. */
  lemma AttachRight(t: Shape, up: Link, m0: Arena, m1: Arena, tr: Shape, n0: Handle, n1: Handle, k: Key)
    requires t.Fork? && Linked(t, up, m0) && Distinct(t)
    requires forall g :: g in m0 ==> g < n0
    requires Linked(tr, Ptr(t.h), m1) && Distinct(tr)
    requires Grew(m0, m1, t.right, tr, n0, n1)
    requires Less(KeyAt(m0, t.h), k)
    requires View(tr, m1) == BstInsert(View(t.right, m0), k)
    requires Found(View(t.right, m0), k) ==> m1 == m0 && tr == t.right
    ensures var m2 := m1[t.h := m1[t.h].(right := LinkOf(tr))];
      var t2 := Fork(t.left, t.h, tr);
      Linked(t2, up, m2) && Distinct(t2)
      && View(t2, m2) == BstInsert(View(t, m0), k)
      && (Found(View(t, m0), k) ==> m2 == m0 && t2 == t)
      && Grew(m0, m2, t, t2, n0, n1)
  {
    AttachRightLinks(t, up, m0, m1, tr, n0, n1);
    if Found(View(t, m0), k) {
      var m2 := m1[t.h := m1[t.h].(right := LinkOf(tr))];
      assert m2[t.h] == m0[t.h];
    }
  }

  lemma AttachRightLinks(t: Shape, up: Link, m0: Arena, m1: Arena, tr: Shape, n0: Handle, n1: Handle)
    requires t.Fork? && Linked(t, up, m0) && Distinct(t)
    requires forall g :: g in m0 ==> g < n0
    requires Linked(tr, Ptr(t.h), m1) && Distinct(tr)
    requires Grew(m0, m1, t.right, tr, n0, n1)
    ensures var m2 := m1[t.h := m1[t.h].(right := LinkOf(tr))];
      var t2 := Fork(t.left, t.h, tr);
      Linked(t2, up, m2) && Distinct(t2)
      && View(t2, m2) == Node(RedAt(m0, t.h), View(t.left, m0), KeyAt(m0, t.h), View(tr, m1))
      && Grew(m0, m2, t, t2, n0, n1)
  {
    var m2 := m1[t.h := m1[t.h].(right := LinkOf(tr))];
    ShapedInArena(t, m0);
    GrowRight(t, tr, n0);
    assert m1[t.h] == m0[t.h];
    FrameAfterChild(t.left, Ptr(t.h), m0, m2);
    FrameAfterChild(tr, Ptr(t.h), m1, m2);
    AttachRightGrew(t, m0, m1, tr, n0, n1);
  }

  lemma AttachRightGrew(t: Shape, m0: Arena, m1: Arena, tr: Shape, n0: Handle, n1: Handle)
    requires t.Fork? && t.h in m0 && Distinct(t) && (forall g :: g in Handles(t) ==> g in m0)
    requires Grew(m0, m1, t.right, tr, n0, n1)
    ensures Grew(m0, m1[t.h := m1[t.h].(right := LinkOf(tr))], t, Fork(t.left, t.h, tr), n0, n1)
  {
    var m2 := m1[t.h := m1[t.h].(right := LinkOf(tr))];
    var t2 := Fork(t.left, t.h, tr);
    assert m1[t.h] == m0[t.h];
    assert Handles(t2) == Handles(t2.left) + {t.h} + Handles(t2.right);
    assert Handles(t) == Handles(t.left) + {t.h} + Handles(t.right);
    forall g | g in m0 && g !in Handles(t) ensures g in m2 && m2[g] == m0[g] {
      assert g !in Handles(t.right);
    }
    forall g ensures g in m2 <==> g in m0 || g in Handles(t2) {
      assert g in m2 <==> g in m1 || g == t.h;
    }
    forall g | g in m0 ensures Payload(m2[g]) == Payload(m0[g]) {
      if g == t.h { assert Payload(m1[g]) == Payload(m0[g]); }
    }
  }



  /** How an insertion into the subtree `t` may change the arena `m0` (with `n0` the
      next free handle) into `m` (with next free handle `n`), giving the subtree `t2`:
      `t2` keeps the handles of `t` and gains at most `n0`, the arena gains exactly the
      new handles, nothing outside `t` changes, no sector's coordinates, distance or
      code change, and a new sector is well formed. */
  ghost predicate Grew(m0: Arena, m: Arena, t: Shape, t2: Shape, n0: Handle, n: Handle) {
    (forall g :: g in Handles(t) ==> g in Handles(t2))
    && (forall g :: g in Handles(t2) ==> g in Handles(t) || g == n0)
    && (forall g :: g in m <==> g in m0 || g in Handles(t2))
    && n0 <= n
    && AgreeOutside(m0, m, t)
    && (forall g :: g in m ==> g < n)
    && (forall g :: g in m0 ==> Payload(m[g]) == Payload(m0[g]))
    && (n0 in m && n0 !in m0 ==> WellFormed(m[n0]))
  }

  /** The queue of `BFS` holds the handles of the tops of the subtrees still to visit. */
  ghost predicate Queued(q: seq<Handle>, qs: seq<Shape>, m: Arena) {
    |q| == |qs| && forall i :: 0 <= i < |qs| ==> qs[i].Fork? && q[i] == qs[i].h && Shaped(qs[i], m)
  }

  lemma QueuedTail(q: seq<Handle>, qs: seq<Shape>, m: Arena)
    requires Queued(q, qs, m) && q != []
    ensures Queued(q[1..], qs[1..], m)
  {
    forall i | 0 <= i < |qs| - 1 ensures qs[1..][i] == qs[i + 1] && q[1..][i] == q[i + 1] {
    }
  }

  lemma QueuedPush(q: seq<Handle>, qs: seq<Shape>, m: Arena, s: Shape)
    requires Queued(q, qs, m) && s.Fork? && Shaped(s, m)
    ensures Queued(q + [s.h], qs + [s], m)
  {
    forall i | 0 <= i < |qs| ensures (qs + [s])[i] == qs[i] && (q + [s.h])[i] == q[i] {
    }
  }

  /** A new leaf stored under a fresh handle below `up` is a tree that grew from nothing. */
  lemma NewLeaf(m0: Arena, n0: Handle, s: Sector, up: Link)
    requires forall g :: g in m0 ==> g < n0
    requires WellFormed(s) && s.left == Null && s.right == Null && s.parent == up
    ensures var m, t2 := m0[n0 := s], Fork(Empty, n0, Empty);
      Linked(t2, up, m) && Distinct(t2) && Grew(m0, m, Empty, t2, n0, n0 + 1)
      && View(t2, m) == Node(s.color, Leaf, KeyOf(s), Leaf)
  {
  }

  /** Sectors whose coordinates, distance and code are kept stay well formed. */
  lemma WellFormedKept(m0: Arena, m: Arena, n0: Handle)
    requires forall g :: g in m0 ==> WellFormed(m0[g])
    requires forall g :: g in m ==> (g in m0 && Payload(m[g]) == Payload(m0[g])) || (g == n0 && WellFormed(m[g]))
    ensures forall g :: g in m ==> WellFormed(m[g])
  {
  }

  /** `m2` keeps every node of `m` outside `t`. */
  predicate AgreeOutside(m: Arena, m2: Arena, t: Shape) {
    forall g :: g in m && g !in Handles(t) ==> g in m2 && m2[g] == m[g]
  }

  /** A subtree whose nodes an update left alone keeps its links and its view. */
  lemma FrameAfterChild(t: Shape, up: Link, m: Arena, m2: Arena)
    requires Linked(t, up, m) && Agree(m, m2, Handles(t))
    ensures Linked(t, up, m2) && View(t, m2) == View(t, m)
  {
    LinkedFrame(t, up, m, m2);
    ViewFrame(t, m, m2);
  }

  // ---------------------------------------------------------------- deletion

  /** Removing a node with at most one child keeps the arena and the shape a sound tree,
      and moves the child up to the root when the node was the root. */
  lemma SpliceSound(t: Shape, m: Arena, d: Handle, n: Handle)
    requires SoundTree(t, m, LinkOf(t), n)
    requires d in m && (m[d].left == Null || m[d].right == Null)
    ensures SoundTree(Splice(t, d), Unlink(m, d), LinkOf(Splice(t, d)), n)
    ensures LinkOf(Splice(t, d)) == if m[d].parent == Null then ChildOf(m[d]) else LinkOf(t)
    ensures m[d].parent == Null || m[d].parent.h in m
    ensures ChildOf(m[d]) == Null || ChildOf(m[d]).h in m
  {
    SpliceLinked(t, Null, m, d);
    ParentInside(t, Null, m, d);
    ChildInside(t, m, d);
    SubtreeAtShaped(t, m, d);
    SpliceHandles(t, d);
    UnlinkFacts(m, d);
    WellFormedKept(m, Unlink(m, d), d);
  }

  /** The pointer updates of the two removal methods, one after the other, are Unlink. */
  lemma UnlinkSteps(m: Arena, d: Handle)
    requires d in m && (m[d].parent == Null || m[d].parent.h in m)
    requires ChildOf(m[d]) == Null || ChildOf(m[d]).h in m
    ensures var c, p := ChildOf(m[d]), m[d].parent;
      var m1 := if p == Null then m
                else if m[p.h].left == Ptr(d) then m[p.h := m[p.h].(left := c)]
                else m[p.h := m[p.h].(right := c)];
      var m2 := if c == Null then m1 else m1[c.h := m1[c.h].(parent := p)];
      Unlink(m, d) == m2 - {d}
  {
  }

  /** The arena after `deleteNodeWithTwoChildren` exchanges the data of `d` and `s` with
      `operator=`; links and colours stay where they are. */
  function Swap(m: Arena, d: Handle, s: Handle): Arena
    requires d in m && s in m
  {
    m[d := Assign(m[d], m[s])][s := Assign(m[s], m[d])]
  }

  /** What `deleteNodeWithTwoChildren` leaves behind: `s`, the leftmost sector of the right
      subtree of `d`, swaps data with `d` and is then unlinked and deleted. So `d` keeps its
      handle and its place in the tree and now holds the successor's data. */
  ghost predicate SuccessorSwappedOut(t0: Shape, m0: Arena, d: Handle, t: Shape, m: Arena) {
    var st := SubtreeAt(t0, d);
    st.Fork? && st.right.Fork? && d in m0
    && var s := Leftmost(st.right);
       s in m0 && s != d && t == Splice(t0, s) && m == Unlink(Swap(m0, d, s), s)
       && d in m && Payload(m[d]) == Payload(m0[s])
  }

  lemma SwappedOutFrom(t0: Shape, m0: Arena, d: Handle, s: Handle, t: Shape, m: Arena)
    requires SubtreeAt(t0, d).Fork? && SubtreeAt(t0, d).right.Fork? && d in m0
    requires s == Leftmost(SubtreeAt(t0, d).right) && s in m0 && s != d
    requires t == Splice(t0, s) && m == Unlink(Swap(m0, d, s), s)
    ensures SuccessorSwappedOut(t0, m0, d, t, m)
  {
    UnlinkFacts(Swap(m0, d, s), s);
  }

  /** Swapping the data of two sectors keeps every link, so the tree stays sound. */
  lemma SwapSound(t: Shape, m: Arena, d: Handle, s: Handle, n: Handle)
    requires SoundTree(t, m, LinkOf(t), n)
    requires d in m && s in m
    ensures SoundTree(t, Swap(m, d, s), LinkOf(t), n)
  {
    SwapLinked(t, m, d, s);
    AssignProperties(m[d], m[s]);
    AssignProperties(m[s], m[d]);
  }

  /** Removing a node with at most one child from an ordered tree removes exactly its
      key from the in-order sequence, and the tree stays ordered. */
  lemma SpliceRemovesKey(t: Shape, m: Arena, d: Handle)
    requires Linked(t, Null, m) && Distinct(t) && d in Handles(t) && d in m
    requires m[d].left == Null || m[d].right == Null
    requires Ordered(View(t, m))
    ensures var ks, k := InOrder(View(t, m)), KeyAt(m, d);
      InOrder(View(Splice(t, d), Unlink(m, d))) == Below(ks, k) + Above(ks, k)
      && Ordered(View(Splice(t, d), Unlink(m, d)))
  {
    SubtreeAtShaped(t, m, d);
    var a, b := SpliceInOrder(t, d);
    UnlinkKeys(t, m, d, a, b);
    RemovedKeys(t, m, Splice(t, d), Unlink(m, d), a, d, b);
    var ka, kb := KeysOf(m, a), KeysOf(m, b);
    PositionSplit(ka, KeyAt(m, d), kb);
    IncreasingDrop(ka, KeyAt(m, d), kb);
  }

  /** Keys before and after removing `x` from the in-order handles, when the arena kept
      the keys of all other sectors of the tree. */
  lemma RemovedKeys(t: Shape, m: Arena, t2: Shape, m2: Arena, a: seq<Handle>, x: Handle, b: seq<Handle>)
    requires InOrderHandles(t) == a + [x] + b && InOrderHandles(t2) == a + b
    requires KeysOf(m2, a) == KeysOf(m, a) && KeysOf(m2, b) == KeysOf(m, b)
    ensures InOrder(View(t, m)) == KeysOf(m, a) + [KeyAt(m, x)] + KeysOf(m, b)
    ensures InOrder(View(t2, m2)) == KeysOf(m, a) + KeysOf(m, b)
  {
    InOrderView(t, m);
    InOrderView(t2, m2);
    KeysOfAppend(m, a + [x], b);
    KeysOfAppend(m, a, [x]);
    KeysOfAppend(m2, a, b);
    assert KeysOf(m, [x]) == [KeyAt(m, x)];
  }

  /** `deleteNodeWithTwoChildren` on an ordered tree: after the data of `d` and of its
      in-order successor `s` are swapped and `s` is spliced out, exactly the key of `d`
      is gone and the tree is ordered again. */
  lemma SwapSpliceRemovesKey(t: Shape, m: Arena, d: Handle) returns (s: Handle)
    requires Linked(t, Null, m) && Distinct(t) && d in Handles(t) && d in m
    requires m[d].left != Null && m[d].right != Null
    requires Ordered(View(t, m))
    ensures SubtreeAt(t, d).Fork? && SubtreeAt(t, d).right.Fork?
    ensures s == Leftmost(SubtreeAt(t, d).right) && s in m && s != d
    ensures Swap(m, d, s)[s].left == Null
    ensures InOrder(View(Splice(t, s), Unlink(Swap(m, d, s), s)))
         == Below(InOrder(View(t, m)), KeyAt(m, d)) + Above(InOrder(View(t, m)), KeyAt(m, d))
    ensures Ordered(View(Splice(t, s), Unlink(Swap(m, d, s), s)))
  {
    var a0, b0;
    s, a0, b0 := SuccessorPosition(t, m, d);
    SwapLinked(t, m, d, s);
    var m1 := Swap(m, d, s);
    SubtreeAtShaped(t, m1, s);
    var a, b := SpliceInOrder(t, s);
    InOrderHandlesDistinct(t);
    DistinctParts(a, s, b);
    assert a0 + [d, s] + b0 == (a0 + [d]) + [s] + b0;
    SamePosition(a, b, a0 + [d], b0, s);
    SwappedKeys(t, m, a0, d, s, b0);
    UnlinkKeys(t, m1, s, a, b);
    RemovedKeys(t, m1, Splice(t, s), Unlink(m1, s), a, s, b);
    KeysOfAppend(m1, a0, [d]);
    assert KeysOf(m1, [d]) == [KeyAt(m, s)];
    SwapOrder(KeysOf(m, a0), KeyAt(m, d), KeyAt(m, s), KeysOf(m, b0), InOrder(View(t, m)),
              InOrder(View(Splice(t, s), Unlink(m1, s))));
  }

  /** The in-order successor of a node with two children: the leftmost node of its right
      subtree, which has no left child and directly follows it in in-order. */
  lemma SuccessorPosition(t: Shape, m: Arena, d: Handle) returns (s: Handle, a0: seq<Handle>, b0: seq<Handle>)
    requires Shaped(t, m) && Distinct(t) && d in Handles(t) && d in m
    requires m[d].left != Null && m[d].right != Null
    ensures SubtreeAt(t, d).Fork? && SubtreeAt(t, d).right.Fork?
    ensures s == Leftmost(SubtreeAt(t, d).right) && s in m && s != d && s in Handles(t)
    ensures m[s].left == Null
    ensures InOrderHandles(t) == a0 + [d, s] + b0
    ensures d !in a0 && d !in b0 && s !in a0 && s !in b0
  {
    SubtreeAtShaped(t, m, d);
    var r := SubtreeAt(t, d).right;
    LeftmostFirst(r, m);
    s := Leftmost(r);
    assert s in Handles(t);
    a0, b0 := InOrderSuccessor(t, m, d);
    InOrderHandlesDistinct(t);
    DistinctPairParts(a0, d, s, b0);
  }

  /** Swapping the data of two sectors keeps every link. */
  lemma SwapLinked(t: Shape, m: Arena, d: Handle, s: Handle)
    requires Linked(t, Null, m) && d in m && s in m
    ensures Linked(t, Null, Swap(m, d, s))
  {
    assert SameLinks(m, Swap(m, d, s));
    LinkedRelabel(t, Null, m, Swap(m, d, s));
  }

  /** The key sequences of `deleteNodeWithTwoChildren`: the successor's key replaces the
      deleted one, which is exactly dropping it from the increasing sequence. */
  lemma SwapOrder(ka: seq<Key>, kd: Key, ks: Key, kb: seq<Key>, before: seq<Key>, after: seq<Key>)
    requires before == ka + [kd] + ([ks] + kb) && after == (ka + [ks]) + kb
    requires Increasing(before)
    ensures after == Below(before, kd) + Above(before, kd) && Increasing(after)
  {
    assert after == ka + ([ks] + kb);
    PositionSplit(ka, kd, [ks] + kb);
    IncreasingDrop(ka, kd, [ks] + kb);
  }

  /** The keys around two swapped sectors are unchanged. */
  lemma SwappedKeys(t: Shape, m: Arena, a: seq<Handle>, d: Handle, s: Handle, b: seq<Handle>)
    requires d in m && s in m && s != d
    requires InOrderHandles(t) == a + [d, s] + b
    requires d !in a && d !in b && s !in a && s !in b
    ensures InOrder(View(t, m)) == KeysOf(m, a) + [KeyAt(m, d)] + ([KeyAt(m, s)] + KeysOf(m, b))
    ensures KeysOf(Swap(m, d, s), a) == KeysOf(m, a) && KeysOf(Swap(m, d, s), b) == KeysOf(m, b)
    ensures KeyAt(Swap(m, d, s), d) == KeyAt(m, s)
  {
    InOrderView(t, m);
    KeysOfAppend(m, a + [d, s], b);
    KeysOfAppend(m, a, [d, s]);
    assert KeysOf(m, [d, s]) == [KeyAt(m, d)] + [KeyAt(m, s)];
    SwapKeysOutside(m, d, s, a);
    SwapKeysOutside(m, d, s, b);
  }

  /** Swapping two sectors' data leaves the keys of every other sector in place. */
  lemma SwapKeysOutside(m: Arena, d: Handle, s: Handle, hs: seq<Handle>)
    requires d in m && s in m && d !in hs && s !in hs
    ensures KeysOf(Swap(m, d, s), hs) == KeysOf(m, hs)
  {
    var m1 := Swap(m, d, s);
    forall i | 0 <= i < |hs| ensures KeyAt(m1, hs[i]) == KeyAt(m, hs[i]) {
      assert hs[i] in hs;
    }
    KeysOfFrame(m, m1, hs);
  }
}
