/** What the two sector trees share. Sectors live in an arena addressed by
    handles; a ghost `Shape` records which handles form the tree and where;
    `View` reads the arena through the shape as a pure tree of colours and
    keys. The traversal orders used by the searches are defined here as
    sequences of handles. */
module SectorTrees {
  import opened Sectors

  type Arena = map<Handle, Sector>

  /** The arrangement of handles in a tree. */
  datatype Shape = Empty | Fork(left: Shape, h: Handle, right: Shape)

  /** The pointer to the root of a shape. */
  function LinkOf(t: Shape): Link {
    if t.Empty? then Null else Ptr(t.h)
  }

  function Handles(t: Shape): set<Handle> {
    match t
    case Empty => {}
    case Fork(l, h, r) => Handles(l) + {h} + Handles(r)
  }

  function Size(t: Shape): nat {
    match t
    case Empty => 0
    case Fork(l, _, r) => Size(l) + 1 + Size(r)
  }

  /** No handle occurs twice. */
  predicate Distinct(t: Shape) {
    match t
    case Empty => true
    case Fork(l, h, r) =>
      Distinct(l) && Distinct(r) && h !in Handles(l) && h !in Handles(r) && Handles(l) !! Handles(r)
  }

  /** Every node of `t` is in the arena and its child links point at the roots of its subtrees. */
  predicate Shaped(t: Shape, m: Arena) {
    match t
    case Empty => true
    case Fork(l, h, r) =>
      h in m && m[h].left == LinkOf(l) && m[h].right == LinkOf(r) && Shaped(l, m) && Shaped(r, m)
  }

  /** Every node's parent link points at the node above it; the top one's at `up`. */
  predicate Parented(t: Shape, up: Link, m: Arena) {
    match t
    case Empty => true
    case Fork(l, h, r) =>
      h in m && m[h].parent == up && Parented(l, Ptr(h), m) && Parented(r, Ptr(h), m)
  }

  predicate Linked(t: Shape, up: Link, m: Arena) {
    Shaped(t, m) && Parented(t, up, m)
  }

  /** `m2` keeps the nodes of `s` that `m` has. */
  predicate Agree(m: Arena, m2: Arena, s: set<Handle>) {
    forall g :: g in s && g in m ==> g in m2 && m2[g] == m[g]
  }

  /** Total accessors: a handle outside the arena reads as a black sector at the origin. */
  function KeyAt(m: Arena, g: Handle): Key { if g in m then KeyOf(m[g]) else (0, 0, 0) }
  function RedAt(m: Arena, g: Handle): bool { g in m && m[g].color }
  function CodeAt(m: Arena, g: Handle): string { if g in m then m[g].code else "" }


  lemma ShapedInArena(t: Shape, m: Arena)
    requires Shaped(t, m)
    ensures Handles(t) <= m.Keys
  {
  }

  lemma {:induction false} ShapedFrame(t: Shape, m: Arena, m2: Arena)
    requires Shaped(t, m) && Agree(m, m2, Handles(t))
    ensures Shaped(t, m2)
  {
    if t.Fork? {
      ShapedFrame(t.left, m, m2);
      ShapedFrame(t.right, m, m2);
    }
  }

  lemma {:induction false} ParentedFrame(t: Shape, up: Link, m: Arena, m2: Arena)
    requires Parented(t, up, m) && Agree(m, m2, Handles(t))
    ensures Parented(t, up, m2)
  {
    if t.Fork? {
      ParentedFrame(t.left, Ptr(t.h), m, m2);
      ParentedFrame(t.right, Ptr(t.h), m, m2);
    }
  }

  lemma LinkedFrame(t: Shape, up: Link, m: Arena, m2: Arena)
    requires Linked(t, up, m) && Agree(m, m2, Handles(t))
    ensures Linked(t, up, m2)
  {
    ShapedFrame(t, m, m2);
    ParentedFrame(t, up, m, m2);
  }

  // ---------------------------------------------------------------- pure view

  /** A tree of colours and keys, as the program would print it. */
  datatype Tree = Leaf | Node(red: bool, left: Tree, key: Key, right: Tree)

  function View(t: Shape, m: Arena): Tree {
    match t
    case Empty => Leaf
    case Fork(l, h, r) => Node(RedAt(m, h), View(l, m), KeyAt(m, h), View(r, m))
  }

  lemma {:induction false} ViewFrame(t: Shape, m: Arena, m2: Arena)
    requires Shaped(t, m) && Agree(m, m2, Handles(t))
    ensures View(t, m2) == View(t, m)
  {
    if t.Fork? {
      ViewFrame(t.left, m, m2);
      ViewFrame(t.right, m, m2);
    }
  }

  /** The in-order key sequence. */
  function InOrder(t: Tree): seq<Key> {
    match t
    case Leaf => []
    case Node(_, l, k, r) => InOrder(l) + [k] + InOrder(r)
  }

  function KeySet(t: Tree): set<Key> {
    match t
    case Leaf => {}
    case Node(_, l, k, r) => KeySet(l) + {k} + KeySet(r)
  }

  /** The values a sequence holds. */
  function Elements<T>(s: seq<T>): set<T> {
    set i | 0 <= i < |s| :: s[i]
  }

  /** The elements of `a + [x] + b` are those of `a`, `x` and those of `b`. */
  lemma ElementsAround<T>(a: seq<T>, x: T, b: seq<T>)
    ensures Elements(a + [x] + b) == Elements(a) + {x} + Elements(b)
  {
    var s := a + [x] + b;
    forall y | y in Elements(a) + {x} + Elements(b) ensures y in Elements(s) {
      if y in Elements(a) {
        var i :| 0 <= i < |a| && a[i] == y;
        assert s[i] == y;
      } else if y == x {
        assert s[|a|] == y;
      } else {
        var i :| 0 <= i < |b| && b[i] == y;
        assert s[|a| + 1 + i] == y;
      }
    }
    forall y | y in Elements(s) ensures y in Elements(a) + {x} + Elements(b) {
      var i :| 0 <= i < |s| && s[i] == y;
      if i < |a| {
        assert a[i] == y;
      } else if i > |a| {
        assert b[i - |a| - 1] == y;
      }
    }
  }

  lemma {:induction false} KeySetInOrder(t: Tree)
    ensures KeySet(t) == set i | 0 <= i < |InOrder(t)| :: InOrder(t)[i]
  {
    if t.Node? {
      KeySetInOrder(t.left);
      KeySetInOrder(t.right);
      ElementsAround(InOrder(t.left), t.key, InOrder(t.right));
      assert InOrder(t) == InOrder(t.left) + [t.key] + InOrder(t.right);
    }
  }


  lemma KeySetMembers(t: Tree)
    ensures forall y :: y in KeySet(t) <==> y in InOrder(t)
  {
    KeySetInOrder(t);
    var s := InOrder(t);
    forall y ensures y in KeySet(t) <==> y in s {
      if y in s {
        var i :| 0 <= i < |s| && s[i] == y;
      }
    }
  }

  /** Strictly increasing in the composite order: the BST property of both trees. */
  predicate Increasing(s: seq<Key>) {
    forall i, j {:trigger Less(s[i], s[j])} :: 0 <= i < j < |s| ==> Less(s[i], s[j])
  }

  predicate Ordered(t: Tree) { Increasing(InOrder(t)) }

  /** The keys of `s` below `k` and above `k`, in their order. */
  function Below(s: seq<Key>, k: Key): seq<Key> {
    if s == [] then [] else (if Less(s[0], k) then [s[0]] else []) + Below(s[1..], k)
  }

  function Above(s: seq<Key>, k: Key): seq<Key> {
    if s == [] then [] else (if Less(k, s[0]) then [s[0]] else []) + Above(s[1..], k)
  }

  /** A sorted sequence is what lies below a key, the key if present, and what lies above. */
  lemma {:induction false} SplitAt(s: seq<Key>, k: Key)
    requires Increasing(s)
    ensures k in s ==> s == Below(s, k) + [k] + Above(s, k)
    ensures k !in s ==> s == Below(s, k) + Above(s, k)
  {
    if s != [] {
      var x, r := s[0], s[1..];
      assert s == [x] + r;
      HeadLeast(s);
      if Less(x, k) {
        SplitAt(r, k);
        LessIsStrictTotalOrder(x, k, k);
      } else if x == k {
        AllAboveKey(r, k);
      } else {
        LessIsStrictTotalOrder(x, k, k);
        forall y | y in r ensures Less(k, y) {
          LessIsStrictTotalOrder(k, x, y);
        }
        AllAboveKey(s, k);
      }
    }
  }

  lemma HeadLeast(s: seq<Key>)
    requires Increasing(s) && s != []
    ensures Increasing(s[1..]) && forall y :: y in s[1..] ==> Less(s[0], y)
  {
    forall y | y in s[1..] ensures Less(s[0], y) {
      var j :| 0 <= j < |s| - 1 && s[1..][j] == y;
      assert s[j + 1] == y;
    }
  }

  lemma AllAboveKey(s: seq<Key>, k: Key)
    requires forall y :: y in s ==> Less(k, y)
    ensures Below(s, k) == [] && Above(s, k) == s && k !in s
  {
    forall y | y in s ensures !Less(y, k) {
      LessIsStrictTotalOrder(k, y, k);
    }
    NoneBelow(s, k);
    AllAbove(s, k);
    LessIsStrictTotalOrder(k, k, k);
  }

  /** Putting a key between what lies below it and what lies above it keeps the order. */
  lemma SortedAroundKey(s: seq<Key>, k: Key)
    requires Increasing(s)
    ensures Increasing(Below(s, k) + [k] + Above(s, k))
  {
    var b, a := Below(s, k), Above(s, k);
    BelowSorted(s, k);
    AboveSorted(s, k);
    var r := b + [k] + a;
    forall i, j | 0 <= i < j < |r| ensures Less(r[i], r[j]) {
      if j < |b| {
        assert r[i] == b[i] && r[j] == b[j];
      } else if i < |b| && j == |b| {
        assert r[i] in b;
      } else if i < |b| {
        assert r[i] in b && r[j] == a[j - |b| - 1] && r[j] in a;
        LessIsStrictTotalOrder(r[i], k, r[j]);
      } else if i == |b| {
        assert r[j] == a[j - |b| - 1] && r[j] in a;
      } else {
        assert r[i] == a[i - |b| - 1] && r[j] == a[j - |b| - 1];
      }
    }
  }

  lemma {:induction false} BelowSorted(s: seq<Key>, k: Key)
    requires Increasing(s)
    ensures Increasing(Below(s, k)) && (forall x :: x in Below(s, k) ==> Less(x, k) && x in s)
  {
    if s != [] {
      var r := s[1..];
      BelowSorted(r, k);
      var b := Below(r, k);
      forall x | x in b ensures Less(s[0], x) {
        var i :| 0 <= i < |r| && r[i] == x;
        assert s[i + 1] == x;
      }
    }
  }

  lemma {:induction false} AboveSorted(s: seq<Key>, k: Key)
    requires Increasing(s)
    ensures Increasing(Above(s, k)) && (forall x :: x in Above(s, k) ==> Less(k, x) && x in s)
  {
    if s != [] {
      var r := s[1..];
      AboveSorted(r, k);
      var a := Above(r, k);
      forall x | x in a ensures Less(s[0], x) {
        var i :| 0 <= i < |r| && r[i] == x;
        assert s[i + 1] == x;
      }
    }
  }

  lemma {:induction false} NoneBelow(s: seq<Key>, k: Key)
    requires forall x :: x in s ==> !Less(x, k)
    ensures Below(s, k) == []
  {
    if s != [] {
      NoneBelow(s[1..], k);
    }
  }

  lemma {:induction false} AllAbove(s: seq<Key>, k: Key)
    requires forall x :: x in s ==> Less(k, x)
    ensures Above(s, k) == s
  {
    if s != [] {
      AllAbove(s[1..], k);
    }
  }

  lemma {:induction false} AllBelow(s: seq<Key>, k: Key)
    requires forall x :: x in s ==> Less(x, k)
    ensures Below(s, k) == s
  {
    if s != [] {
      AllBelow(s[1..], k);
    }
  }

  lemma {:induction false} NoneAbove(s: seq<Key>, k: Key)
    requires forall x :: x in s ==> !Less(k, x)
    ensures Above(s, k) == []
  {
    if s != [] {
      NoneAbove(s[1..], k);
    }
  }

  lemma {:induction false} BelowAboveSplit(a: seq<Key>, b: seq<Key>, k: Key)
    ensures Below(a + b, k) == Below(a, k) + Below(b, k)
    ensures Above(a + b, k) == Above(a, k) + Above(b, k)
  {
    if a == [] {
      assert a + b == b;
    } else {
      assert (a + b)[0] == a[0];
      assert (a + b)[1..] == a[1..] + b;
      BelowAboveSplit(a[1..], b, k);
    }
  }

  // ---------------------------------------------------------------- traversals

  /** Pre-order, left subtree before right: the order `findSector` and `getPath` search in. */
  function PreOrder(t: Shape): seq<Handle> {
    match t
    case Empty => []
    case Fork(l, h, r) => [h] + PreOrder(l) + PreOrder(r)
  }

  /** The handles of `t` in in-order. */
  function InOrderHandles(t: Shape): seq<Handle> {
    match t
    case Empty => []
    case Fork(l, h, r) => InOrderHandles(l) + [h] + InOrderHandles(r)
  }

  /** The first handle of `hs` whose sector carries `code`, or null. */
  function FirstMatch(hs: seq<Handle>, m: Arena, code: string): Link {
    if hs == [] then Null
    else if CodeAt(m, hs[0]) == code then Ptr(hs[0])
    else FirstMatch(hs[1..], m, code)
  }

  /** FirstMatch finds a carrier of the code and nothing earlier carries it;
      it is null exactly when nothing in the sequence carries the code. */
  lemma {:induction false} FirstMatchSpec(hs: seq<Handle>, m: Arena, code: string)
    ensures FirstMatch(hs, m, code) == Null <==> forall i :: 0 <= i < |hs| ==> CodeAt(m, hs[i]) != code
    ensures FirstMatch(hs, m, code) != Null ==>
      exists i :: 0 <= i < |hs| && hs[i] == FirstMatch(hs, m, code).h && CodeAt(m, hs[i]) == code
        && forall j :: 0 <= j < i ==> CodeAt(m, hs[j]) != code
  {
    if hs != [] && CodeAt(m, hs[0]) != code {
      FirstMatchSpec(hs[1..], m, code);
      var r := FirstMatch(hs, m, code);
      if r != Null {
        var i :| 0 <= i < |hs| - 1 && hs[1..][i] == r.h && CodeAt(m, hs[1..][i]) == code
          && forall j :: 0 <= j < i ==> CodeAt(m, hs[1..][j]) != code;
        assert hs[i + 1] == r.h;
        forall j | 0 <= j < i + 1 ensures CodeAt(m, hs[j]) != code {
          if j > 0 { assert hs[j] == hs[1..][j - 1]; }
        }
      } else {
        forall i | 0 <= i < |hs| ensures CodeAt(m, hs[i]) != code {
          if i > 0 { assert hs[i] == hs[1..][i - 1]; }
        }
      }
    }
  }

  lemma {:induction false} FirstMatchAppend(a: seq<Handle>, b: seq<Handle>, m: Arena, code: string)
    ensures FirstMatch(a + b, m, code)
         == if FirstMatch(a, m, code) != Null then FirstMatch(a, m, code) else FirstMatch(b, m, code)
  {
    if a == [] {
      assert a + b == b;
    } else {
      assert (a + b)[0] == a[0];
      assert (a + b)[1..] == a[1..] + b;
      FirstMatchAppend(a[1..], b, m, code);
    }
  }

  lemma {:induction false} PreOrderHandles(t: Shape)
    ensures forall g :: g in PreOrder(t) <==> g in Handles(t)
  {
    if t.Fork? {
      PreOrderHandles(t.left);
      PreOrderHandles(t.right);
    }
  }

  /** `findSector`: the pre-order search for a code, left subtree before right. */
  function FindSector(m: Arena, node: Link, code: string, ghost t: Shape): (r: Link)
    requires Shaped(t, m) && node == LinkOf(t)
    ensures r == FirstMatch(PreOrder(t), m, code)
    decreases t
  {
    if node == Null then Null
    else if m[node.h].code == code then node
    else
      var found := FindSector(m, m[node.h].left, code, t.left);
      FirstMatchAppend([t.h] + PreOrder(t.left), PreOrder(t.right), m, code);
      FirstMatchAppend([t.h], PreOrder(t.left), m, code);
      if found != Null then found else FindSector(m, m[node.h].right, code, t.right)
  }

  /** The pre-order search is null exactly when no node carries the code; otherwise it
      returns a node of the tree with that code, and no node earlier in pre-order has it. */
  lemma FindSectorSpec(m: Arena, t: Shape, code: string)
    requires Shaped(t, m)
    ensures var r := FindSector(m, LinkOf(t), code, t);
      (r == Null <==> forall g :: g in Handles(t) ==> CodeAt(m, g) != code)
      && (r != Null ==> r.h in Handles(t) && CodeAt(m, r.h) == code
                        && exists i :: 0 <= i < |PreOrder(t)| && PreOrder(t)[i] == r.h
                             && forall j :: 0 <= j < i ==> CodeAt(m, PreOrder(t)[j]) != code)
  {
    PreOrderHandles(t);
    FirstMatchSpec(PreOrder(t), m, code);
    var r := FindSector(m, LinkOf(t), code, t);
    if r == Null {
      forall g | g in Handles(t) ensures CodeAt(m, g) != code {
        assert g in PreOrder(t);
      }
    } else {
      var i :| 0 <= i < |PreOrder(t)| && PreOrder(t)[i] == r.h && CodeAt(m, PreOrder(t)[i]) == code;
      assert PreOrder(t)[i] in PreOrder(t);
    }
  }

  /** Level order: the handles in the order a FIFO queue visits them, starting
      from the subtrees `qs`; null children are never enqueued. */
  function Bfs(qs: seq<Shape>): seq<Handle>
    decreases SizeAll(qs), |qs|
  {
    if qs == [] then []
    else if qs[0].Empty? then Bfs(qs[1..])
    else
      SizeAllAppend(qs[1..], Kids(qs[0]));
      KidsSize(qs[0]);
      [qs[0].h] + Bfs(qs[1..] + Kids(qs[0]))
  }

  function LevelOrder(t: Shape): seq<Handle> { Bfs([t]) }

  /** The non-null children of a node, left first. */
  function Kids(t: Shape): seq<Shape>
    requires t.Fork?
  {
    (if t.left.Fork? then [t.left] else []) + (if t.right.Fork? then [t.right] else [])
  }

  function SizeAll(qs: seq<Shape>): nat {
    if qs == [] then 0 else Size(qs[0]) + SizeAll(qs[1..])
  }

  function HandlesAll(qs: seq<Shape>): set<Handle> {
    if qs == [] then {} else Handles(qs[0]) + HandlesAll(qs[1..])
  }

  lemma {:induction false} SizeAllAppend(a: seq<Shape>, b: seq<Shape>)
    ensures SizeAll(a + b) == SizeAll(a) + SizeAll(b)
    ensures HandlesAll(a + b) == HandlesAll(a) + HandlesAll(b)
  {
    if a == [] {
      assert a + b == b;
    } else {
      assert (a + b)[1..] == a[1..] + b;
      SizeAllAppend(a[1..], b);
    }
  }

  /** The level order of a queue visits exactly the handles of the queued subtrees. */
  lemma {:induction false} BfsHandles(qs: seq<Shape>)
    ensures forall g :: g in Bfs(qs) <==> g in HandlesAll(qs)
    decreases SizeAll(qs), |qs|
  {
    if qs == [] {
    } else if qs[0].Empty? {
      BfsHandles(qs[1..]);
    } else {
      var q := qs[0];
      SizeAllAppend(qs[1..], Kids(q));
      KidsSize(q);
      BfsHandles(qs[1..] + Kids(q));
    }
  }

  lemma LevelOrderHandles(t: Shape)
    ensures forall g :: g in LevelOrder(t) <==> g in Handles(t)
  {
    BfsHandles([t]);
    assert HandlesAll([t]) == Handles(t) + HandlesAll([]);
  }

  /** One step of the queue: the front sector is visited, then its children are queued. */
  lemma BfsStep(qs: seq<Shape>, m: Arena, code: string)
    requires qs != [] && qs[0].Fork?
    ensures SizeAll(qs[1..] + Kids(qs[0])) < SizeAll(qs)
    ensures CodeAt(m, qs[0].h) == code ==> FirstMatch(Bfs(qs), m, code) == Ptr(qs[0].h)
    ensures CodeAt(m, qs[0].h) != code ==>
      FirstMatch(Bfs(qs), m, code) == FirstMatch(Bfs(qs[1..] + Kids(qs[0])), m, code)
  {
    SizeAllAppend(qs[1..], Kids(qs[0]));
    KidsSize(qs[0]);
    var rest := Bfs(qs[1..] + Kids(qs[0]));
    assert Bfs(qs) == [qs[0].h] + rest;
    assert ([qs[0].h] + rest)[1..] == rest;
  }

  /** The level-order search over a tree that holds the whole arena is null exactly when
      no sector carries the code, and otherwise returns a sector that carries it. */
  lemma LevelOrderSpec(t: Shape, m: Arena, code: string)
    requires forall g :: g in Handles(t) <==> g in m
    ensures var r := FirstMatch(LevelOrder(t), m, code);
      (r == Null <==> forall g :: g in m ==> m[g].code != code)
      && (r != Null ==> r.h in m && m[r.h].code == code)
  {
    LevelOrderHandles(t);
    var hs := LevelOrder(t);
    FirstMatchSpec(hs, m, code);
    var r := FirstMatch(hs, m, code);
    if r == Null {
      forall g | g in m ensures m[g].code != code {
        var i :| 0 <= i < |hs| && hs[i] == g;
      }
    } else {
      var i :| 0 <= i < |hs| && hs[i] == r.h && CodeAt(m, hs[i]) == code;
      assert hs[i] in hs;
    }
  }

  lemma KidsSize(q: Shape)
    requires q.Fork?
    ensures SizeAll(Kids(q)) == Size(q.left) + Size(q.right)
    ensures HandlesAll(Kids(q)) == Handles(q.left) + Handles(q.right)
  {
    var a := if q.left.Fork? then [q.left] else [];
    var b := if q.right.Fork? then [q.right] else [];
    SizeAllAppend(a, b);
    assert SizeAll(a) == Size(q.left) && HandlesAll(a) == Handles(q.left) by {
      if a != [] { assert a[1..] == []; }
    }
    assert SizeAll(b) == Size(q.right) && HandlesAll(b) == Handles(q.right) by {
      if b != [] { assert b[1..] == []; }
    }
  }

  // ---------------------------------------------------------------- root paths

  /** The handles from the root of `t` down to `g`; empty when `g` is not in `t`. */
  function RootPath(t: Shape, g: Handle): seq<Handle> {
    match t
    case Empty => []
    case Fork(l, h, r) =>
      if g == h then [h]
      else if g in Handles(l) then [h] + RootPath(l, g)
      else if g in Handles(r) then [h] + RootPath(r, g)
      else []
  }

  /** The root path runs from the root to `g` through the tree's links: each element
      is the child of the one before it and records it as its parent. */
  lemma {:induction false} RootPathLinks(t: Shape, up: Link, m: Arena, g: Handle)
    requires Linked(t, up, m) && g in Handles(t)
    ensures var p := RootPath(t, g);
      |p| >= 1 && p[0] == t.h && p[|p| - 1] == g && m[p[0]].parent == up
      && (forall i :: 0 <= i < |p| ==> p[i] in Handles(t))
      && (forall i :: 1 <= i < |p| ==>
            (p[i] in m && m[p[i]].parent == Ptr(p[i - 1])
             && (m[p[i - 1]].left == Ptr(p[i]) || m[p[i - 1]].right == Ptr(p[i]))))
  {
    var p := RootPath(t, g);
    if g != t.h {
      var c := if g in Handles(t.left) then t.left else t.right;
      RootPathLinks(c, Ptr(t.h), m, g);
      var q := RootPath(c, g);
      assert p == [t.h] + q;
      forall i | 1 <= i < |p|
        ensures p[i] in m && m[p[i]].parent == Ptr(p[i - 1])
        ensures m[p[i - 1]].left == Ptr(p[i]) || m[p[i - 1]].right == Ptr(p[i])
      {
        assert p[i] == q[i - 1];
        if i == 1 { assert m[t.h].left == LinkOf(t.left) && m[t.h].right == LinkOf(t.right); }
        else { assert p[i - 1] == q[i - 2]; }
      }
    }
  }

  /** Following parent links from the last handle of `p` visits `p` backwards and ends
      at a sector without a parent. */
  ghost predicate UpChain(m: Arena, p: seq<Handle>) {
    |p| >= 1 && (forall i :: 0 <= i < |p| ==> p[i] in m) && m[p[0]].parent == Null
    && forall i :: 1 <= i < |p| ==> m[p[i]].parent == Ptr(p[i - 1])
  }

  /** The sector codes along a sequence of handles. */
  function Codes(m: Arena, hs: seq<Handle>): (cs: seq<string>)
    ensures |cs| == |hs| && forall i :: 0 <= i < |hs| ==> cs[i] == CodeAt(m, hs[i])
  {
    if hs == [] then [] else [CodeAt(m, hs[0])] + Codes(m, hs[1..])
  }

  /** The keys along a sequence of handles. */
  function KeysOf(m: Arena, hs: seq<Handle>): (ks: seq<Key>)
    ensures |ks| == |hs| && forall i :: 0 <= i < |hs| ==> ks[i] == KeyAt(m, hs[i])
  {
    if hs == [] then [] else [KeyAt(m, hs[0])] + KeysOf(m, hs[1..])
  }

  lemma KeysOfAppend(m: Arena, a: seq<Handle>, b: seq<Handle>)
    ensures KeysOf(m, a + b) == KeysOf(m, a) + KeysOf(m, b)
  {
    var l, r := KeysOf(m, a + b), KeysOf(m, a) + KeysOf(m, b);
    forall i | 0 <= i < |l| ensures l[i] == r[i] {
      if i < |a| {
        assert (a + b)[i] == a[i];
      } else {
        assert (a + b)[i] == b[i - |a|];
      }
    }
  }

  /** The view's in-order keys are the keys of the in-order handles. */
  lemma {:induction false} InOrderView(t: Shape, m: Arena)
    ensures InOrder(View(t, m)) == KeysOf(m, InOrderHandles(t))
  {
    if t.Fork? {
      InOrderView(t.left, m);
      InOrderView(t.right, m);
      KeysOfAppend(m, InOrderHandles(t.left) + [t.h], InOrderHandles(t.right));
      KeysOfAppend(m, InOrderHandles(t.left), [t.h]);
    }
  }

  lemma {:induction false} InOrderHandlesDistinct(t: Shape)
    requires Distinct(t)
    ensures forall g :: g in InOrderHandles(t) <==> g in Handles(t)
    ensures forall i, j :: 0 <= i < j < |InOrderHandles(t)| ==> InOrderHandles(t)[i] != InOrderHandles(t)[j]
  {
    if t.Fork? {
      InOrderHandlesDistinct(t.left);
      InOrderHandlesDistinct(t.right);
      var a, b := InOrderHandles(t.left), InOrderHandles(t.right);
      var s := InOrderHandles(t);
      assert s == a + [t.h] + b;
      forall i, j | 0 <= i < j < |s| ensures s[i] != s[j] {
        if j < |a| {
          assert s[i] == a[i] && s[j] == a[j];
        } else if i < |a| {
          assert s[i] == a[i] && s[i] in Handles(t.left);
          if j > |a| { assert s[j] == b[j - |a| - 1] && s[j] in Handles(t.right); }
        } else if i == |a| {
          assert s[j] == b[j - |a| - 1] && s[j] in Handles(t.right);
        } else {
          assert s[i] == b[i - |a| - 1] && s[j] == b[j - |a| - 1];
        }
      }
    }
  }

  function Reverse<T>(s: seq<T>): (r: seq<T>)
    ensures |r| == |s| && forall i :: 0 <= i < |s| ==> r[i] == s[|s| - 1 - i]
  {
    if s == [] then [] else Reverse(s[1..]) + [s[0]]
  }

  lemma ReverseReverse<T>(s: seq<T>)
    ensures Reverse(Reverse(s)) == s
  {
  }
}
