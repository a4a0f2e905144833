# Space sectors and the habitability classifier, modelled in Dafny

The system keeps space sectors in two search trees and classifies points with a k-d tree.

- **Sector** (`sector.dfy`, module `Sectors`). A sector is a point `(x, y, z)` with integer
  coordinates. Its distance from Earth is the square root of `x*x + y*y + z*z`, a `double`.
  Its sector code is that distance truncated to an integer, in decimal, followed by one sign
  letter per axis: `S`/`R`/`L` for x, `S`/`U`/`D` for y, `S`/`F`/`B` for z. Earth, at the
  origin, has code `0SSS`.
  A sector also carries left, right and parent links and a colour. The comparison and assignment
  operators are modelled too.
- **Unbalanced sector tree** (`bst.dfy`, module `SectorBST`). It is ordered lexicographically on
  `(x, y, z)`. It supports:
  - insertion, which ignores duplicates;
  - lookup by code, both pre-order and breadth-first;
  - three-case deletion, where the two-children case swaps data with the in-order successor;
  - the root-to-target path, built by climbing parent links from the target and reversing.
- **Left-leaning red-black sector tree** (`llrb.dfy`, module `SectorLLRB`). Insertion uses the
  classic rotate-left, rotate-right and colour-flip fix-ups, and the root is painted black. It
  also has a path between Earth and a target sector. That path is built from the two code paths
  from the root, found by a pre-order search (`getPath`). The paths are split where they part,
  and the codes are looked up again with `findSector`.
- **k-d tree** (`kd_tree.dfy`, module `KdTree`). Building is a recursive median split: the split
  dimension is `depth % d`, and `nth_element` places the median at index `n/2`. The median is
  excluded from both halves. The k-nearest-neighbour search descends the near side first and
  visits the far side only under a pruning condition.
  - `buildRecursive` only ever creates internal nodes, so a built tree holds no leaves.
  - The search therefore returns no neighbours on a built tree. The model proves this.
- **Classifier decision** (`knn.dfy`, module `Knn`). `predict` counts the neighbours labelled
  `"Habitable"` and answers 1 when there is at least one. It is an any-match rule: one
  habitable neighbour is enough, although a comment in `predict` speaks of majority voting. The
  model follows the code.

How the trees are modelled:

- **Arena.** Each tree object is a class over an arena: a map from handles to `Sector` records,
  a root link and an allocation counter. Pointer writes (`node->left = …`, `child->parent = …`,
  colour changes, `std::swap` of data fields) are updates of that map.
- **Shape and view.** A ghost `Shape` says which handles form the tree. `View` reads the shape
  and the arena as a pure tree of colours and keys. The arena methods are proved against pure
  functions on that tree:
  - `BstInsert` for the unbalanced tree;
  - `Ins`, `RotL`, `RotR`, `Flip`, `Balance` and `LlrbInsert` for the red-black tree (module
    `LlrbSpec`).
  The properties are then proved about those functions: order, key set, and the red-black
  invariants.
- **Shared definitions.** `SectorTrees` (`sector_tree.dfy`) holds the arena, the linking
  invariants, the traversal orders and the searches. The two trees' `findSector` bodies are
  the same pre-order search (SpaceSectorBST.cpp:219-238 and SpaceSectorLLRBT.cpp:191-210), so
  `SectorTrees.FindSector` models both. `SectorSplice` (`splice.dfy`) holds the
  relinking that deletion performs.
- **The red-black path.** `LlrbStellar` (`stellar.dfy`) holds the index arithmetic of
  `getStellarPath` on the two code paths alone.

## Model

| member | source | states |
|---|---|---|
| Sectors.LessIsStrictTotalOrder | SpaceSectorBST.cpp:66-68 | The lexicographic comparison on (x, y, z) used to place a sector is a strict total order: irreflexive, asymmetric, transitive, and any two distinct keys are comparable. |
| Sectors.ISqrt | Sector.cpp:8-11 | The truncated distance `r` is the floor of the square root: `r*r <= n < (r+1)*(r+1)`. This is what `sqrt` followed by `static_cast<int>` yields. |
| Sectors.ISqrtUnique | Sector.cpp:8-11 | Any `r` with `r*r <= n < (r+1)*(r+1)` is the truncated root, so the distance prefix is determined by the coordinates. |
| Sectors.NatToDecimal | Sector.cpp:14 | `std::to_string` of the non-negative distance is a non-empty string of decimal digits. |
| Sectors.DecimalRoundTrip | Sector.cpp:14 | Reading the decimal string back gives the number it was made from. |
| Sectors.ParseSectorCode | Sector.cpp:8-26 | A code is the decimal truncated distance followed by exactly three axis letters. Parsing it back recovers the distance and the sign of each coordinate. |
| Sectors.SameCodeSameOctant | Sector.cpp:14-26 | Two coordinate triples with the same code have the same truncated distance and the same sign on every axis. |
| Sectors.CodesCollide | Sector.cpp:14-26 | The code does not identify a sector: (1, 2, 0) and (2, 1, 0) both get "2RUS". |
| Sectors.OriginCodeFrom | Sector.cpp:14-26 | Distance 0 with three zero coordinates is written "0SSS". |
| Sectors.OriginOnly | Sector.cpp:8-26 | Only the origin gets the code "0SSS", so Earth's code is unique. |
| Sectors.CodeTruncates | Sector.cpp:11-14 | (1, 1, 1) gets "1RUF": its distance √3 is truncated to 1, not rounded. |
| Sectors.NewSector | Sector.cpp:6-27 | The constructor appends the three axis letters to the decimal distance. The new sector is well formed (distance and code derived from its coordinates), has key (x, y, z), null left, right and parent links, and colour red. |
| Sectors.SameDeterminesDerivedFields | Sector.cpp:45-51 | `==` holds exactly when x, y and z agree, and `!=` is its negation. For well-formed sectors, equal coordinates imply equal code and distance. |
| Sectors.Assign | Sector.cpp:33-43 | Assignment copies the coordinates, distance and code of the source. It keeps the target's links and colour. |
| Sectors.AssignProperties | Sector.cpp:33-43 | Self-assignment changes nothing. Assigning a well-formed sector yields a well-formed sector. Repeating an assignment changes nothing more. |
| SectorTrees.FindSector | SpaceSectorBST.cpp:219-238 | The recursive search (top, then left subtree, then right subtree) returns the first sector in pre-order whose code matches, or null. |
| SectorTrees.FindSectorSpec | SpaceSectorBST.cpp:219-238 | The search returns null exactly when no sector of the tree has the code. Otherwise it returns a sector of the tree with that code, and no sector before it in pre-order has the code. |
| SectorTrees.FirstMatchSpec | SpaceSectorBST.cpp:256-258 | The first match in an order is null exactly when nothing in the order has the code. Otherwise it is an element with the code, and no earlier element has it. |
| SectorTrees.BfsStep | SpaceSectorBST.cpp:252-266 | One pass of the queue loop: if the front carries the code, it is the level-order result. Otherwise the result is that of the rest of the queue followed by the front's children. The number of queued nodes decreases. |
| SectorTrees.LevelOrderHandles | SpaceSectorBST.cpp:244-270 | The level order visits exactly the sectors of the tree. |
| SectorTrees.LevelOrderSpec | SpaceSectorBST.cpp:244-270 | In a sound tree the first level-order match is null exactly when no stored sector has the code. Otherwise it is a stored sector with that code. |
| SectorTrees.RootPathLinks | SpaceSectorBST.cpp:208-212 | The path from the root to a sector of the tree starts at the root (whose parent is given) and ends at the sector. Each later entry's parent is the previous entry, which links to it as its left or right child. |
| SectorTrees.Reverse | SpaceSectorBST.cpp:214 | `std::reverse`: the result has the same length, and position `i` holds the element at `|s| - 1 - i`. |
| SectorTrees.ReverseReverse | SpaceSectorBST.cpp:214 | Reversing twice gives back the sequence. |
| SectorTrees.InOrderHandlesDistinct | SpaceSectorBST.cpp:59-73 | In a tree of distinct handles, the in-order traversal visits each sector of the tree exactly once. |
| SectorSplice.UnlinkFacts | SpaceSectorBST.cpp:98-128 | Unlinking a sector removes exactly that sector from the arena. It keeps every other sector's coordinates, distance and code. It leaves the sectors not adjacent to it as they were. |
| SectorSplice.SpliceLinked | SpaceSectorBST.cpp:112-128 | After unlinking a sector with at most one child, the arena holds the tree without it, with consistent child and parent links. The new root is the child when the sector was the root, and the old root otherwise. |
| SectorSplice.SpliceHandles | SpaceSectorBST.cpp:98-128 | The tree without the sector holds exactly the other sectors, all distinct. |
| SectorSplice.SpliceInOrder | SpaceSectorBST.cpp:98-128 | The in-order traversal after removal is the old one with that one sector taken out. |
| SectorSplice.LeftmostFirst | SpaceSectorBST.cpp:146-152 | The leftmost sector of a subtree comes first in its in-order traversal and has no left child. |
| SectorSplice.InOrderSuccessor | SpaceSectorBST.cpp:130-131 | For a sector with a right subtree, the leftmost sector of that subtree comes right after it in the in-order traversal: it is the successor. |
| SectorBST.FoundIffMember | SpaceSectorBST.cpp:66-70 | In an ordered tree, the descent that follows the comparisons meets the key exactly when the key is in the tree. |
| SectorBST.BstInsertInOrder | SpaceSectorBST.cpp:59-73 | Inserting into an ordered tree yields, in order, the keys below the new key, the key, then the keys above it. The tree stays ordered. A key already present leaves the tree unchanged. |
| SectorBST.FoundUnchanged | SpaceSectorBST.cpp:66-72 | When the key is already on the descent path, neither branch is taken and insertion returns the tree as it was. |
| SectorBST.SpaceSectorBST.constructor | SpaceSectorBST.cpp:7 | The new tree is empty and valid, with a null root. |
| SectorBST.SpaceSectorBST.InsertSectorByCoordinates | SpaceSectorBST.cpp:55-57 | The tree of keys becomes `BstInsert` of the old one: the new key hangs as a leaf where the descent ends. The tree stays valid: linked, parents consistent, root's parent null, ordered, derived fields correct. Its keys become those below the new key, the key, then those above. A duplicate leaves the arena and the root unchanged. |
| SectorBST.SpaceSectorBST.InsertRecursive | SpaceSectorBST.cpp:59-73 | The subtree's view becomes its `BstInsert`, and the new leaf's parent is the node it hangs from. At most the one new sector is added. Sectors outside the subtree keep their links, and every stored sector keeps its data. A duplicate changes nothing. |
| SectorBST.SpaceSectorBST.DeleteSector | SpaceSectorBST.cpp:76-96 | When no sector has the code, nothing changes. Otherwise the first level-order match carries the code, its key is removed from the in-order keys and nothing else is, and the tree stays valid. A match with at most one child is spliced out: the shape and arena become `Splice` and `Unlink` of the old ones at that handle. A match with two children keeps its handle and place and takes its successor's data, and the successor's handle is spliced out instead. |
| SectorBST.SpaceSectorBST.DeleteLeafNode | SpaceSectorBST.cpp:98-110 | The sector is removed and the parent's slot (or the root) becomes null. The tree stays sound. |
| SectorBST.SpaceSectorBST.DeleteNodeWithOneChild | SpaceSectorBST.cpp:112-128 | The sector is removed, its child takes its slot in the parent (or becomes the root), and the child's parent becomes the removed sector's parent. The tree stays sound. |
| SectorBST.SpaceSectorBST.DeleteNodeWithTwoChildren | SpaceSectorBST.cpp:130-144 | The successor `s` is the leftmost sector of the right subtree. The arena becomes `Unlink` at `s` of the arena with the data of the node and of `s` swapped, and the shape becomes `Splice` at `s`. So the node keeps its handle and place and now holds the successor's coordinates, distance and code, while the successor's handle is gone. The keys are the old keys without the deleted key, and the tree is still ordered and valid. |
| SectorBST.SpaceSectorBST.FindMinNode | SpaceSectorBST.cpp:146-152 | The loop returns the leftmost sector of the subtree, which has no left child. |
| SectorBST.SpaceSectorBST.FindSectorByCode | SpaceSectorBST.cpp:240-242 | The result is the first level-order match. It is null exactly when no stored sector has the code, and otherwise a stored sector with the code. |
| SectorBST.SpaceSectorBST.FindSectorByCodeBFS | SpaceSectorBST.cpp:244-270 | The queue loop returns the first sector in level order whose code matches, or null. |
| SectorBST.SpaceSectorBST.GetStellarPath | SpaceSectorBST.cpp:199-217 | The path is empty exactly when the pre-order search finds no sector with the code. Otherwise it starts at the root, ends at the sector found, and each entry is the parent of the next and links to it as a child. |
| SectorBST.ClimbToRoot | SpaceSectorBST.cpp:208-212 | Following parent links from the end of a parent chain collects the chain backwards. |
| SectorBST.SpliceSound | SpaceSectorBST.cpp:98-128 | Unlinking a sector with at most one child keeps the arena a sound tree. The root link changes only when the sector had no parent. |
| SectorBST.SpliceRemovesKey | SpaceSectorBST.cpp:98-128 | Unlinking a sector with at most one child from an ordered tree removes exactly its key from the in-order keys, and the tree stays ordered. |
| SectorBST.SwapSound | SpaceSectorBST.cpp:133-137 | Swapping the coordinates, distance and code of two sectors leaves the links alone, so the tree stays sound. |
| SectorBST.SwapSpliceRemovesKey | SpaceSectorBST.cpp:130-144 | The successor is the leftmost sector of the right subtree and has no left child. Swapping data with it and unlinking it removes exactly the deleted key, and the tree stays ordered. |
| SectorBST.NewLeaf | SpaceSectorBST.cpp:60-63 | A new sector whose parent is set to the node it hangs from is a linked one-node tree holding its key. Only that one handle is added to the arena. |
| LlrbSpec.RotLProperties | SpaceSectorLLRBT.cpp:108-121 | Rotating left keeps the in-order key sequence. When the right child was red, a right rotation undoes it. |
| LlrbSpec.RotRProperties | SpaceSectorLLRBT.cpp:93-106 | Rotating right keeps the in-order key sequence. When the left child was red, a left rotation undoes it. |
| LlrbSpec.FlipProperties | SpaceSectorLLRBT.cpp:124-130 | The colour flip keeps the in-order key sequence, and flipping twice restores the colours. |
| LlrbSpec.BalanceInOrder | SpaceSectorLLRBT.cpp:79-88 | The three fix-ups together keep the in-order key sequence. |
| LlrbSpec.InsInOrder | SpaceSectorLLRBT.cpp:64-91 | The rebalancing insertion has the same in-order key sequence as plain search-tree insertion. |
| LlrbSpec.LlrbInsertOrdered | SpaceSectorLLRBT.cpp:59-91 | Inserting into an ordered tree keeps it ordered. The keys become those below the new key, the key, then those above. The key set becomes the old one plus the key, so the key is added exactly when it was absent. |
| LlrbSpec.BalanceValid | SpaceSectorLLRBT.cpp:79-88 | On a node that is already a valid left-leaning red-black tree, the fix-ups change nothing. |
| LlrbSpec.BalanceAfterLeft | SpaceSectorLLRBT.cpp:79-88 | After an insertion into the left subtree, the fix-ups restore black balance and left leaning without changing the black height. No two reds remain in a row, except a red top over red children that the parent's fix-up resolves. |
| LlrbSpec.BalanceAfterRight | SpaceSectorLLRBT.cpp:79-88 | The same after an insertion into the right subtree. |
| LlrbSpec.InsInvariant | SpaceSectorLLRBT.cpp:64-91 | Insertion into a valid tree keeps perfect black balance, left leaning and the black height. It introduces two reds in a row only directly below a node that was red. |
| LlrbSpec.LlrbInsertValid | SpaceSectorLLRBT.cpp:59-62 | After insertion and painting the root black, the tree is a valid left-leaning red-black tree with a black root, and its black height grows by at most one. |
| LlrbSpec.InsPresent | SpaceSectorLLRBT.cpp:64-91 | On a duplicate key, the rebalancing still runs but returns the valid tree unchanged. |
| SectorLLRB.SpaceSectorLLRBT.constructor | SpaceSectorLLRBT.cpp:9 | The new tree is empty and valid, with a null root. |
| SectorLLRB.SpaceSectorLLRBT.InsertSectorByCoordinates | SpaceSectorLLRBT.cpp:59-62 | The tree of colours and keys becomes `LlrbInsert` of the old one: ordered, left-leaning red-black, black root. The keys become those below the new key, the key, then those above. The arena stays a sound, linked tree. |
| SectorLLRB.SpaceSectorLLRBT.InsertRecursive | SpaceSectorLLRBT.cpp:64-91 | The subtree's view becomes its `Ins`, with the new node red and its parent set. At most one sector is added, sectors outside the subtree keep their links, and all stored data is kept. |
| SectorLLRB.SpaceSectorLLRBT.FixUp | SpaceSectorLLRBT.cpp:79-88 | The three conditional fix-ups turn the subtree's view into its `Balance`. They only rearrange links and colours of the subtree. |
| SectorLLRB.SpaceSectorLLRBT.IsRed | SpaceSectorLLRBT.cpp:133-138 | A link is red exactly when it points at a red sector. Null is not red. |
| SectorLLRB.SpaceSectorLLRBT.RotateLeft | SpaceSectorLLRBT.cpp:108-121 | The rewiring turns the subtree's view into `RotL` of it: the right child is promoted with the old node's colour, the old node becomes red, and the parent links of both and of the moved grandchild are updated. Nothing outside the subtree changes. |
| SectorLLRB.SpaceSectorLLRBT.RotateRight | SpaceSectorLLRBT.cpp:93-106 | The mirror image: the view becomes `RotR` of it. |
| SectorLLRB.SpaceSectorLLRBT.FlipColors | SpaceSectorLLRBT.cpp:124-130 | The view becomes `Flip` of it: the node and both children toggle colour when both children exist, and nothing changes otherwise. Links are untouched. |
| SectorLLRB.SpaceSectorLLRBT.GetPath | SpaceSectorLLRBT.cpp:212-236 | The result is true exactly when the pre-order search finds a sector with the code. Then the codes from the root down to that sector have been appended. Otherwise the path is as it was before the call. |
| SectorLLRB.SpaceSectorLLRBT.GetStellarPathAsWritten | SpaceSectorLLRBT.cpp:239-281 | As written. The path is empty when Earth or the target is missing. Otherwise it is the sectors found for the codes of the walk with the source's intersection, -1 on equal paths. When the target is Earth it is the lookups of Earth's whole root path backwards, ending at the root's code. |
| SectorLLRB.SpaceSectorLLRBT.GetStellarPath | SpaceSectorLLRBT.cpp:239-281 | Corrected version. The path is empty when Earth or the target is missing. Otherwise it is the sectors found for the codes from Earth's code up to the last shared code, then down to the target. |
| SectorLLRB.Lookups | SpaceSectorLLRBT.cpp:270-278 | Each entry is what `findSector` from the root returns for the code at the same position. |
| SectorLLRB.WalkUp | SpaceSectorLLRBT.cpp:270-273 | The first assembly loop looks up the first path's codes from its end back to just after the intersection. |
| SectorLLRB.WalkDown | SpaceSectorLLRBT.cpp:275-278 | The second assembly loop appends the lookups of the second path's codes from the intersection on. With an intersection of -1, the unsigned comparison stops it at once. |
| SectorLLRB.CodePathEnds | SpaceSectorLLRBT.cpp:212-236 | The code path from the root to a sector of the tree starts with the root's code and ends with the sector's. The search finds a sector for each of its codes. |
| SectorLLRB.StellarPathEnds | SpaceSectorLLRBT.cpp:239-281 | When Earth and the target are both present, the corrected path is not empty, starts at Earth's sector, ends at the target's sector, and has no null entry. |
| SectorLLRB.InsertedValid | SpaceSectorLLRBT.cpp:59-62 | After an insertion below the root and painting the root black, the arena is again a valid tree whose view is `LlrbInsert` of the old view. |
| LlrbStellar.CommonPrefix | SpaceSectorLLRBT.cpp:255-267 | The number of leading codes the two paths share: they agree before it, and differ at it when both continue. |
| LlrbStellar.CommonPrefixUnique | SpaceSectorLLRBT.cpp:255-267 | A shared prefix that cannot be extended is the common prefix. |
| LlrbStellar.IntersectionAsWritten | SpaceSectorLLRBT.cpp:255-267 | As written, the intersection is one before the first difference. It stays -1 when the two paths are equal, that is when the target is Earth. A read past the end of a path counts as a difference. |
| LlrbStellar.Intersection | SpaceSectorLLRBT.cpp:255-267 | Corrected: the intersection is always the last shared position, including when the paths are equal. |
| LlrbStellar.PathCodesWalk | SpaceSectorLLRBT.cpp:270-278 | With the intersection at the last shared code, the codes looked up are the first path's end back to just after the meeting point, then the second path from the meeting point on. The meeting code appears once, the walk starts at the first path's end and ends at the second's, and its length is the two unshared parts plus one. |
| LlrbStellar.PathCodesSplit | SpaceSectorLLRBT.cpp:270-278 | That walk is the first path's unshared part reversed, followed by the second path from the last shared code. |
| LlrbStellar.PathCodesEnds | SpaceSectorLLRBT.cpp:270-278 | The corrected walk is not empty, starts with the end of the first path and ends with the end of the second. |
| LlrbStellar.PathCodesCovered | SpaceSectorLLRBT.cpp:270-278 | Every code the walk looks up is a code of one of the two paths. |
| LlrbStellar.PathCodesNoIntersection | SpaceSectorLLRBT.cpp:270-278 | With the intersection at -1, the walk is the first path reversed alone. |
| LlrbStellar.AsWrittenClimbsToRoot | SpaceSectorLLRBT.cpp:255-278 | When the two paths are equal, the code as written walks from Earth all the way up to the root. The corrected walk is Earth alone. The two differ whenever Earth is not the root. |
| LlrbStellar.AsWrittenExample | SpaceSectorLLRBT.cpp:255-278 | For a root "5RUS" with Earth as its left child and Earth as the target, the path as written is Earth then "5RUS". The corrected path is Earth alone. |
| KdTree.MinIndex | KD_Tree.cpp:55-58 | The position of a point with the least coordinate in the chosen dimension, among those from `from` to the end. |
| KdTree.NthElement | KD_Tree.cpp:55-58 | `nth_element`: the array is permuted so that no point before position `nth` has a greater coordinate, and none after it a smaller one. |
| KdTree.SplitAtMedian | KD_Tree.cpp:52-65 | The points are permuted around the median position `n/2`. The left half is the points before it, the right half is the points after it, and the median goes in neither. Every left point's coordinate is ≤ the split value and every right point's is ≥ it. |
| KdTree.BuiltInter | KD_Tree.cpp:61-67 | An internal node at the median's value over two halves, each built one level deeper, is a tree built from all the points. |
| KdTree.BuildRecursive | KD_Tree.cpp:41-68 | No points give a null node; otherwise the node is internal. The tree has internal nodes only, one per point, split dimensions cycling with depth (`depth % d`), and the k-d ordering. The split value is the coordinate of the point at `n/2` of the permuted points, which is a median: no point before it has a greater coordinate in the split dimension and none after it a smaller one. The left subtree holds `n/2` points. The points are only permuted. |
| KdTree.Tag | KD_Tree.cpp:104-107 | A leaf point's copy keeps its label and features, and gains its distance from the query as one more, last feature. |
| KdTree.Tagged | KD_Tree.cpp:104-107 | The tagging loop tags every leaf point, in place and order. |
| KdTree.SortByLastProperties | KD_Tree.cpp:110-112 | The sort orders the tagged points by their last feature without adding or losing any. |
| KdTree.InsertByLastProperties | KD_Tree.cpp:110-112 | Inserting a point into a sorted list keeps it sorted and adds exactly that point. |
| KdTree.PushFirstAppends | KD_Tree.cpp:115-117 | The push loop appends the first `min(k, size)` points. |
| KdTree.LeafSearch | KD_Tree.cpp:101-117 | The leaf case keeps the neighbours gathered so far as a prefix, and the last neighbour after it carries a distance as its last feature. Which points it appends is stated by `LeafNearest`. |
| KdTree.LeafNearest | KD_Tree.cpp:101-117 | A leaf appends `min(k, |leaf|)` of its tagged points, in non-decreasing distance. No tagged point left out is nearer than any appended one. |
| KdTree.SearchExtends | KD_Tree.cpp:93-146 | The search only appends: the neighbours gathered before the call stay a prefix of the result. |
| KdTree.SearchFromLeaves | KD_Tree.cpp:93-146 | Every neighbour the search appends is a tagged point of some leaf of the subtree. |
| KdTree.SearchNoLeaves | KD_Tree.cpp:95-145 | On a tree without leaves the search gathers nothing. |
| KdTree.LeafNeighbors | KD_Tree.cpp:101-117 | The tagging loop, the sort and the push loop compute exactly the leaf case of the search. |
| KdTree.KnnRecursive | KD_Tree.cpp:93-146 | `kNNRecursive` computes exactly the search on the node. A null node adds nothing. |
| KdTree.KnnInter | KD_Tree.cpp:120-141 | The internal-node case computes exactly the near-side-first, pruned search. |
| KdTree.DimsFits | KD_Tree.cpp:49 | A tree whose split dimensions come from `depth % d` only splits on dimensions a point with `d` features has. |
| KdTree.KDTree.constructor | KD_Tree.cpp:6-7 | An empty tree with threshold 0.1. |
| KdTree.KDTree.WithThreshold | KD_Tree.cpp:10-11 | An empty tree with the given threshold. |
| KdTree.KDTree.Build | KD_Tree.cpp:72-75 | The tree is built from a copy of the data, which is left as it is. It has internal nodes only, one per point, the k-d ordering, split dimensions below the data's width, and split values within every bound the points share. |
| KdTree.KDTree.Knn | KD_Tree.cpp:84-91 | The search from the root starting with no neighbours. On a tree without leaves, such as every built tree, it returns nothing. |
| Knn.HabitableCountPositive | kNN.cpp:43-52 | The count is positive exactly when some neighbour's label is exactly "Habitable". |
| Knn.HabitableCountAppend | kNN.cpp:43-48 | The count over two lists of neighbours is the sum of their counts. |
| Knn.HabitableCountPermutation | kNN.cpp:43-48 | The count does not depend on the order of the neighbours. |
| Knn.DecideProperties | kNN.cpp:50-56 | The decision is 0 or 1. It is 1 exactly when some neighbour is habitable. It is 0 for no neighbours, and it does not depend on the neighbours' order. |
| Knn.AnyMatch | kNN.cpp:41-52 | One habitable neighbour among any others already decides 1: this is any-match, not a majority vote. |
| Knn.SizeT | kNN.cpp:39 | Converting the `int` k to `size_t` gives the unique value below 2^64 that is congruent to k modulo 2^64. |
| Knn.KNN.constructor | kNN.cpp:5 | Stores k and the threshold and starts with an empty tree. |
| Knn.KNN.Predict | kNN.cpp:37-57 | The counting loop ends with the number of habitable neighbours. The answer is 1 exactly when one of the neighbours the tree search returns is labelled "Habitable", and 0 otherwise. On a tree without leaves, such as a built one, the answer is 0. |

## Left out

- File reading (`readSectorsFromFile` in both trees, `KNN::train`'s CSV-fed standardisation): file I/O and floating-point arithmetic with `pow`, `sqrt` and division by a possibly-zero deviation.
- Console output (`display*`, the traversal printers, `printSector`, `printStellarPath`): they only print. The in-order order is the ghost `InOrder` instead.
- Teardown (`deleteTree`, the destructors, `KD_Tree::clear`): memory release only. The arena simply drops a handle on deletion.
- `findPathToRoot` of the red-black tree: nothing calls it.
- `KD_Tree::getRoot`: it only returns the root field, which the model reads directly.
- Floating point: the sector distance is the integer square root of the squared distance, since `static_cast<int>(sqrt(n))` equals it for every `n` that fits an `int`. Point features are mathematical reals. `Point::calculateDistance` is the function parameter `dist`.
- Sectors.NewSector: requires that `x*x + y*y + z*z` fits an `int`, since the overflow is undefined behaviour in the source. The insertion methods demand it only when the key is absent, because only then is a sector constructed.
- The sector's `distance_from_earth` is a `double` in the source. The model stores the truncated integer distance, the only value the code is derived from.
- LlrbStellar.IntersectionAsWritten: the intersection loop reads past the end of the shorter path when one path is a prefix of the other. That read is modelled as a mismatch, which ends the loop at the right position.
- Duplicate codes: different coordinates can share a code (`Sectors.CodesCollide`). The model states every result over codes and handles: the first match in level order or pre-order, and the lookups the red-black path performs. It does not assume codes are unique.
- The split threshold of `KD_Tree` and `KNN` is stored but never read, so nothing depends on it.
- KdTree.SortByLast: `std::sort` does not fix the order of points at equal distance. The model is one particular stable sort, so results that depend on tie order are those of that sort. All stated properties (sorted, a permutation, the nearest taken) hold for any order of ties.
- KdTree.NthElement: `std::nth_element` does not fix which of the points tied at the median value land before or after it. The model is one particular selection, so the halves, and with them the deeper split values, can differ from those of a given standard library. The stated properties (a permutation, partitioned around position `n/2`) hold for any such selection.
- KdTree.Search: with `k == 0` and no neighbours gathered, `neighbors.back()` is undefined behaviour. The search requires `k > 0` or a non-empty list at internal nodes, so `KDTree.Knn` and `KNN.Predict` require `k > 0` only when the root is an internal node; an empty tree or a leaf root accepts any `k`.
- KdTree.KDTree.Knn: requires the query to have every split dimension of the tree (`Fits`). Reading `queryPoint.features[split_dimension]` of a query with fewer features is undefined behaviour in the source. `KNN.Predict` carries the same requirement.
- KdTree.KDTree.Build: requires every point to have the same non-zero number of features. The source divides by the first point's feature count and reads every point's feature at that dimension.
- Knn.KNN.Predict: `k` is an `int` and is limited to the 32-bit range. Its conversion to `size_t` is `Knn.SizeT`.
- `dynamic_cast` to a leaf or internal node: the node kinds are the constructors of `KdNode`. A null or other node is `Nil`, for which the search does nothing.

## Findings

| source | as written | input that shows it | evidently intended | confidence | as-written member | corrected member |
|---|---|---|---|---|---|---|
| SpaceSectorLLRBT.cpp:255-278 | When the target is Earth, both code paths are equal. The intersection loop runs to the end and leaves `intersection` at -1. The first assembly loop then pushes the whole path from Earth up to the root, and the second loop's `int`/`size_t` comparison turns -1 into the largest size, so it pushes nothing. The path ends at the root rather than at Earth. | A root at (3, 4, 0) with code "5RUS", Earth at the origin as its left child, target code "0SSS". The path comes out as Earth, then "5RUS". | A path from Earth to Earth is Earth alone: the intersection should be the last shared position. | not executed | SectorLLRB.SpaceSectorLLRBT.GetStellarPathAsWritten | SectorLLRB.SpaceSectorLLRBT.GetStellarPath |
