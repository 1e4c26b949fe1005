# Ordered trees of PriorityQueueImplementations, in Dafny

This project models the two in-memory ordered key/value trees of the
PriorityQueueImplementations repository and proves what they promise.

- **The left-leaning red-black tree** (`RedBlackTreeHandle` in
  `DataStructures/RedBlackTree.hpp`) is covered in four parts:
  - **node and queries:** the node record, its cached subtree size and the colour tests;
  - **moves:** the 2-/3-/4-node classifiers, the rotations, the colour flip, the 2-node
    merge and the two sibling borrows;
  - **operations:** insertion and minimum deletion, with the shared three-step fix-up;
  - **self-check:** `debugCheckDefinition`, which tests the three conditions of the tree's
    Definition 1.
- **The plain binary search tree** (`BSTHandle` in `BinarySearchTree.hpp`) is modelled with
  its size, insertion, search, minimum, minimum deletion and emptiness test.

The source relinks nodes in place and returns the new subtree root. No node is
ever shared by two parents at a stable point, so a tree is modelled as a
value: `Tree = Nil | Node(...)`. Each relinking routine becomes a function
from the old subtree to the rebuilt one. The parts that work step by step
stay imperative:
- the recursive path walk `traverseAllPaths`, which appends to a list of heights;
- the min/max comparison of `checkDef1_3`;
- `debugCheckDefinition`;
- the `BSTHandle` object, whose root slot `insert` and `deleteMin` overwrite.

Modules and files:

| file | module | what it holds |
|---|---|---|
| `bindings.dfy` | `Bindings` | in-order binding lists: strict key order, lookup, sorted insertion |
| `bst.dfy` | `BinarySearchTree` | the unbalanced search tree as functions on the node tree |
| `bst_handle.dfy` | `BinarySearchTreeHandle` | the `BSTHandle` class around a root slot |
| `rb_node.dfy` | `RedBlackNode` | node record, sizes, colour tests, classifiers, black heights, lean conditions |
| `rb_moves.dfy` | `RedBlackMoves` | rotations, colour flip, merge, the two borrows, the fix-up |
| `rb_insert.dfy` | `RedBlackInsert` | `insert` and `doInsert` |
| `rb_delete_min.dfy` | `RedBlackDeleteMin` | `deleteMin`, `doDeleteMin` and `doDeleteMinRecursive` |
| `rb_check.dfy` | `RedBlackCheck` | `debugCheckDefinition` and its three conditions |

**The invariant of the red-black tree** (`RedBlackNode.Valid`) has four parts:
- in-order keys strictly increase;
- every cached size is right;
- the lean conditions hold: no RED right link, and no RED left link below another RED left
  link;
- the tree has perfect black balance.

A nil slot counts as a BLACK link. The colour of the root is not constrained.

Insertion and minimum deletion keep this invariant. Insertion adds or overwrites exactly one
binding, and minimum deletion removes exactly the smallest one.

## Model

| member | source | states |
|---|---|---|
| BinarySearchTree.Size | BinarySearchTree.hpp:109-116 | the recursive node count equals the number of bindings in the tree |
| BinarySearchTree.Insert | BinarySearchTree.hpp:118-137 | the result is never empty; on an ordered tree it stays ordered and holds exactly the sorted insertion of (k, v): a new binding, or the old binding of k replaced |
| BinarySearchTree.Search | BinarySearchTree.hpp:144-160 | on an ordered tree, the value bound to k in the in-order bindings, and nothing when k is absent |
| BinarySearchTree.Min | BinarySearchTree.hpp:167-178 | empty exactly for the empty tree; otherwise a node without a left child that holds the first binding, whose key is below every other key of an ordered tree |
| BinarySearchTree.DeleteMinWithNodeKey | BinarySearchTree.hpp:201-215 | unlinking a node of the left spine by identity removes a prefix of the bindings and nothing else |
| BinarySearchTree.DeleteMin | BinarySearchTree.hpp:185-189 | an empty tree stays empty; otherwise exactly the first (smallest) binding is removed and the order is kept |
| BinarySearchTree.DeleteMinUnlinksFirst | BinarySearchTree.hpp:185-189 | the node found by min, unlinked by identity, is exactly the first binding |
| BinarySearchTreeHandle.BstHandle.constructor | BinarySearchTree.hpp:93-94 | a new handle holds an empty, ordered tree |
| BinarySearchTreeHandle.BstHandle.FromRoot | BinarySearchTree.hpp:96-97 | the handle adopts the given tree as its root |
| BinarySearchTreeHandle.BstHandle.Size | BinarySearchTree.hpp:104-107 | the number of bindings held |
| BinarySearchTreeHandle.BstHandle.Insert | BinarySearchTree.hpp:139-142 | the held bindings become the sorted insertion of (k, v); afterwards k is bound to v, and the count grows by one exactly when k was absent |
| BinarySearchTreeHandle.BstHandle.Search | BinarySearchTree.hpp:162-165 | the value bound to k in the held bindings, or nothing |
| BinarySearchTreeHandle.BstHandle.Min | BinarySearchTree.hpp:180-183 | empty exactly when nothing is held, otherwise the node holding the first binding |
| BinarySearchTreeHandle.BstHandle.DeleteMin | BinarySearchTree.hpp:196-199 | the held bindings lose their first element (nothing happens when empty) and stay ordered |
| BinarySearchTreeHandle.BstHandle.Empty | BinarySearchTree.hpp:191-194 | true exactly when no binding is held |
| RedBlackNode.NewNode | DataStructures/RedBlackTree.hpp:25-26 | a childless node of the given colour holding one binding, with a correct size of 1 |
| RedBlackNode.GetSize | DataStructures/RedBlackTree.hpp:51-57 | 0 for an empty slot; with correct cached sizes, the number of bindings in the subtree |
| RedBlackNode.UpdateSize | DataStructures/RedBlackTree.hpp:188-192 | only the top node's size changes; when the children's sizes are right, every size of the result is right |
| RedBlackNode.IsRed | DataStructures/RedBlackTree.hpp:403-411 | an empty slot is never RED; `NodeKinds` adds that a node is RED exactly when it is not BLACK |
| RedBlackNode.IsBlack | DataStructures/RedBlackTree.hpp:414-422 | an empty slot is not BLACK either; a node is BLACK exactly when it is not RED |
| RedBlackNode.Is2Node | DataStructures/RedBlackTree.hpp:515-523 | true exactly when the 2-3-4 node topped by the slot holds one key |
| RedBlackNode.Is3Node | DataStructures/RedBlackTree.hpp:526-532 | true exactly when the 2-3-4 node holds two keys and the RED link is the left one |
| RedBlackNode.Is4Node | DataStructures/RedBlackTree.hpp:535-541 | true exactly when the 2-3-4 node holds three keys |
| RedBlackNode.NodeKinds | DataStructures/RedBlackTree.hpp:515-541 | the colour tests and classifiers are false on an empty slot; the classifiers count the keys of the 2-3-4 node and never overlap; with no RED right link, exactly one of the 2- and 3-node tests holds |
| RedBlackMoves.RotateRight | DataStructures/RedBlackTree.hpp:358-370 | the left child is promoted with the old root's colour and size, and the old root becomes its RED right child; the bindings and correct sizes are kept |
| RedBlackMoves.RotateLeft | DataStructures/RedBlackTree.hpp:373-385 | the mirror of rotateRight, with the same guarantees |
| RedBlackMoves.RotateRightThenLeft | DataStructures/RedBlackTree.hpp:358-385 | rotating left undoes rotating right over a RED left link |
| RedBlackMoves.RotateLeftThenRight | DataStructures/RedBlackTree.hpp:358-385 | rotating right undoes rotating left over a RED right link |
| RedBlackMoves.FlipColor | DataStructures/RedBlackTree.hpp:388-400 | the node becomes RED and each existing child BLACK; links, keys and sizes are untouched, and an empty slot is left alone |
| RedBlackMoves.Merge2Nodes | DataStructures/RedBlackTree.hpp:428-435 | both children become RED exactly when both are non-empty and BLACK; otherwise the tree is unchanged |
| RedBlackMoves.MoveSiblingFromRight | DataStructures/RedBlackTree.hpp:441-461 | under its guard, b(a, cd) becomes c(ab, d): the bindings, the root colour and correct sizes are kept, and the old left child ends up RED under a BLACK node |
| RedBlackMoves.MoveSiblingFromRightLinks | DataStructures/RedBlackTree.hpp:437-440 | where each subtree lands after the borrow from the right |
| RedBlackMoves.BorrowFromLeft | DataStructures/RedBlackTree.hpp:463-470 | the relinking of moveSiblingFromLeft: c(b(a RED), d) becomes b(a, d(c RED)), with the bindings and the root colour kept |
| RedBlackMoves.MoveSiblingFromLeftAsWritten | DataStructures/RedBlackTree.hpp:463-480 | its size updates go through the stale pointer, and fail exactly when the right sibling has no left child |
| RedBlackMoves.MoveSiblingFromLeftCrashes | DataStructures/RedBlackTree.hpp:472-474 | a valid tree that satisfies the guard, on which the as-written size updates hit an empty slot |
| RedBlackMoves.MoveSiblingFromLeft | DataStructures/RedBlackTree.hpp:463-480 | with the size updates on the moved nodes: the bindings, the root colour and correct sizes are kept |
| RedBlackMoves.WithLeft | DataStructures/RedBlackTree.hpp:598-601 | replacing a left subtree and updating the size gives the expected bindings, keeps the colour and right subtree, and keeps sizes right |
| RedBlackMoves.FixUp | DataStructures/RedBlackTree.hpp:496-511 | the bindings are kept; the result has no RED right link and no RED pair down its left; correct child sizes give correct sizes |
| RedBlackMoves.FixUpRestores | DataStructures/RedBlackTree.hpp:618-634 | given lean, balanced children with at most one local violation, the fix-up gives a lean, balanced tree, keeps the black height unless it split a RED top, and keeps the colour when nothing applies |
| RedBlackInsert.DoInsert | DataStructures/RedBlackTree.hpp:483-512 | never empty; on an ordered tree the bindings become the sorted insertion of (k, v), keeping the stored key of an equal node; correct sizes stay correct |
| RedBlackInsert.DoInsertBalance | DataStructures/RedBlackTree.hpp:483-512 | doInsert keeps the lean conditions and black balance, raises the rank only through a RED pair, and returns a RED pair only from a RED subtree |
| RedBlackInsert.Insert | DataStructures/RedBlackTree.hpp:59-64 | the root is BLACK; the bindings are the sorted insertion of (k, v) |
| RedBlackInsert.InsertKeepsValid | DataStructures/RedBlackTree.hpp:59-64 | insert keeps the tree invariant; the size grows by one exactly when k was absent |
| RedBlackInsert.InsertLookup | DataStructures/RedBlackTree.hpp:59-64 | after insert, k is bound to v and every other key keeps its binding |
| RedBlackDeleteMin.SpineFacts | DataStructures/RedBlackTree.hpp:576-602 | below a ready 3- or 4-node, the next level down is a 2-node with a 2- or 3-node sibling, a ready 3-node, or the bottom |
| RedBlackDeleteMin.MergedReady | DataStructures/RedBlackTree.hpp:548-552 | merging a 2-node root whose children are 2-nodes gives a ready 4-node, one black link lower |
| RedBlackDeleteMin.MergedBelowReady | DataStructures/RedBlackTree.hpp:581-587 | merging the left child and painting it BLACK gives a ready 4-node with the same bindings and rank |
| RedBlackDeleteMin.BorrowedReady | DataStructures/RedBlackTree.hpp:437-461 | after the borrow, the left side is a ready 3-node of the old rank, and the right side is lean and balanced |
| RedBlackDeleteMin.BorrowReady | DataStructures/RedBlackTree.hpp:588-593 | borrowing from a 3-node sibling makes the left child a ready BLACK 3-node and keeps the black height |
| RedBlackDeleteMin.DoDeleteMinRecursive | DataStructures/RedBlackTree.hpp:576-638 | from a ready 3- or 4-node, exactly the first binding is removed; any other input gives the empty slot |
| RedBlackDeleteMin.DoDeleteMinRecursiveSizes | DataStructures/RedBlackTree.hpp:576-638 | doDeleteMinRecursive leaves every cached size right |
| RedBlackDeleteMin.DoDeleteMinRecursiveBalance | DataStructures/RedBlackTree.hpp:576-638 | doDeleteMinRecursive keeps the lean conditions and black balance, keeps a BLACK node's rank and a 3-node's colour, and returns a RED pair only from a RED node |
| RedBlackDeleteMin.RootFacts | DataStructures/RedBlackTree.hpp:544-569 | at the root of a lean, balanced tree, only the branches doDeleteMin handles can occur |
| RedBlackDeleteMin.DoDeleteMin | DataStructures/RedBlackTree.hpp:544-575 | an empty tree stays empty; otherwise exactly the first binding is removed |
| RedBlackDeleteMin.DoDeleteMinBalance | DataStructures/RedBlackTree.hpp:544-575 | doDeleteMin keeps the lean conditions and black balance |
| RedBlackDeleteMin.DoDeleteMinSizes | DataStructures/RedBlackTree.hpp:544-575 | doDeleteMin leaves every cached size right |
| RedBlackDeleteMin.DeleteMin | DataStructures/RedBlackTree.hpp:180-183 | an empty tree stays empty; otherwise exactly the first binding is removed |
| RedBlackDeleteMin.DeleteMinKeepsValid | DataStructures/RedBlackTree.hpp:180-183 | deleteMin keeps the invariant, every remaining key is above the removed one, and the size drops by one |
| RedBlackCheck.PathHeightsBalanced | DataStructures/RedBlackTree.hpp:330-355 | the leftmost path lies at the black height, and all recorded path heights are equal exactly when the tree has perfect black balance |
| RedBlackCheck.NoRedRightLink | DataStructures/RedBlackTree.hpp:208-225 | true exactly when no node of the tree has a RED right link; `DebugCheckDefinition` runs it as condition (1), and `LeanBelow` and `CorrectedLean` tie it to the lean conditions |
| RedBlackCheck.NoNodeWithTwoRedChildren | DataStructures/RedBlackTree.hpp:241-253 | true exactly when no node of the tree is a 4-node; `CorrectedImpliesAsWritten` shows condition (2) as defined implies it, and `CheckAcceptsRedChain` shows it is weaker |
| RedBlackCheck.TraverseAllPaths | DataStructures/RedBlackTree.hpp:330-355 | appends the BLACK-link count of every root-to-nil path, left to right |
| RedBlackCheck.MinEqualsMax | DataStructures/RedBlackTree.hpp:316-321 | the smallest height equals the largest exactly when all heights are equal |
| RedBlackCheck.CheckBlackBalance | DataStructures/RedBlackTree.hpp:256-327 | passes exactly when every root-to-nil path crosses as many BLACK links |
| RedBlackCheck.DebugCheckDefinition | DataStructures/RedBlackTree.hpp:169-178 | passes exactly when there is no RED right link, no node with two RED children, and perfect black balance |
| RedBlackCheck.LeanBelow | DataStructures/RedBlackTree.hpp:160-168 | below a link, conditions (1) and (2) as defined mean the lean conditions with no RED pair at the top |
| RedBlackCheck.CorrectedLean | DataStructures/RedBlackTree.hpp:160-168 | conditions (1) and (2) as defined are exactly the lean conditions |
| RedBlackCheck.CorrectedImpliesAsWritten | DataStructures/RedBlackTree.hpp:241-253 | condition (2) as defined implies the weaker test the checker runs |
| RedBlackCheck.BelowImpliesAsWritten | DataStructures/RedBlackTree.hpp:241-253 | the same, for a subtree below a link |
| RedBlackCheck.Definition1 | DataStructures/RedBlackTree.hpp:160-168 | Definition 1, with condition (2) as stated, holds exactly for lean, perfectly balanced trees |
| RedBlackCheck.ValidPassesCheck | DataStructures/RedBlackTree.hpp:169-178 | every lean, balanced tree passes all three conditions the checker runs |
| RedBlackCheck.CheckAcceptsRedChain | DataStructures/RedBlackTree.hpp:241-253 | a tree with a RED pair down its left passes the checker, and inserting a smaller key then breaks black balance |
| RedBlackCheck.InsertKeepsDefinition | DataStructures/RedBlackTree.hpp:160-178 | insert keeps Definition 1 (condition (2) as defined), so its result also passes the checker |
| RedBlackCheck.DeleteMinKeepsDefinition | DataStructures/RedBlackTree.hpp:160-178 | deleteMin keeps Definition 1 (condition (2) as defined), so its result also passes the checker |

## Left out

- Console output is not modelled: `debugPrintTreeExpr`, every print inside the checker, the
  `onPathAdded` callbacks and the `suppressDebug` flag only present information.
- The `path` deque and the `paths` vector of `traverseAllPaths` are left out. Only the printing
  callbacks read them, so the model records the heights alone.
- Deletion by key (`doDeleteNodeByKey`, `doDeleteNodeByKeyRecursive`, `swap2Node`, and the two
  `deleteRootInA2Node...` helpers, DataStructures/RedBlackTree.hpp:640-776) is left out:
  - the code is unfinished: its recursive step always returns null, and several branches are empty;
  - it is the only caller of `moveSiblingFromLeft`, which is modelled on its own.
- Shared pointers, reference counts, heap allocation and aliasing are not modelled. A tree is a
  value that each routine rebuilds. Updates made through a stale pointer are modelled only
  where they change the outcome, in the two sibling borrows.
- Keys are `int` rather than the `Comparable` key type, and the key and value pointers are
  plain values.
- Sizes and path heights are unbounded naturals, so `size_t` overflow is not modelled.
- RedBlackDeleteMin.DeleteMin: requires the lean conditions and perfect black balance. The
  source has no such precondition. These conditions are the invariant every public operation
  keeps (`RedBlackInsert.InsertKeepsValid`, `RedBlackDeleteMin.DeleteMinKeepsValid`).
  - On some inputs that break them, the source hits `assert(false)`
    (DataStructures/RedBlackTree.hpp:558, 568, 595).
  - On others it returns a wrong tree. For the unbalanced tree 1(nil, 2 BLACK), the root is a
    2-node whose left slot is empty, so line 563 returns null and key 2 is lost.
  - The same requirements stand on `DoDeleteMin`.
  - The readiness condition stands on `DoDeleteMinRecursive`.
  - Those `assert(false)` branches are proved unreachable.
- RedBlackMoves.MoveSiblingFromRight: its guard is a precondition. The source asserts, and then
  falls off the end without a result, when the guard fails. `MoveSiblingFromLeft` and its
  as-written form carry their guard the same way.
- RedBlackDeleteMin.DeleteMin: claims no BLACK root. Unlike `insert`, `deleteMin` does not
  repaint the root, and the checker ignores the root's colour.
- BinarySearchTree.Search: the recursive calls at BinarySearchTree.hpp:154 and 156 pass no key
  and would not compile once instantiated. The model passes the key down, as the surrounding
  code evidently intends.
- BinarySearchTree.DeleteMinWithNodeKey: the source compares node pointers, and the model
  compares subtrees. The two agree when the target is the node min returned. Every node
  above it on the left spine holds more bindings, so only that node equals it.
- `BSTHandle::get()` is not a separate member. The model's `root` field is read directly.
- RedBlackNode.NodeKinds: states the classifiers as the code defines them. A node whose only RED
  child link is the right one is named by none of `is2Node`, `is3Node` and `is4Node`. So
  "exactly one classifier" holds only when there is no RED right link.

## Findings

| source | as written | input that shows it | evidently intended | confidence | as-written member | corrected member |
|---|---|---|---|---|---|---|
| DataStructures/RedBlackTree.hpp:472-474 | after the two rotations the size updates go through `root`, the old top node, so `root->right->left` reads the left child of the right sibling's former left child | the valid tree k3(k2(k1 RED), k4), whose right sibling k4 has no left child: `root->right` is null and is dereferenced | update the moved nodes c, d and b (`newRoot->right->left`, `newRoot->right`, `newRoot`) | not executed; the null read follows from the code | RedBlackMoves.MoveSiblingFromLeftAsWritten, RedBlackMoves.MoveSiblingFromLeftCrashes | RedBlackMoves.MoveSiblingFromLeft |
| DataStructures/RedBlackTree.hpp:241-253 | condition (2) rejects only a node with two RED children, not a RED node with a RED child | k3(k2 RED(k1 RED)) passes all three checks; inserting a smaller key k0 gives k3(k1 RED(k0, k2), nil), whose paths cross two and one BLACK links | reject any node touching two RED links, its own link included, as Definition 1 states (lines 160-168) | not executed; high | RedBlackCheck.NoNodeWithTwoRedChildren, RedBlackCheck.CheckAcceptsRedChain | RedBlackCheck.NoTwoRedLinks, RedBlackCheck.Definition1 |
