# Ordered-key tree engines: BST, AVL and red-black trees

This project models three ordered-key tree engines over `int` keys:

- the unbalanced binary search tree of `BST.cpp`;
- the AVL tree of `AVL.cpp`, which caches subtree heights;
- the CLRS-style red-black tree of `RB.cpp`, which has parent links and a
  shared black sentinel `TNULL`.

It then proves the properties the code promises about each of them.

## The modules

- `common.dfy` (`Common`): sorted key sequences, and the two edits the trees
  make to their in-order sequence.
  - `InsertSorted` places a key after every equal key.
  - `RemoveFirst` drops the first occurrence of a key.
- `bst.dfy` (`Bst`): the BST node is a datatype.
  - `insert`, `search`, `remove` and `height` are functions. Each mutator
    returns the new value of the subtree it was called on.
  - `findMin` is a loop.
- `avl.dfy` (`Avl`): the AVL node is a datatype with its cached `height`.
  - The rotations, `updateHeight`, `insert` and `remove` return the new
    subtree root, as the source does.
  - The balance and height lemmas follow each rebalancing case.
- `rb_heap.dfy` (`RedBlackHeap`): the red-black tree's node store.
  - It is an arena of parallel sequences `key`, `color`, `left`, `right` and
    `parent`. Index 0 is `TNULL`; `-1` (`NIL`) is `nullptr`.
  - Ghost bookkeeping per node: whether it is in the tree (`live`), the
    in-order keys of its subtree (`elems`) and its black height (`bh`).
  - `WellFormed` states that the links agree and each node's keys are in
    order. `IsRedBlack` adds the colour rules.
  - The rotations are defined as functions on this state, with lemmas
    proving they keep it well formed.
- The proof modules of the red-black tree:
  - `rb_fix_insert.dfy`: the `fixInsert` loop.
  - `rb_insert.dfy`: the insertion descent.
  - `rb_fix_delete.dfy`: the `fixDelete` loop.
  - `rb_delete.dfy`: the delete search and the removal of a node with at
    most one child.
  - `rb_relink.dfy`: the successor splice of the two-child removal.
- `rb.dfy` (`RedBlack`): the class `RedBlackTree`.
  - Its fields are the arena and `root`. Every method updates them in place,
    as `RB.cpp` does.
  - Each method states its new state as a function of the old one, or as
    the invariant of the loop it runs.

## Model

| member | source | states |
|---|---|---|
| Bst.InOrderKeys | BST.cpp:110-114 | The in-order key sequence holds exactly the stored keys, and it is sorted whenever the routing invariant holds. |
| Bst.Insert | BST.cpp:21-38 | The node keeps its value and the key multiset gains exactly one `val`. It goes into the left subtree exactly when `val < value`, so equal keys go right. The other subtree is untouched. |
| Bst.InsertChild | BST.cpp:23-36 | A null child becomes a node holding `val`; an existing child receives the insertion. Either way the subtree gains exactly one `val`. |
| Bst.InsertOrdered | BST.cpp:21-38 | Insertion keeps the routing invariant: smaller keys left, equal or larger keys right. |
| Bst.Search | BST.cpp:40-50 | A result is a subtree of the tree whose root holds `val`. A result exists only if `val` is stored, and on an ordered tree always when it is. |
| Bst.LeftmostIsMinimum | BST.cpp:52-58 | The value reached by following left links is a stored key. In an ordered tree no stored key is smaller. |
| Bst.FindMin | BST.cpp:52-58 | The loop returns a subtree with no left child. Its value is the leftmost value, a stored key, and in an ordered tree the least key. |
| Bst.Remove | BST.cpp:60-93 | Removing a key the tree does not hold returns the tree unchanged. |
| Bst.RemoveOrdered | BST.cpp:60-93 | On an ordered tree, removal keeps the routing invariant. It takes exactly one occurrence of `val` out of the key multiset, or none when `val` is absent. |
| Bst.RemoveAtNode | BST.cpp:71-90 | At the node holding `val`, a leaf becomes null and a node with one child becomes that child. A node with two children keeps its left subtree and takes the least key of its right subtree as its value; one occurrence of that key leaves the right subtree. |
| Bst.Height | BST.cpp:95-102 | The height is positive exactly for a node and never exceeds the number of keys. |
| Bst.InsertAll | BST.cpp:21-38 | Inserting a sequence of keys one by one adds exactly the multiset of that sequence. |
| Bst.InsertAboveChain | BST.cpp:30-37 | A key above every key of a right-only chain is appended at the chain's end, and the height grows by one. |
| Bst.ChainHeight | BST.cpp:95-102 | A right-only chain has a height equal to its number of keys. |
| Bst.IncreasingInsertsMakeChain | BST.cpp:30-37 | Strictly increasing keys build a right-only chain whose height equals the number of keys. |
| Avl.GetHeight | AVL.cpp:20-22 | When the caches are right, the cached height is the true height; a null child counts 0. |
| Avl.UpdateHeight | AVL.cpp:25-27 | Only the node's own height changes. It is right once the children's heights are right. |
| Avl.GetBalance | AVL.cpp:30-32 | With right caches, the balance is the left subtree's true height minus the right subtree's. |
| Avl.RightRotate | AVL.cpp:35-47 | The left child becomes the root and the old root its right child, taking over the child's right subtree. The in-order sequence is unchanged. Because the old root is refreshed first, both moved nodes end with right heights. |
| Avl.LeftRotate | AVL.cpp:50-62 | The mirror image of `Avl.RightRotate`: the right child becomes the root, the in-order sequence is unchanged and both moved nodes have right heights. |
| Avl.RightRotateBalanced | AVL.cpp:176-178 | A node two levels left-heavy whose left child does not lean right is balanced by one right rotation. The height drops by one exactly when the child leaned left. |
| Avl.LeftRotateBalanced | AVL.cpp:187-189 | The mirror case: a node two levels right-heavy whose right child does not lean left is balanced by one left rotation. |
| Avl.LeftRightRotateBalanced | AVL.cpp:181-184 | A node two levels left-heavy whose left child leans right is balanced by the double rotation, and its height drops by one. |
| Avl.RightLeftRotateBalanced | AVL.cpp:192-195 | The mirror double rotation balances a node two levels right-heavy whose right child leans left, and its height drops by one. |
| Avl.InsertRebalance | AVL.cpp:79-103 | The rebalancing tail of `insert` keeps the in-order sequence and right heights. It changes nothing at a balanced node, and lowers the height by at most one. |
| Avl.Insert | AVL.cpp:65-104 | The returned root has right heights. The height grows by at most one, and the side the key went to is not empty. |
| Avl.InsertInOrder | AVL.cpp:65-104 | The in-order sequence becomes the old one with `val` inserted after every equal key and before every larger one. |
| Avl.InsertBalanced | AVL.cpp:79-103 | Inserting a key not already stored keeps the tree an AVL tree. |
| Avl.InsertMatchesCorrected | AVL.cpp:82-101 | For a key not already stored, the source's insertion and the corrected one return the same tree. |
| Avl.InsertDuplicateUnbalances | AVL.cpp:82-101 | For any `a < b`, the AVL tree `b` with left child `a` is left with balance 2 after inserting `a` again. |
| Avl.InsertCorrectedBalanced | AVL.cpp:79-103 | With the corrected case tests, insertion keeps every node balanced for every key, duplicates included. |
| Avl.InsertCorrectedInOrder | AVL.cpp:65-104 | The corrected insertion adds `val` to the in-order sequence after every equal key. |
| Avl.Search | AVL.cpp:107-117 | A result is a subtree of the tree whose root holds `val`, and a result exists only when `val` is stored. |
| Avl.SearchFinds | AVL.cpp:107-117 | On a tree with sorted in-order keys, a stored key is always found. |
| Avl.LeftmostFirst | AVL.cpp:120-126 | The value reached by following left links is the first key of the in-order sequence. |
| Avl.FindMin | AVL.cpp:120-126 | The loop returns a subtree with no left child holding the leftmost value. In a sorted tree that value is the least key. |
| Avl.RemoveRebalance | AVL.cpp:169-197 | The rebalancing tail of `remove` keeps the in-order sequence and right heights. It changes nothing at a balanced node and lowers the height by at most one. |
| Avl.Remove | AVL.cpp:129-198 | The returned root has right heights. It is null exactly when `val` is removed from a leaf. |
| Avl.RemoveInOrder | AVL.cpp:129-167 | On a sorted tree the in-order sequence loses the first occurrence of `val`, or nothing when `val` is absent, and stays sorted. |
| Avl.RemoveAbsent | AVL.cpp:129-141 | Removing a key the AVL tree does not hold returns the tree unchanged. |
| Avl.RemoveBalanced | AVL.cpp:169-197 | Removal keeps an AVL tree an AVL tree, and its height drops by at most one. |
| RedBlackHeap.LeftRotated | RB.cpp:75-93 | A left rotation changes no key, colour or black height, and no node enters or leaves the tree. |
| RedBlackHeap.LeftRotatedWellFormed | RB.cpp:75-93 | A left rotation keeps every parent link consistent with the child links and every node's keys in order. The tree's in-order contents are unchanged. |
| RedBlackHeap.LeftRotatedFrame | RB.cpp:75-93 | Nodes other than the pivot, the node rising above it and their parent keep their links and contents. |
| RedBlackHeap.RightRotated | RB.cpp:95-113 | A right rotation changes no key, colour or black height, and no node enters or leaves the tree. |
| RedBlackHeap.RightRotatedWellFormed | RB.cpp:95-113 | A right rotation keeps the links consistent and the keys in order, with unchanged in-order contents. |
| RedBlackHeap.RightRotatedFrame | RB.cpp:95-113 | Nodes other than the pivot, the rising node and their parent keep their links and contents. |
| RedBlackHeap.LogarithmicHeight | RB.cpp:389-400 | In a red-black tree holding `n` keys, a path of `ht` nodes satisfies 2^(ht/2) <= n + 1. |
| RedBlack.RedBlackTree.constructor | RB.cpp:296-302 | A new tree is red-black, holds no keys and no nodes; its root is the black sentinel. |
| RedBlack.RedBlackTree.LeftRotate | RB.cpp:75-93 | The new state is the old state rotated left at `pt`. |
| RedBlack.RedBlackTree.RightRotate | RB.cpp:95-113 | The new state is the old state rotated right at `pt`. |
| RedBlackInsertFix.FixInsertRecolour | RB.cpp:125-129 | With a red uncle, recolouring keeps the loop invariant with the grandparent as the new `pt`. The contents and the node set are unchanged, and `pt` moves strictly up. |
| RedBlackInsertFix.FixInsertLeftZig | RB.cpp:132-136 | With `pt` a right child under a left-child parent, a left rotation at the parent keeps the loop invariant with the old parent as `pt`. |
| RedBlackInsertFix.FixInsertLeftLine | RB.cpp:137-139 | A right rotation at the grandparent and the colour swap leave a red-black tree with the same contents and nodes. |
| RedBlackInsertFix.FixInsertRightZig | RB.cpp:151-155 | The mirror of `FixInsertLeftZig`, with a right rotation at the parent. |
| RedBlackInsertFix.FixInsertRightLine | RB.cpp:156-158 | The mirror of `FixInsertLeftLine`: a left rotation at the grandparent and the swap leave a red-black tree. |
| RedBlackInsertFix.FixInsertDone | RB.cpp:162 | When the loop stops, blackening the root gives a red-black tree with the same contents. |
| RedBlack.RedBlackTree.FixInsertLeft | RB.cpp:123-140 | One pass with the parent a left child keeps the loop invariant and the keys. `pt` ends at a node whose subtree is strictly larger. |
| RedBlack.RedBlackTree.FixInsertRight | RB.cpp:142-160 | The mirror pass, with the same guarantees. |
| RedBlack.RedBlackTree.FixInsert | RB.cpp:115-163 | From a tree red-black but for one red-red edge at `pt`, the result is red-black. The keys, the contents and the node set are unchanged. |
| RedBlackInsert.AllocatedRedBlack | RB.cpp:310-315 | Allocating the new red node with sentinel children, outside the tree, leaves a red-black tree with the same contents. |
| RedBlackInsert.DescentMove | RB.cpp:320-328 | One step of the descent moves left for a smaller key and right otherwise, to a smaller subtree. The nodes passed take in the new key. |
| RedBlack.RedBlackTree.FindParent | RB.cpp:317-328 | The descent stops at the last node before the sentinel (null for an empty tree). The sentinel is the child the new key is routed to. |
| RedBlack.RedBlackTree.NewNode | RB.cpp:310-315 | A fresh red node with key `k` and sentinel children is appended to the arena. |
| RedBlack.RedBlackTree.Link | RB.cpp:330-339 | The new node becomes the root, or `y`'s left child for a smaller key and its right child otherwise, with `y` as its parent. |
| RedBlackInsert.AttachChild | RB.cpp:330-339 | Hanging the red node below `y` leaves the `fixInsert` invariant at the new node, one more node and the contents with the key inserted. |
| RedBlackInsert.AttachRoot | RB.cpp:330-343 | In an empty tree the new node, coloured black, is a red-black tree holding the one key. |
| RedBlack.RedBlackTree.Insert | RB.cpp:309-351 | The tree stays red-black, gains one node, and its in-order keys become the old ones with `k` inserted after every equal key. |
| RedBlackDeleteFix.FixDeleteDone | RB.cpp:221 | When the loop stops, blackening `x` gives a red-black tree with the same contents. |
| RedBlackDeleteFix.RedBlackFixing | RB.cpp:191 | A red-black tree satisfies the loop invariant with `x` at the root, so the loop ends. |
| RedBlackDeleteFix.FixDeleteLighten | RB.cpp:176-179 | With a black sibling and two black nephews, turning the sibling red moves the deficit to the parent. The contents are unchanged and `x` moves strictly up. |
| RedBlackDeleteFix.FixDeleteLeftRed | RB.cpp:170-175 | With a red sibling, the recolouring and left rotation keep the invariant and the deficit at `x`. `x` now has a black sibling and the same parent. |
| RedBlackDeleteFix.FixDeleteLeftInner | RB.cpp:181-186 | With a red inner nephew, the recolouring and right rotation at the sibling keep the invariant. They give `x` a black sibling with a red outer child. |
| RedBlackDeleteFix.FixDeleteLeftOuter | RB.cpp:187-191 | With a red outer nephew, the recolouring and left rotation at the parent leave a red-black tree with the same contents. |
| RedBlackDeleteFix.FixDeleteRightRed | RB.cpp:196-201 | The mirror of `FixDeleteLeftRed`, with a right rotation at the parent. |
| RedBlackDeleteFix.FixDeleteRightInner | RB.cpp:207-212 | The mirror of `FixDeleteLeftInner`, with a left rotation at the sibling. |
| RedBlackDeleteFix.FixDeleteRightOuter | RB.cpp:213-217 | The mirror of `FixDeleteLeftOuter`: a right rotation at the parent leaves a red-black tree. |
| RedBlackDeleteFix.RecolourAsWrittenBreaks | RB.cpp:202-205 | In the tree left by inserting 10, 20, 5, 1 and deleting 20, the test at line 202 passes although the sibling's left child is red. The pass it selects leaves a tree that is not red-black. |
| RedBlack.RedBlackTree.LeftRedRotation | RB.cpp:170-174 | The red-sibling step keeps the loop invariant and `x`'s deficit, and leaves `x` a black sibling. |
| RedBlack.RedBlackTree.LeftInnerRotation | RB.cpp:181-186 | The inner-nephew step keeps the invariant and leaves a black sibling with a red right child. |
| RedBlack.RedBlackTree.LeftOuterRotation | RB.cpp:187-190 | The outer-nephew step leaves a red-black tree with the same keys. |
| RedBlack.RedBlackTree.LeftBlackSibling | RB.cpp:176-192 | With a black sibling, the pass keeps the loop invariant and the keys, and `x` moves strictly up. |
| RedBlack.RedBlackTree.FixDeleteLeft | RB.cpp:168-193 | One pass with `x` a left child keeps the loop invariant and the keys, and `x` moves strictly up. |
| RedBlack.RedBlackTree.RightRedRotation | RB.cpp:196-200 | The mirror of `LeftRedRotation`. |
| RedBlack.RedBlackTree.RightInnerRotation | RB.cpp:207-212 | The mirror of `LeftInnerRotation`. |
| RedBlack.RedBlackTree.RightOuterRotation | RB.cpp:213-216 | The mirror of `LeftOuterRotation`. |
| RedBlack.RedBlackTree.RightBlackSibling | RB.cpp:202-218 | The mirror of `LeftBlackSibling`, which tests both nephews before recolouring. |
| RedBlack.RedBlackTree.FixDeleteRight | RB.cpp:194-219 | One pass with `x` a right child keeps the loop invariant and the keys, and `x` moves strictly up. |
| RedBlack.RedBlackTree.FixDelete | RB.cpp:165-222 | From a tree whose only fault is the missing black on `x`'s side, the result is red-black. The keys, the contents and the node set are unchanged. This holds with the corrected test of RB.cpp:202; see Findings. |
| RedBlack.RedBlackTree.Transplant | RB.cpp:224-235 | `v` takes `u`'s place under `u`'s parent, or becomes the root when `u` has none. `v`'s parent becomes `u`'s parent, even when `v` is the sentinel. |
| RedBlack.RedBlackTree.Minimum | RB.cpp:288-293 | The loop follows left links from `node` to a node without a left child. The path walked is a chain of left children. |
| RedBlackDelete.SearchStart | RB.cpp:238-240 | The search starts at the root of a red-black tree with no match and nothing pending. |
| RedBlackDelete.SearchStep | RB.cpp:240-250 | One step moves right on `<=` and left otherwise, to a smaller subtree. It remembers the node when its key matches, keeping the search invariant. |
| RedBlackDelete.SearchEnd | RB.cpp:251-254 | At the sentinel, `z` is the sentinel exactly when no match was seen, and then the tree does not hold `k`. Otherwise `z` is a live node holding `k`, hanging below the pending node `y`. |
| RedBlackDelete.TrackedEnd | RB.cpp:240-250 | When the search has found `z`, the tree held `k`. `z` is the last node on the path holding `k`: its right subtree, where the search went on, holds no copy of `k`. |
| RedBlackDelete.SearchFinish | RB.cpp:238-254 | When the loop ends, `z` is the sentinel exactly when the tree does not hold `k`, and then no key sequence has changed. Otherwise `z` is the found node with no copy of `k` in its right subtree. Only the sequences above it have lost one copy of `k`. |
| RedBlack.RedBlackTree.FindKey | RB.cpp:238-250 | The search leaves the tree's links as they were. It returns the sentinel exactly when `k` is absent. Otherwise it returns a live node holding `k` whose right subtree holds no copy of `k`, which makes it the last match on the path. |
| RedBlackDelete.SpliceOut | RB.cpp:257-264 | A node with at most one child, replaced by that child, leaves a well-formed tree with one copy of `k` fewer. If it was red the tree is red-black; if black, the child carries the deficit `fixDelete` repairs. |
| RedBlack.RedBlackTree.ReplaceByChild | RB.cpp:257-264 | The new state is the old one with `z` replaced by its only child and taken out of the tree. |
| RedBlackRelink.RelinkOut | RB.cpp:265-281 | The successor takes `z`'s place, subtrees and colour, leaving a well-formed tree with one copy of `k` fewer. If the successor was red the tree is red-black; if black, its old right child carries the deficit. |
| RedBlackRelink.RelinkContents | RB.cpp:265-281 | After the successor splice, the tree's in-order keys are the old ones without one copy of `k`. |
| RedBlack.RedBlackTree.Unhook | RB.cpp:268-276 | Unless it is `z`'s right child, the successor is replaced by its right child and takes over `z`'s right subtree. Otherwise only that child's parent becomes the successor. |
| RedBlack.RedBlackTree.Relink | RB.cpp:277-280 | The successor takes `z`'s place, `z`'s left subtree and `z`'s colour, and `z` leaves the tree. |
| RedBlack.RedBlackTree.ReplaceBySuccessor | RB.cpp:265-281 | The successor is the leftmost node of `z`'s right subtree. The new state is the relinked arena; `x` is the successor's old right child and `c` its old colour. |
| RedBlack.RedBlackTree.TakeOut | RB.cpp:255-283 | Taking the found node out leaves a well-formed tree with one node fewer and one copy of `k` fewer. A black colour leaving its place hands `fixDelete` its precondition; a red one leaves a red-black tree. |
| RedBlack.RedBlackTree.DeleteNodeHelper | RB.cpp:237-286 | The tree stays red-black and its in-order keys lose the first copy of `k`. No key changes and no node is added. When `k` is absent nothing changes at all: links, colours and root are the same. When it is present, exactly one node, one that held `k`, leaves the tree. This holds with the corrected test of RB.cpp:202; see Findings. |
| RedBlack.RedBlackTree.DeleteNode | RB.cpp:353-355 | Same as `DeleteNodeHelper`, applied at the root: red-black, one copy of `k` fewer, no change for an absent key, and exactly one node holding `k` removed otherwise. This holds with the corrected test of RB.cpp:202; see Findings. |
| RedBlack.RedBlackTree.Search | RB.cpp:357-371 | The result is a node in the tree holding `value`. It is null exactly when the tree does not hold `value`. |
| RedBlack.RedBlackTree.GetHeight | RB.cpp:389-396 | The height is 0 at the sentinel and at most the subtree's number of keys. In a red-black tree it lies between the node's black height and twice that, plus one for a red node. |
| RedBlack.RedBlackTree.Height | RB.cpp:398-400 | The tree's height is at most its number of keys. In a red-black tree holding `n` keys, 2^(height/2) <= n + 1. |

## Left out

- Console output is not modelled: every `print`, the printing traversals
  and the "Key not found" message at `RB.cpp:252`. The in-order traversal
  appears only as the ghost key sequences.
- The `main` drivers are not modelled: random key generation, file logging
  and the height benchmark.
- `graph.py` is not part of this model: it does file parsing, floating-point
  curve fitting and plotting.
- Memory release is not modelled: `delete this`, `delete z`, `deleteTree`
  and the destructor. A removed red-black node leaves the `live` set, and
  its arena slot is never reused.
- The unused helper `initializeNULLNode` is not modelled.
- BST and AVL nodes are values, so an in-place pointer update is a function
  that returns the new subtree. Sharing of nodes between subtrees is not
  modelled; the source builds no shared nodes.
- The `this == nullptr` test of `BST.cpp:96` is modelled as the height of
  the empty tree, 0.
- C++ `int` overflow is not modelled. Keys are only compared, and heights
  are bounded by the node count.
- Avl.Insert: requires an AVL tree. On an unbalanced tree the LR and RL
  cases of `AVL.cpp:92-101` can dereference a null grandchild. The source
  itself produces unbalanced trees: inserting a duplicate key can leave a
  node with balance 2 (see Findings), and later `insert` calls run on that
  tree. So the precondition also excludes states the program reaches. The
  model says nothing about insertion after a duplicate; the corrected
  insertion keeps every tree an AVL tree.
- Avl.Remove: requires right cached heights, which every tree the source
  builds has.
- RedBlack.RedBlackTree.LeftRotate: requires `ppt` to be `pt`'s parent, as
  every call site passes. The same holds for `RightRotate`.
- RedBlack.RedBlackTree.DeleteNodeHelper: requires `node` to be the root,
  as `deleteNode` passes.
- RedBlack.RedBlackTree.FixDeleteRight: tests both of the sibling's
  children before recolouring, which `RB.cpp:202` does not; see Findings.
- RedBlack.RedBlackTree.Search: returns a node index, with `NIL` for
  `nullptr`.

## Findings

| source | as written | input that shows it | evidently intended | confidence | as-written member | corrected member |
|---|---|---|---|---|---|---|
| AVL.cpp:82-101 | The rebalancing cases compare `val` with the heavy child's value using strict `<` and `>`. | An AVL tree 5 with left child 3, then insert 3: the new 3 goes right of the old one, the root's balance becomes 2 and no case fires. | Equal keys go right (lines 66-73). So `val == left->value` should select the left-right case and `val == right->value` the right-right case. | not executed | Avl.InsertDuplicateUnbalances | Avl.InsertCorrectedBalanced |
| RB.cpp:202 | The right-hand branch of `fixDelete` recolours the sibling when only its right child is black. | Insert 10, 20, 5, 1, then delete 20. The right-hand branch runs with sibling 5, whose left child 1 is red. 5 turns red above red 1 and the loop ends. | Test both of the sibling's children, as the left-hand branch does at line 176. | not executed | RedBlackDeleteFix.RecolourAsWrittenBreaks | RedBlack.RedBlackTree.RightBlackSibling |
