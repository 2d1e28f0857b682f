# Red-black tree with a shared sentinel

This project models `rbtree_lab/src/rbtree.c`, a red-black tree of integer
keys in the style of the textbook (Cormen et al.): every missing child and
the parent of the root is one shared black sentinel node `nil`. The model
covers creating a tree, inserting a key with the colour fix-up and the two
rotations, searching for a key, the minimum and the maximum, and the
post-order walk that frees the tree. It also covers the two operations that
the file only stubs, erase and conversion to an array.

The C tree is a graph of `node_t` records that the functions rewrite in
place. The model keeps the same fields in one class, `RedBlackTree.RbTree`.
The node records form an arena, one `seq` per field, indexed by a node
handle. Handle 0 is the sentinel. Allocating a node appends a handle. A
method changes the fields the way the C code writes them. The contracts of
the rotations, of the linking of a new leaf and of each fix-up case give
the new state as a pure step function of the old state. Those functions are
`LeftRotated`, `RightRotated`, `Attach`, and the case steps
`UncleRedLeftStep`, `OuterLeftStep` and their mirrors, which are built from
single colour writes (`Recolored`) and rotations. The fix-up loop and the
whole insert state the invariants they keep. The lemmas about the step
functions prove three things:

- Search-tree order: smaller keys on the left, larger on the right.
- Consistent parent links.
- The red-black properties: the sentinel is black, no red node has a red
  child, every path has the same black height, and the root is black after
  an insert.

Two ghost sequences carry these proofs:

- `sub[h]` is the set of handles in the subtree of `h`. It makes the
  structure a finite tree, and every downward walk terminates on it.
- `bh[h]` is the black height of `h`.

Modules:

- `RbArena` (`arena.dfy`): the node table, the invariants and the in-order
  key sequence.
- `RbRotate` (`rotate.dfy`): `left_rotate` and `right_rotate` as functions
  on the node table.
- `RbFixup` (`fixup.dfy`): the three cases of `rbtree_insert_fixup` and
  their mirrors, each proved to keep the loop invariant.
- `RbInsert` (`insert.dfy`): the search for the insertion point and the
  linking of the new red leaf.
- `RbQuery` (`query.dfy`): the steps of find, min and max.
- `RedBlackTree` (`tree.dfy`): the class and its methods.

## Model

| member | source | states |
|---|---|---|
| RedBlackTree.RbTree.constructor | rbtree_lab/src/rbtree.c:6-32 | The new tree has only the sentinel, which is black and linked to itself on all three links. The root is the sentinel, the tree is a valid red-black tree, and its key set is empty. |
| RedBlackTree.RbTree.InOrderKeys | rbtree_lab/src/rbtree.c:58-72 | The keys read in order are strictly increasing, and their set is the tree's key set. |
| RedBlackTree.RbTree.LeftRotate | rbtree_lab/src/rbtree.c:153-172 | The C writes, done in place, give exactly `LeftRotated` of the old state. The tree stays well formed. Keys, colours, black heights and the in-order key sequence are unchanged. |
| RedBlackTree.RbTree.RightRotate | rbtree_lab/src/rbtree.c:177-196 | Mirror of `LeftRotate`: the result is exactly `RightRotated` of the old state, with keys, colours and the in-order sequence unchanged. |
| RbRotate.LeftRotated | rbtree_lab/src/rbtree.c:153-172 | The rotation as a function of the node table. It keeps the table's shape, every key and every colour. |
| RbRotate.LeftRotatedFields | rbtree_lab/src/rbtree.c:155-171 | After the rotation, `x` is the left child of `y`. `y`'s old left subtree becomes `x`'s right subtree and gets `x` as its parent. `y` takes `x`'s old parent and its slot, or becomes the root. No other link changes. |
| RbRotate.LeftRotateWellFormed | rbtree_lab/src/rbtree.c:153-172 | Rotating left at a node with a real right child keeps the search-tree order, the subtree structure and the parent links. |
| RbRotate.LeftRotateKeepsContents | rbtree_lab/src/rbtree.c:153-172 | Rotating left keeps the key set, every colour and the whole in-order key sequence. |
| RbRotate.RightRotated | rbtree_lab/src/rbtree.c:177-196 | Mirror of `LeftRotated`. |
| RbRotate.RightRotatedFields | rbtree_lab/src/rbtree.c:179-195 | Mirror of `LeftRotatedFields`: `x` becomes the right child of `y`, `y`'s old right subtree moves under `x`, and `y` takes `x`'s place. |
| RbRotate.RightRotateWellFormed | rbtree_lab/src/rbtree.c:177-196 | Mirror of `LeftRotateWellFormed`. |
| RbRotate.RightRotateKeepsContents | rbtree_lab/src/rbtree.c:177-196 | Mirror of `LeftRotateKeepsContents`. |
| RedBlackTree.RbTree.InsertFixup | rbtree_lab/src/rbtree.c:81-148 | Starting from a well-formed tree whose only red-red violation is at the new red node, the loop ends with a valid red-black tree: the root is black, no red node has a red child and black heights are equal. Keys and the in-order key sequence are unchanged. The loop terminates because `z` climbs strictly towards the root. |
| RedBlackTree.RbTree.RecolorUncle | rbtree_lab/src/rbtree.c:94-100 | Case 1-1, and case 2-1 at lines 122-128. The new state is exactly `UncleRedLeftStep` (or `UncleRedRightStep`) of the old one: the parent and the uncle turn black, the grandparent turns red, and nothing else changes. `z` moves to the grandparent, whose subtree is strictly larger and whose black height grows by one. The fix-up invariant holds again at the grandparent. |
| RbFixup.UncleRed | rbtree_lab/src/rbtree.c:94-100 | The three colour writes of case 1-1 or 2-1, with the uncle on either side, equal the matching case step. They restore the fix-up invariant at the grandparent, and `z`'s subtree strictly grows. |
| RedBlackTree.RbTree.RotateLeftCases | rbtree_lab/src/rbtree.c:101-114 | Cases 1-2 and 1-3. For an inner `z` (a right child), `z` becomes its parent and the new state is `OuterLeftStep` after `LeftRotated` at that parent; otherwise it is `OuterLeftStep` of the old state. After them, `z`'s parent is black and the fix-up invariant holds, so the loop exits. |
| RedBlackTree.RbTree.OuterLeftCase | rbtree_lab/src/rbtree.c:111-113 | Case 1-3. The new state is exactly `OuterLeftStep` of the old one: the parent turns black, the grandparent red, then a right rotation at the grandparent. Black heights are unchanged, `z` keeps a black parent, and no red-red violation is left. |
| RedBlackTree.RbTree.RotateRightCases | rbtree_lab/src/rbtree.c:129-142 | Cases 2-2 and 2-3, the mirror of `RotateLeftCases`, with the new state given by `OuterRightStep` and `RightRotated`. |
| RedBlackTree.RbTree.OuterRightCase | rbtree_lab/src/rbtree.c:139-141 | Case 2-3, the mirror of `OuterLeftCase`: the new state is exactly `OuterRightStep` of the old one. |
| RbFixup.Recolored | rbtree_lab/src/rbtree.c:96 | One colour write changes the colour of that node only. Every other colour and every link is unchanged. |
| RbFixup.RecolorWellFormed | rbtree_lab/src/rbtree.c:96-98 | Recolouring a real node keeps the search-tree structure. |
| RbFixup.RedParentFacts | rbtree_lab/src/rbtree.c:86-91 | While the parent is red: the parent is not the root, so the grandparent is real and black. `z`, its parent and its grandparent are linked as child and parent, and their subtrees strictly grow. |
| RbFixup.UncleRedLeft | rbtree_lab/src/rbtree.c:94-100 | After the case 1-1 recolouring, the fix-up invariant holds at the grandparent, whose black height grows by one, and `z`'s subtree strictly grows. |
| RbFixup.InnerLeft | rbtree_lab/src/rbtree.c:104-108 | Case 1-2: moving `z` to its parent and rotating left turns it into an outer left child with a red parent and a black uncle. The fix-up invariant and the black heights are unchanged. |
| RbFixup.OuterLeft | rbtree_lab/src/rbtree.c:111-113 | Case 1-3: after the recolouring and the right rotation at the grandparent, no red node has a red child, black heights still balance, and `z`'s parent is black. |
| RbFixup.UncleRedRight | rbtree_lab/src/rbtree.c:122-128 | Mirror of `UncleRedLeft`, for case 2-1. |
| RbFixup.InnerRight | rbtree_lab/src/rbtree.c:132-136 | Mirror of `InnerLeft`, for case 2-2. |
| RbFixup.OuterRight | rbtree_lab/src/rbtree.c:139-141 | Mirror of `OuterLeft`, for case 2-3. |
| RbFixup.FixupDone | rbtree_lab/src/rbtree.c:147 | When the loop exits, painting the root black gives a tree that satisfies every red-black property. |
| RedBlackTree.RbTree.Insert | rbtree_lab/src/rbtree.c:38-76 | The tree stays a valid red-black tree, and the returned node holds `k`. The key set becomes the old key set plus `k`. A duplicate key returns the existing node and changes nothing. A new key gets a fresh node, and the node keys are the old ones followed by `k`. |
| RedBlackTree.RbTree.Descend | rbtree_lab/src/rbtree.c:50-63 | It finds a node exactly when `k` is in the tree, and that node holds `k`. Otherwise it returns the last node visited, under which `k` belongs on the side its comparison chooses. |
| RedBlackTree.RbTree.Link | rbtree_lab/src/rbtree.c:65-73 | The writes give exactly `Attach` of the old state. The new red leaf starts the fix-up invariant. The key set gains `k`, which was absent. |
| RbInsert.SearchStart | rbtree_lab/src/rbtree.c:47-48 | The search starts at the root with the sentinel as parent, and `k`, if present, is in the root's subtree. |
| RbInsert.SearchStep | rbtree_lab/src/rbtree.c:50-63 | One step down the insert search keeps the search invariant. The subtree still holds `k` if the tree does, the keys on the path bound the new position, and the subtree shrinks. |
| RbInsert.Attach | rbtree_lab/src/rbtree.c:65-73 | Linking a fresh leaf adds exactly one node to the table. |
| RbInsert.AttachWellFormed | rbtree_lab/src/rbtree.c:65-73 | A leaf linked where the search ended keeps the search-tree order and the parent links. |
| RbInsert.AttachStartsFixup | rbtree_lab/src/rbtree.c:65-75 | The linked red leaf establishes the fix-up invariant, with black height 1, and adds exactly its key, which was absent. |
| RbArena.InOrderSorted | rbtree_lab/src/rbtree.c:58-72 | In a well-formed tree, the in-order keys of every subtree are strictly increasing and are exactly that subtree's keys. |
| RbArena.ContentsSorted | rbtree_lab/src/rbtree.c:58-72 | The in-order key sequence of the whole tree is strictly increasing and holds exactly its keys. |
| RbArena.ContentsDeterminedByKeys | rbtree_lab/src/rbtree.c:81-148 | Two well-formed trees with the same key set have the same in-order key sequence, so a fix-up that keeps the keys keeps that sequence. The helper `IncreasingUnique` gives the step: a strictly increasing sequence is determined by its set of elements. |
| RedBlackTree.RbTree.Find | rbtree_lab/src/rbtree.c:225-240 | It returns a node exactly when `k` is in the tree, and that node holds `k`. Otherwise it returns `NULL`, including on an empty tree. |
| RbQuery.FindStep | rbtree_lab/src/rbtree.c:229-234 | Going left on a smaller key, or right on a larger one, keeps `k` in the current subtree if the tree has it, and the subtree shrinks. |
| RbQuery.EmptyIffNoRoot | rbtree_lab/src/rbtree.c:249-250 | The root is the sentinel exactly when the tree has no keys. |
| RedBlackTree.RbTree.Min | rbtree_lab/src/rbtree.c:245-256 | It returns `NULL` exactly on an empty tree. Otherwise it returns a node whose key is in the tree and is no larger than any key of the tree. |
| RbQuery.MinStep | rbtree_lab/src/rbtree.c:252-253 | Going left keeps every key outside the current subtree above the current node's key, and the subtree shrinks. |
| RbQuery.MinEnd | rbtree_lab/src/rbtree.c:255 | A node without a left child, reached this way, holds the smallest key. |
| RedBlackTree.RbTree.Max | rbtree_lab/src/rbtree.c:261-272 | It returns `NULL` exactly on an empty tree. Otherwise it returns a node whose key is in the tree and is no smaller than any key of the tree. |
| RbQuery.MaxStep | rbtree_lab/src/rbtree.c:268-269 | Going right keeps every key outside the current subtree below the current node's key, and the subtree shrinks. |
| RbQuery.MaxEnd | rbtree_lab/src/rbtree.c:271 | A node without a right child, reached this way, holds the largest key. |
| RedBlackTree.RbTree.DeleteNode | rbtree_lab/src/rbtree.c:209-219 | The post-order walk frees every real node of the subtree exactly once. It never frees the sentinel, and it frees the subtree's root last. |
| RedBlackTree.RbTree.PostOrderDistinct | rbtree_lab/src/rbtree.c:214-218 | Freeing the left subtree, then the right, then the node repeats no node. |
| RedBlackTree.RbTree.DeleteTree | rbtree_lab/src/rbtree.c:200-205 | Starting at the root frees every real node of the tree exactly once, and nothing else. |
| RedBlackTree.RbTree.Erase | rbtree_lab/src/rbtree.c:274-278 | The stub returns 0 and changes nothing. |
| RedBlackTree.RbTree.ToArray | rbtree_lab/src/rbtree.c:280-284 | The stub returns 0 and writes nothing. |

## Left out

- Allocation failure: every `calloc` is taken to succeed. The paths where `new_rbtree` returns `NULL` (lines 10-11 and 15-19) are not modelled.
- Freeing memory is not modelled as deallocation. `free(cur)` on a duplicate insert releases a node that was never linked, and the model never allocates it. `delete_node` and `delete_rbtree` return the order in which nodes are freed instead of freeing them. The final `free(t->nil)` and `free(t)` are not modelled.
- `rbtree.h` is not part of this model. `key_t` is taken to be `int` (unbounded here; the model has no comparison overflow, since keys are only compared). `color_t` is the datatype `Color`.
- `NULL` results of find, min and max are `None`. A node pointer is a handle into the node table.
- The body of the fix-up loop is split into helper methods per case (`RecolorUncle`, `RotateLeftCases`, `OuterLeftCase` and their mirrors), and the insert into `Descend` and `Link`. They make the same writes in the same order as the C function.
- RedBlackTree.RbTree.DeleteNode: states which nodes are freed and that the node passed in is freed last. It does not state that every subtree is freed before its root.
- RedBlackTree.RbTree.ToArray: the stub ignores its arguments, so the model does not state the intended sorted copy into `arr`.
- RedBlackTree.RbTree.Erase: the stub ignores its arguments, so the node handle passed in is not checked.
