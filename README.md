# AVL tree, modelled and verified in Dafny

This project models the AVL tree of `AVLtree.py`: an ordered map that sorts
and searches its entries by `value`, with `key` as the payload carried by
each value. Every node caches the height of its subtree. Insertion and
deletion descend recursively, reattach the subtree root that the recursive
call returns, and restore balance with single or double rotations.

What is proved:

* Insertion and deletion keep a tree that is a search tree by value, has
  |heightDiff| <= 1 at every node and has correct cached heights. The height
  changes by at most one level.
* Insertion maps `value` to `key` and reports whether the value was new.
  When it was not, only that node's key changes: no link, value or height
  moves.
* Deletion removes exactly the pair with the given value and reports
  whether it was there. When it was not, the tree comes back unchanged.
* Rotations and the two rebalancing helpers leave the in-order sequence of
  (key, value) pairs unchanged.
* Search finds the key stored with a value, or reports its absence.
* The stack-driven traversal emits exactly the pre-, in- or post-order
  sequence and rejects an unknown order. In-order output increases strictly
  by value.
* An AVL tree of height h holds at least Fib(h + 2) - 1 nodes.

Layout, one module per component of the source file:

| file | module | models |
|---|---|---|
| `node.dfy` | `AvlNode` | the node (`Tree` datatype with the cached height), `updateHeight`, `heightDiff`, the intended `isBalanced`, and the invariants |
| `rotation.dfy` | `AvlRotation` | `rotateRight`, `rotateLeft`, `__balanceLeft`, `__balanceRight` |
| `insertion.dfy` | `AvlInsertion` | `__insert` |
| `deletion.dfy` | `AvlDeletion` | `__delete`, `__deleteMin` |
| `search.dfy` | `AvlSearch` | `__find` (a loop over a cursor) |
| `traversal.dfy` | `AvlTraversal` | `traverse` (a loop over an explicit stack) |
| `tree.dfy` | `AvlTreeObject` | the tree object: a class holding the root, with `isEmpty`, `search`, `insert`, `delete`, `traverse` and `isBalanced` |
| `audit.dfy` | `BalanceAudit` | `isBalanced` as written (see Findings) |
| `wrappers.dfy` | `Wrappers` | `Option` and `Result` |

The source mutates node fields in place, and every recursive call hands back
the new subtree root for its caller to reattach. Because no node is ever
shared, the model writes each of these operations as a function from the old
subtree to the new one. The class `AvlTree` holds the root and reassigns it,
as the source's `insert` and `delete` do. `__find` and `traverse` are loops
in the source and are methods with loop invariants here.

## Model

| member | source | states |
|---|---|---|
| `AvlNode.Leaf` | AVLtree.py:35-39 | a new node is an AVL leaf of height 1 holding exactly the pair (key, value) |
| `AvlNode.UpdateHeight` | AVLtree.py:43-47 | the recomputed height is strictly above both child heights and exactly one above the taller child (an empty child counts 0); key, value and links are untouched |
| `AvlNode.CachedHeightIsDepth` | AVLtree.py:43-54 | when every cache is up to date, the cached height equals the height computed from the shape, and `AvlNode.HeightDiff` (`heightDiff`) is the left child's real height minus the right child's, positive when left-heavy |
| `AvlNode.IsBalancedAtEveryNode` | AVLtree.py:384-398 | the intended recursive balance check is true exactly when every node of the tree has -1 <= heightDiff <= 1 (so it is true for the empty tree) |
| `AvlNode.AvlMinimumSize` | AVLtree.py:15-16 | an AVL tree of height h has at least Fib(h + 2) - 1 nodes, so its height is logarithmic in its size |
| `AvlRotation.RotateRight` | AVLtree.py:157-171 | the raised node is the old left child and the old top becomes its right child; the in-order sequence and the stored pairs are unchanged, and the two recomputed heights are correct whenever the three moved subtrees' caches are |
| `AvlRotation.RotateLeft` | AVLtree.py:175-190 | the raised node is the old right child and the old top becomes its left child; the in-order sequence and the stored pairs are unchanged, and the two recomputed heights are correct whenever the three moved subtrees' caches are |
| `AvlRotation.UpdateHeightCached` | AVLtree.py:43-47 | recomputing a height that is already correct changes nothing |
| `AvlRotation.RotateRightBst` | AVLtree.py:157-171 | a right rotation of a search tree is a search tree |
| `AvlRotation.RotateLeftBst` | AVLtree.py:175-190 | a left rotation of a search tree is a search tree |
| `AvlRotation.RotateRightSingle` | AVLtree.py:157-171 | rotating right a node that is two levels left-heavy, with a left child that is not right-heavy, gives an AVL subtree; its height is stated exactly for both child cases |
| `AvlRotation.RotateRightDouble` | AVLtree.py:370-376 | rotating the right-heavy left child left and then the node right gives an AVL subtree exactly as tall as the left child was (`H(n.right) + 2`), one level lower than the node itself would be |
| `AvlRotation.RotateLeftSingle` | AVLtree.py:175-190 | mirror of RotateRightSingle for a node two levels right-heavy |
| `AvlRotation.RotateLeftDouble` | AVLtree.py:352-358 | mirror of RotateRightDouble: rotating the left-heavy right child right and then the node left gives an AVL subtree exactly as tall as the right child was (`H(n.left) + 2`) |
| `AvlRotation.BalanceLeft` | AVLtree.py:347-361 | the in-order sequence and the pairs are preserved; a node that is not more than one level right-heavy is returned unchanged |
| `AvlRotation.BalanceRight` | AVLtree.py:365-379 | the in-order sequence and the pairs are preserved; a node that is not more than one level left-heavy is returned unchanged |
| `AvlRotation.BalanceLeftAvl` | AVLtree.py:347-361 | after the left subtree of a balanced node lost at most one level, balancing and then updating the height gives an AVL subtree that is at most one level lower, and no lower when no rotation was needed |
| `AvlRotation.BalanceRightAvl` | AVLtree.py:365-379 | the same after the right subtree lost at most one level |
| `AvlRotation.BalanceLeftBst` | AVLtree.py:347-361 | balancing a search tree gives a search tree |
| `AvlRotation.BalanceRightBst` | AVLtree.py:365-379 | balancing a search tree gives a search tree |
| `AvlInsertion.RebalanceLeftInsert` | AVLtree.py:124-132 | the rebalancing step after a left insertion keeps the in-order sequence and the pairs |
| `AvlInsertion.RebalanceRightInsert` | AVLtree.py:139-148 | the rebalancing step after a right insertion keeps the in-order sequence and the pairs |
| `AvlInsertion.Insert` | AVLtree.py:107-153 | on an AVL subtree the result is AVL and non-empty, and it is the old height or one more. Inserting into an empty subtree gives a new leaf and true. When the subtree grew, its root value is unchanged and it leans by exactly one towards the side the value went to |
| `AvlInsertion.InsertedLeft` | AVLtree.py:121-132 | after the recursive call on the left, the test "left child's value < inserted value" picks the double rotation exactly when it is needed, its rotations are applicable, and the result keeps Insert's balance and height guarantees |
| `AvlInsertion.InsertedRight` | AVLtree.py:135-148 | the mirror of InsertedLeft, using the test "inserted value < right child's value" |
| `AvlInsertion.RebalanceLeftInsertBst` | AVLtree.py:124-132 | the left rebalancing step keeps search-tree order |
| `AvlInsertion.RebalanceRightInsertBst` | AVLtree.py:139-148 | the right rebalancing step keeps search-tree order |
| `AvlInsertion.AttachedLeft` | AVLtree.py:121-132 | reattaching a left subtree that gained (key, value) and rebalancing gives a search tree with the node's contents plus that pair |
| `AvlInsertion.AttachedRight` | AVLtree.py:135-148 | the mirror of AttachedLeft for the right subtree |
| `AvlInsertion.InsertElements` | AVLtree.py:99-153 | on a search tree, insert gives a search tree whose contents are the old contents with value mapped to key, and returns true exactly when the value was absent |
| `AvlInsertion.InsertExisting` | AVLtree.py:112-117 | inserting a value that is already present returns false and leaves every value, link and cached height in place; only keys may differ |
| `AvlDeletion.DeleteMin` | AVLtree.py:327-343 | on a non-empty AVL subtree, the remainder is AVL and at most one level lower |
| `AvlDeletion.DeleteMinElements` | AVLtree.py:327-343 | on a search tree, the returned pair is the smallest value with its stored key, and the remainder is a search tree holding every other pair |
| `AvlDeletion.Delete` | AVLtree.py:278-322 | on an AVL subtree the result is AVL and is the old height or one less |
| `AvlDeletion.DetachedLeft` | AVLtree.py:285-289 | reattaching a left subtree that lost the sought value, then balancing left, gives a search tree with the node's contents minus that value |
| `AvlDeletion.DetachedRight` | AVLtree.py:293-297 | the mirror of DetachedLeft for the right subtree |
| `AvlDeletion.Successor` | AVLtree.py:308-317 | with two children, taking the in-order successor's pair into the node and balancing right gives a search tree holding all pairs except the deleted one |
| `AvlDeletion.SuccessorBst` | AVLtree.py:308-317 | a node that takes over the smallest pair of its right subtree, with that pair removed there, is still a search tree |
| `AvlDeletion.DeleteElements` | AVLtree.py:269-322 | on a search tree, delete gives a search tree whose contents are the old contents without the value, and returns true exactly when the value was present |
| `AvlDeletion.DeleteAbsent` | AVLtree.py:278-297 | deleting an absent value returns false and the very same tree |
| `AvlSearch.Find` | AVLtree.py:74-86 | on a search tree the cursor stops at a node holding the sought value, with the key stored for it, and ends empty exactly when no node holds the value |
| `AvlTraversal.ParseOrder` | AVLtree.py:198-199 | only "pre", "in" and "post" are accepted, each naming its own order |
| `AvlTraversal.PushNode` | AVLtree.py:214-230 | the entries pushed for a node, top first: the node's pair first for pre-order, between the children for in-order, and below both children for post-order |
| `AvlTraversal.Expanded` | AVLtree.py:211-230 | replacing a node on the stack by what is pushed for it leaves the output still to come unchanged and lowers the stack measure |
| `AvlTraversal.StackWalk` | AVLtree.py:201-235 | the stack loop emits exactly the tree's pairs in the requested order |
| `AvlTraversal.Step` | AVLtree.py:208-235 | one pop of the loop keeps "emitted so far + still pending on the stack = the whole order" and strictly lowers the stack measure, so the loop ends |
| `AvlTraversal.Walked` | AVLtree.py:195-235 | on a search tree every order emits the stored pairs once each, nothing for the empty tree, increasing values in order, the root first in pre-order and last in post-order |
| `AvlTraversal.Traverse` | AVLtree.py:195-235 | an unknown traversal type yields the invalid-argument failure without touching the tree; otherwise the result is the pre-, in- or post-order sequence |
| `AvlTraversal.InOrderSorted` | AVLtree.py:221-223 | on a search tree the in-order output increases strictly by value, and lists every stored (key, value) pair and nothing else |
| `AvlTraversal.OrdersArePermutations` | AVLtree.py:214-230 | all three orders emit the same multiset of pairs, one per node |
| `AvlTreeObject.AvlTree.constructor` | AVLtree.py:64-65 | a new tree is valid and empty |
| `AvlTreeObject.AvlTree.IsEmpty` | AVLtree.py:69-70 | true exactly when the tree stores no pair |
| `AvlTreeObject.AvlTree.Search` | AVLtree.py:91-95 | returns the key stored with the sought value, or None when no node holds it |
| `AvlTreeObject.AvlTree.Insert` | AVLtree.py:99-103 | keeps the tree valid, maps value to key, returns true exactly when the value was new, and otherwise leaves the tree's shape and heights alone |
| `AvlTreeObject.AvlTree.Delete` | AVLtree.py:269-273 | keeps the tree valid, removes exactly the sought value, returns true exactly when it was present, and otherwise leaves the tree unchanged |
| `AvlTreeObject.AvlTree.Traverse` | AVLtree.py:195-235 | an unknown type fails. Otherwise the answer is exactly the pre-, in- or post-order sequence of the tree: every order emits each stored pair once, and the empty tree emits nothing. In-order output strictly increases; pre-order starts and post-order ends with the root's pair |
| `AvlTreeObject.AvlTree.IsBalanced` | AVLtree.py:384-388 | true exactly when every node has -1 <= heightDiff <= 1, and always true on a valid tree |
| `BalanceAudit.IsBalancedAsWritten` | AVLtree.py:384-411 | as written, the answer is True on the empty tree and a generator object (truthy) on every other tree |
| `BalanceAudit.AsWrittenAcceptsUnbalancedChain` | AVLtree.py:384-411 | a three-node left chain with correct heights is unbalanced, yet the check as written answers truthy |

## Left out

- Python's dynamic typing: `value` is an `int` (a total order) and `key` is a type parameter.
- In-place mutation of node fields: each node operation is a function from the old subtree to the new one. Nodes are never shared, so no aliasing can be observed, but the model says nothing about object identity or memory reuse.
- `AvlInsertion.Insert`, `AvlDeletion.Delete`, `AvlDeletion.DeleteMin`: in the source, `__insert` and `__delete` are total on every tree, and `__deleteMin` on every non-empty tree, the only trees `__delete` passes it; the model's `requires n.Node?` on `AvlDeletion.DeleteMin` matches that. Every rotation in `__balanceLeft`/`__balanceRight` is guarded by a height test that implies the raised child exists, and the root that `__insert` returns always has a child on the side the new value went. The model states their results only for AVL input with correct cached heights, which the tree object always keeps, and says nothing about their results on other trees. The requires of `AvlInsertion.RebalanceLeftInsert` and `AvlInsertion.RebalanceRightInsert` excludes no input the source can reach; for AVL input, `InsertedLeft` and `InsertedRight` prove it holds.
- `AvlTreeObject.AvlTree.Search`: the source returns the bare stored key, and `None` when the value is absent, so a value stored with the key `None` looks the same as an absent one. The model's `Option` keeps the two apart.
- `AvlSearch.Find`: its contract assumes a search tree, which the tree object always keeps. What the descent returns on a tree that is not ordered is not stated.
- `traverse` is a lazy generator in the source. The model returns the whole output sequence, and mutating the tree during an unfinished traversal is not modelled. The default argument `'in'` is not modelled either: callers always pass the order.
- The stack that `traverse` uses (`Stack` from `LinkStack.py`, built on a `LinkedList` class that is not part of this model) is a Dafny sequence with its top at index 0. A tagged entry (`Expand` or `Emit`) replaces the `isinstance` test, and an `Expand` of an empty subtree is popped and skipped, as `None` is in the source.
- The `ValueError` raised for an unknown traversal type is the `Failure(UnknownTraversalType(...))` result. Because `traverse` is a generator function, Python raises it only at the first `next()` on the generator, and never if the generator is not iterated; the model reports the failure at the call.
- The console output: `print`/`__pTree`, `__str__` of the tree and of a node, and the debug `print` calls inside `__isBalanced`.
- The body of `__isBalanced` (the generator, and its `leftChild`/`rightChild` attribute names that do not exist). Calling it never runs that body, and the model keeps only what calling it returns (see Findings).
- `AVLtreeClient.py`, the demonstration program. The method `AvlTreeObject.AscendingInsertions` is a client in the manner of its first scenario: it inserts ascending values and then deletes them all. It differs from that scenario in four ways. It checks balance after each insertion and each deletion, not on the empty tree before the insertions, and not before each deletion; its check after the last deletion is the check on the emptied tree. It does not traverse the tree. It also checks that each inserted value is found with its key and that each deleted value is gone, which the demonstration program does not. The permutation experiments and the `BinarySearchTree` class they use are not part of this model.

## Findings

| source | as written | input that shows it | evidently intended | confidence | as-written member | corrected member |
|---|---|---|---|---|---|---|
| AVLtree.py:384-411 | `__isBalanced` contains `yield`, so it is a generator function. `isBalanced` returns the unevaluated generator for any non-empty tree, and that generator is truthy. The body would also read the nonexistent attributes `leftChild`/`rightChild` | the left chain 3 -> 2 -> 1 with heights 3, 2, 1: the root's heightDiff is 2, yet `isBalanced()` returns a truthy generator | a boolean that is true exactly when every node has \|heightDiff\| <= 1, and true for the empty tree | not executed; high | `BalanceAudit.AsWrittenAcceptsUnbalancedChain` | `AvlNode.IsBalancedAtEveryNode` |
