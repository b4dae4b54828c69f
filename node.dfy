/**
 * The nodes of the AVL tree and the invariants the tree keeps.
 *
 * The tree orders its entries by `value`; `key` is the payload carried with
 * each value.  Every node caches the height of its subtree, and the cached
 * heights are what the balancing code reads.
 */
module AvlNode {

  /** A subtree: empty, or a node with its key, ordering value, children and cached height. */
  datatype Tree<K> = Nil | Node(key: K, value: int, left: Tree<K>, right: Tree<K>, height: nat)

  /** The cached height of a subtree, counting an empty subtree as 0. */
  function H<K>(t: Tree<K>): nat {
    if t.Nil? then 0 else t.height
  }

  function Max(a: int, b: int): int {
    if a < b then b else a
  }

  /** `updateHeight`: recompute the node's cached height from its children's. */
  function UpdateHeight<K>(n: Tree<K>): (r: Tree<K>)
    requires n.Node?
    ensures r.Node? && r.key == n.key && r.value == n.value
    ensures r.left == n.left && r.right == n.right
    ensures H(r) > H(n.left) && H(r) > H(n.right)
    ensures H(r) == H(n.left) + 1 || H(r) == H(n.right) + 1
  {
    n.(height := 1 + Max(H(n.left), H(n.right)))
  }

  /** The node constructor: both links empty, then the height is computed, giving a leaf of height 1. */
  function Leaf<K>(k: K, v: int): (r: Tree<K>)
    ensures Avl(r) && H(r) == 1
    ensures Elements(r) == map[v := k]
  {
    UpdateHeight(Node(k, v, Nil, Nil, 0))
  }

  /** `heightDiff`: positive when the node is left-heavy, negative when it is right-heavy. */
  function HeightDiff<K>(n: Tree<K>): int
    requires n.Node?
  {
    H(n.left) - H(n.right)
  }

  /** The height of a subtree computed from its shape alone, ignoring the cache. */
  function Depth<K>(t: Tree<K>): nat {
    match t
    case Nil => 0
    case Node(_, _, l, r, _) => 1 + Max(Depth(l), Depth(r))
  }

  /** Every cached height is one more than the larger cached height of its children. */
  predicate Cached<K>(t: Tree<K>) {
    match t
    case Nil => true
    case Node(_, _, l, r, h) => h == 1 + Max(H(l), H(r)) && Cached(l) && Cached(r)
  }

  /** The intended `isBalanced`: true for the empty tree, otherwise |heightDiff| <= 1 at every node. */
  predicate IsBalanced<K>(t: Tree<K>) {
    match t
    case Nil => true
    case Node(_, _, l, r, _) => -1 <= HeightDiff(t) <= 1 && IsBalanced(l) && IsBalanced(r)
  }

  /** The shape invariant of an AVL tree: correct height caches and balance everywhere. */
  predicate Avl<K>(t: Tree<K>) {
    Cached(t) && IsBalanced(t)
  }

  /** The map from each value stored in the subtree to its key. */
  function Elements<K>(t: Tree<K>): map<int, K> {
    match t
    case Nil => map[]
    case Node(k, v, l, r, _) => Elements(l) + map[v := k] + Elements(r)
  }

  /** Search-tree order: every value on the left is smaller and every value on the right larger. */
  ghost predicate Bst<K>(t: Tree<K>) {
    match t
    case Nil => true
    case Node(_, v, l, r, _) =>
      Bst(l) && Bst(r) &&
      (forall x | x in Elements(l) :: x < v) &&
      (forall x | x in Elements(r) :: v < x)
  }

  /** The number of nodes. */
  function Count<K>(t: Tree<K>): nat {
    match t
    case Nil => 0
    case Node(_, _, l, r, _) => Count(l) + 1 + Count(r)
  }

  /** The (key, value) pairs in order left subtree, node, right subtree. */
  function InOrder<K>(t: Tree<K>): seq<(K, int)> {
    match t
    case Nil => []
    case Node(k, v, l, r, _) => InOrder(l) + [(k, v)] + InOrder(r)
  }

  /** The (key, value) pairs in order node, left subtree, right subtree. */
  function PreOrder<K>(t: Tree<K>): seq<(K, int)> {
    match t
    case Nil => []
    case Node(k, v, l, r, _) => [(k, v)] + PreOrder(l) + PreOrder(r)
  }

  /** The (key, value) pairs in order left subtree, right subtree, node. */
  function PostOrder<K>(t: Tree<K>): seq<(K, int)> {
    match t
    case Nil => []
    case Node(k, v, l, r, _) => PostOrder(l) + PostOrder(r) + [(k, v)]
  }

  /** Two subtrees with the same shape, values and cached heights; only keys may differ. */
  predicate SameShape<K>(a: Tree<K>, b: Tree<K>) {
    match a
    case Nil => b.Nil?
    case Node(_, v, l, r, h) =>
      b.Node? && b.value == v && b.height == h && SameShape(l, b.left) && SameShape(r, b.right)
  }

  /** Every non-empty subtree, the tree itself included. */
  ghost function Subtrees<K>(t: Tree<K>): (r: set<Tree<K>>)
    ensures forall s | s in r :: s.Node?
  {
    match t
    case Nil => {}
    case Node(_, _, l, r, _) => {t} + Subtrees(l) + Subtrees(r)
  }

  /** The height cache holds the real height of every subtree, so `heightDiff` compares real heights. */
  lemma {:induction false} CachedHeightIsDepth<K>(t: Tree<K>)
    requires Cached(t)
    ensures H(t) == Depth(t)
    ensures t.Node? ==> HeightDiff(t) == Depth(t.left) - Depth(t.right)
  {
    if t.Node? {
      CachedHeightIsDepth(t.left);
      CachedHeightIsDepth(t.right);
    }
  }

  /** The recursive balance check agrees with the statement "every node has |heightDiff| <= 1". */
  lemma {:induction false} IsBalancedAtEveryNode<K>(t: Tree<K>)
    ensures IsBalanced(t) <==> forall s | s in Subtrees(t) :: -1 <= HeightDiff(s) <= 1
  {
    if t.Node? {
      IsBalancedAtEveryNode(t.left);
      IsBalancedAtEveryNode(t.right);
      assert t in Subtrees(t);
    }
  }

  function Fib(n: nat): nat {
    if n < 2 then n else Fib(n - 1) + Fib(n - 2)
  }

  /**
   * An AVL tree of height h holds at least Fib(h + 2) - 1 nodes, which bounds
   * the height by about 1.44 * log2(n + 2).
   */
  lemma {:induction false} AvlMinimumSize<K>(t: Tree<K>)
    requires Avl(t)
    ensures Count(t) + 1 >= Fib(H(t) + 2)
  {
    if t.Node? {
      AvlMinimumSize(t.left);
      AvlMinimumSize(t.right);
      if H(t.left) < H(t.right) {
        FibMonotone(H(t), H(t.left) + 2);
      } else {
        FibMonotone(H(t), H(t.right) + 2);
      }
    }
  }

  lemma {:induction false} FibMonotone(m: nat, n: nat)
    requires m <= n
    ensures Fib(m) <= Fib(n)
  {
    if m < n {
      FibMonotone(m, n - 1);
    }
  }
}
