/**
 * Insertion: descend by value, attach a new leaf or overwrite the key of the
 * node that already holds the value, and rebalance on the way back up.
 */
module AvlInsertion {
  import opened AvlNode
  import opened AvlRotation

  /**
   * The rebalancing step of `__insert` after inserting `v` on the left of `n`: when
   * `n` became two levels left-heavy, an inserted value above the left child's
   * value (the inside grandchild) first rotates the left child left, and then `n`
   * is rotated right.
   */
  function RebalanceLeftInsert<K>(n: Tree<K>, v: int): (r: Tree<K>)
    requires n.Node?
    requires HeightDiff(n) > 1 && n.left.value < v ==> n.left.right.Node?
    ensures r.Node? && InOrder(r) == InOrder(n) && Elements(r) == Elements(n)
  {
    if HeightDiff(n) > 1 then
      RotateRight(if n.left.value < v then n.(left := RotateLeft(n.left)) else n)
    else
      n
  }

  /** The mirror image of RebalanceLeftInsert, after inserting `v` on the right of `n`. */
  function RebalanceRightInsert<K>(n: Tree<K>, v: int): (r: Tree<K>)
    requires n.Node?
    requires HeightDiff(n) < -1 && v < n.right.value ==> n.right.left.Node?
    ensures r.Node? && InOrder(r) == InOrder(n) && Elements(r) == Elements(n)
  {
    if HeightDiff(n) < -1 then
      RotateLeft(if v < n.right.value then n.(right := RotateRight(n.right)) else n)
    else
      n
  }

  /**
   * `__insert`: returns the new subtree root and whether a node was created.
   * On an AVL subtree the result is AVL, at most one level taller, and when it
   * did grow its root is the old root, leaning towards the side `v` went to.
   */
  function Insert<K>(t: Tree<K>, k: K, v: int): (res: (Tree<K>, bool))
    requires Avl(t)
    ensures Avl(res.0) && res.0.Node?
    ensures H(t) <= H(res.0) <= H(t) + 1
    ensures t.Nil? ==> res == (Leaf(k, v), true)
    ensures t.Node? && H(res.0) == H(t) + 1 ==>
      res.0.value == t.value && v != t.value && HeightDiff(res.0) == (if v < t.value then 1 else -1)
    decreases t
  {
    match t
    case Nil => (Leaf(k, v), true)
    case Node(_, v0, l, r, _) =>
      if v == v0 then
        (t.(key := k), false)
      else if v < v0 then
        var (l', flag) := Insert(l, k, v);
        InsertedLeft(t, l', v);
        (UpdateHeight(RebalanceLeftInsert(t.(left := l'), v)), flag)
      else
        var (r', flag) := Insert(r, k, v);
        InsertedRight(t, r', v);
        (UpdateHeight(RebalanceRightInsert(t.(right := r'), v)), flag)
  }

  /**
   * The step of `__insert` on the left: given what the recursive call promises about
   * the new left subtree `l'`, the inside/outside test chooses the rotation that
   * restores balance, and the result keeps the height bounds of Insert.
   */
  lemma InsertedLeft<K>(t: Tree<K>, l': Tree<K>, v: int)
    requires t.Node? && Avl(t) && v < t.value
    requires Avl(l') && l'.Node? && H(t.left) <= H(l') <= H(t.left) + 1
    requires t.left.Node? && H(l') == H(t.left) + 1 ==>
      l'.value == t.left.value && v != l'.value && HeightDiff(l') == (if v < l'.value then 1 else -1)
    ensures HeightDiff(t.(left := l')) > 1 && l'.value < v ==> l'.right.Node?
    ensures var r := UpdateHeight(RebalanceLeftInsert(t.(left := l'), v));
      Avl(r) && H(t) <= H(r) <= H(t) + 1 &&
      (H(r) == H(t) + 1 ==> r.value == t.value && HeightDiff(r) == 1)
  {
    var n := t.(left := l');
    if HeightDiff(n) > 1 {
      assert t.left.Node? && H(l') == H(t.left) + 1;
      if l'.value < v {
        RotateRightDouble(n);
        UpdateHeightCached(RebalanceLeftInsert(n, v));
      } else {
        RotateRightSingle(n);
        UpdateHeightCached(RebalanceLeftInsert(n, v));
      }
    }
  }

  lemma InsertedRight<K>(t: Tree<K>, r': Tree<K>, v: int)
    requires t.Node? && Avl(t) && t.value < v
    requires Avl(r') && r'.Node? && H(t.right) <= H(r') <= H(t.right) + 1
    requires t.right.Node? && H(r') == H(t.right) + 1 ==>
      r'.value == t.right.value && v != r'.value && HeightDiff(r') == (if v < r'.value then 1 else -1)
    ensures HeightDiff(t.(right := r')) < -1 && v < r'.value ==> r'.left.Node?
    ensures var r := UpdateHeight(RebalanceRightInsert(t.(right := r'), v));
      Avl(r) && H(t) <= H(r) <= H(t) + 1 &&
      (H(r) == H(t) + 1 ==> r.value == t.value && HeightDiff(r) == -1)
  {
    var n := t.(right := r');
    if HeightDiff(n) < -1 {
      assert t.right.Node? && H(r') == H(t.right) + 1;
      if v < r'.value {
        RotateLeftDouble(n);
        UpdateHeightCached(RebalanceRightInsert(n, v));
      } else {
        RotateLeftSingle(n);
        UpdateHeightCached(RebalanceRightInsert(n, v));
      }
    }
  }

  /** The insertion rebalancing steps keep search-tree order. */
  lemma RebalanceLeftInsertBst<K>(n: Tree<K>, v: int)
    requires n.Node? && Bst(n)
    requires HeightDiff(n) > 1 && n.left.value < v ==> n.left.right.Node?
    ensures Bst(RebalanceLeftInsert(n, v))
  {
    if HeightDiff(n) > 1 {
      if n.left.value < v {
        RotateLeftBst(n.left);
        RotateRightBst(n.(left := RotateLeft(n.left)));
      } else {
        RotateRightBst(n);
      }
    }
  }

  lemma RebalanceRightInsertBst<K>(n: Tree<K>, v: int)
    requires n.Node? && Bst(n)
    requires HeightDiff(n) < -1 && v < n.right.value ==> n.right.left.Node?
    ensures Bst(RebalanceRightInsert(n, v))
  {
    if HeightDiff(n) < -1 {
      if v < n.right.value {
        RotateRightBst(n.right);
        RotateLeftBst(n.(right := RotateRight(n.right)));
      } else {
        RotateLeftBst(n);
      }
    }
  }

  /**
   * `insert(k, v)` on a search tree: the result is a search tree holding the old
   * contents with `v` now mapped to `k`, and the flag is true exactly when `v`
   * was not there before.
   */
  lemma {:induction false} InsertElements<K>(t: Tree<K>, k: K, v: int)
    requires Avl(t) && Bst(t)
    ensures Bst(Insert(t, k, v).0)
    ensures Elements(Insert(t, k, v).0) == Elements(t)[v := k]
    ensures Insert(t, k, v).1 <==> v !in Elements(t)
  {
    match t
    case Nil =>
    case Node(_, v0, l, r, _) =>
      if v < v0 {
        InsertElements(l, k, v);
        var (l', flag) := Insert(l, k, v);
        AttachedLeft(t, l', k, v);
        assert Insert(t, k, v) == (UpdateHeight(RebalanceLeftInsert(t.(left := l'), v)), flag);
        assert v !in Elements(r);
      } else if v0 < v {
        InsertElements(r, k, v);
        var (r', flag) := Insert(r, k, v);
        AttachedRight(t, r', k, v);
        assert Insert(t, k, v) == (UpdateHeight(RebalanceRightInsert(t.(right := r'), v)), flag);
        assert v !in Elements(l);
      } else {
        assert v in Elements(t);
      }
  }

  /** Reattaching a left subtree that gained `v` and rebalancing gives the node's contents with `v` added. */
  lemma AttachedLeft<K>(t: Tree<K>, l': Tree<K>, k: K, v: int)
    requires t.Node? && Avl(t) && Bst(t) && v < t.value
    requires Avl(l') && l'.Node? && H(t.left) <= H(l') <= H(t.left) + 1
    requires t.left.Node? && H(l') == H(t.left) + 1 ==>
      l'.value == t.left.value && v != l'.value && HeightDiff(l') == (if v < l'.value then 1 else -1)
    requires Bst(l') && Elements(l') == Elements(t.left)[v := k]
    ensures HeightDiff(t.(left := l')) > 1 && l'.value < v ==> l'.right.Node?
    ensures Bst(UpdateHeight(RebalanceLeftInsert(t.(left := l'), v)))
    ensures Elements(UpdateHeight(RebalanceLeftInsert(t.(left := l'), v))) == Elements(t)[v := k]
  {
    InsertedLeft(t, l', v);
    var n := t.(left := l');
    assert forall x | x in Elements(l') :: x < t.value;
    assert Bst(n);
    RebalanceLeftInsertBst(n, v);
    UpdateLeft(Elements(t.left), t.value, t.key, Elements(t.right), k, v);
  }

  lemma AttachedRight<K>(t: Tree<K>, r': Tree<K>, k: K, v: int)
    requires t.Node? && Avl(t) && Bst(t) && t.value < v
    requires Avl(r') && r'.Node? && H(t.right) <= H(r') <= H(t.right) + 1
    requires t.right.Node? && H(r') == H(t.right) + 1 ==>
      r'.value == t.right.value && v != r'.value && HeightDiff(r') == (if v < r'.value then 1 else -1)
    requires Bst(r') && Elements(r') == Elements(t.right)[v := k]
    ensures HeightDiff(t.(right := r')) < -1 && v < r'.value ==> r'.left.Node?
    ensures Bst(UpdateHeight(RebalanceRightInsert(t.(right := r'), v)))
    ensures Elements(UpdateHeight(RebalanceRightInsert(t.(right := r'), v))) == Elements(t)[v := k]
  {
    InsertedRight(t, r', v);
    var n := t.(right := r');
    assert forall x | x in Elements(r') :: t.value < x;
    assert Bst(n);
    RebalanceRightInsertBst(n, v);
    UpdateRight(Elements(t.left), t.value, t.key, Elements(t.right), k, v);
  }

  /** Updating the left part of a node's contents is updating the whole, when `v` is below the node. */
  lemma UpdateLeft<K>(left: map<int, K>, v0: int, k0: K, right: map<int, K>, k: K, v: int)
    requires v < v0 && forall x | x in right :: v0 < x
    ensures left[v := k] + map[v0 := k0] + right == (left + map[v0 := k0] + right)[v := k]
  {
  }

  lemma UpdateRight<K>(left: map<int, K>, v0: int, k0: K, right: map<int, K>, k: K, v: int)
    requires v0 < v
    ensures left + map[v0 := k0] + right[v := k] == (left + map[v0 := k0] + right)[v := k]
  {
  }

  lemma {:induction false} SameShapeReflexive<K>(t: Tree<K>)
    ensures SameShape(t, t)
  {
    if t.Node? {
      SameShapeReflexive(t.left);
      SameShapeReflexive(t.right);
    }
  }

  /**
   * `insert(k, v)` when `v` is already present only overwrites that node's key:
   * it reports false and leaves every value, link and cached height as it was.
   */
  lemma {:induction false} InsertExisting<K>(t: Tree<K>, k: K, v: int)
    requires Avl(t) && Bst(t) && v in Elements(t)
    ensures !Insert(t, k, v).1
    ensures SameShape(Insert(t, k, v).0, t)
  {
    match t
    case Node(_, v0, l, r, _) =>
      SameShapeReflexive(l);
      SameShapeReflexive(r);
      if v < v0 {
        assert v in Elements(l);
        InsertExisting(l, k, v);
      } else if v0 < v {
        assert v in Elements(r);
        InsertExisting(r, k, v);
      }
  }
}
