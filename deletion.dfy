/**
 * Deletion: descend by value, unlink the matching node or replace it by its
 * in-order successor, and rebalance on the way back up.
 */
module AvlDeletion {
  import opened AvlNode
  import opened AvlRotation

  /**
   * `__deleteMin`: the key and value of the leftmost node of a non-empty subtree,
   * with the subtree that remains once that node is unlinked. The remainder is an
   * AVL subtree at most one level lower.
   */
  function DeleteMin<K>(n: Tree<K>): (res: (K, int, Tree<K>))
    requires n.Node? && Avl(n)
    ensures Avl(res.2) && H(n) - 1 <= H(res.2) <= H(n)
    decreases n
  {
    if n.left.Nil? then
      (n.key, n.value, n.right)
    else
      var (k, v, l') := DeleteMin(n.left);
      BalanceLeftAvl(n.(left := l'));
      (k, v, UpdateHeight(BalanceLeft(n.(left := l'))))
  }

  /**
   * `__delete`: returns the new subtree root and whether a node held `v`.
   * On an AVL subtree the result is AVL and at most one level lower.
   */
  function Delete<K>(t: Tree<K>, v: int): (res: (Tree<K>, bool))
    requires Avl(t)
    ensures Avl(res.0) && H(t) - 1 <= H(res.0) <= H(t)
    decreases t
  {
    match t
    case Nil => (Nil, false)
    case Node(_, v0, l, r, _) =>
      if v < v0 then
        var (l', flag) := Delete(l, v);
        BalanceLeftAvl(t.(left := l'));
        (UpdateHeight(BalanceLeft(t.(left := l'))), flag)
      else if v0 < v then
        var (r', flag) := Delete(r, v);
        BalanceRightAvl(t.(right := r'));
        (UpdateHeight(BalanceRight(t.(right := r'))), flag)
      else if l.Nil? then
        (r, true)
      else if r.Nil? then
        (l, true)
      else
        var (k', v', r') := DeleteMin(r);
        var n := t.(key := k', value := v', right := r');
        BalanceRightAvl(n);
        (UpdateHeight(BalanceRight(n)), true)
  }

  /**
   * On a search tree `__deleteMin` hands back the smallest value with its key,
   * and the remainder is a search tree holding every other pair.
   */
  lemma {:induction false} DeleteMinElements<K>(n: Tree<K>)
    requires n.Node? && Avl(n) && Bst(n)
    ensures var (k, v, rest) := DeleteMin(n);
      v in Elements(n) && Elements(n)[v] == k &&
      (forall x | x in Elements(n) :: v <= x) &&
      Bst(rest) && Elements(rest) == Elements(n) - {v}
  {
    if n.left.Node? {
      DeleteMinElements(n.left);
      var (k, v, l') := DeleteMin(n.left);
      assert DeleteMin(n) == (k, v, UpdateHeight(BalanceLeft(n.(left := l'))));
      assert v < n.value;
      DetachedLeft(n, l', v);
      LeftLookup(Elements(n.left), n.value, n.key, Elements(n.right), v);
    } else {
      RemoveRoot(n.value, n.key, Elements(n.right));
    }
  }

  /** A value below the node is looked up in the left part of the node's contents. */
  lemma LeftLookup<K>(left: map<int, K>, v0: int, k0: K, right: map<int, K>, v: int)
    requires v in left && v < v0 && forall x | x in right :: v0 < x
    requires forall x | x in left :: v <= x
    ensures (left + map[v0 := k0] + right)[v] == left[v]
    ensures forall x | x in left + map[v0 := k0] + right :: v <= x
  {
  }

  /** A node without a left subtree: its value is the smallest, and the rest is its right subtree. */
  lemma RemoveRoot<K>(v0: int, k0: K, right: map<int, K>)
    requires forall x | x in right :: v0 < x
    ensures var whole := map[] + map[v0 := k0] + right;
      v0 in whole && whole[v0] == k0 && (forall x | x in whole :: v0 <= x) && whole - {v0} == right
  {
    var whole := map[] + map[v0 := k0] + right;
    assert whole - {v0} == right;
  }

  /**
   * `delete(v)` on a search tree: the result is a search tree holding the old
   * contents without `v`, and the flag is true exactly when `v` was there.
   */
  lemma {:induction false} DeleteElements<K>(t: Tree<K>, v: int)
    requires Avl(t) && Bst(t)
    ensures Bst(Delete(t, v).0)
    ensures Elements(Delete(t, v).0) == Elements(t) - {v}
    ensures Delete(t, v).1 <==> v in Elements(t)
  {
    match t
    case Nil =>
    case Node(_, v0, l, r, _) =>
      if v < v0 {
        DeleteElements(l, v);
        DetachedLeft(t, Delete(l, v).0, v);
      } else if v0 < v {
        DeleteElements(r, v);
        DetachedRight(t, Delete(r, v).0, v);
      } else if l.Nil? {
        assert Elements(t) == map[v0 := t.key] + Elements(r);
      } else if r.Nil? {
        assert Elements(t) == Elements(l) + map[v0 := t.key];
      } else {
        Successor(t);
      }
  }

  lemma DetachedLeft<K>(t: Tree<K>, l': Tree<K>, v: int)
    requires t.Node? && Bst(t) && v < t.value
    requires Bst(l') && Elements(l') == Elements(t.left) - {v}
    ensures Bst(BalanceLeft(t.(left := l')))
    ensures Elements(BalanceLeft(t.(left := l'))) == Elements(t) - {v}
    ensures v in Elements(t) <==> v in Elements(t.left)
  {
    var n := t.(left := l');
    assert forall x | x in Elements(l') :: x in Elements(t.left);
    assert Bst(n);
    BalanceLeftBst(n);
    RemoveLeft(Elements(t.left), t.value, t.key, Elements(t.right), v);
  }

  lemma DetachedRight<K>(t: Tree<K>, r': Tree<K>, v: int)
    requires t.Node? && Bst(t) && t.value < v
    requires Bst(r') && Elements(r') == Elements(t.right) - {v}
    ensures Bst(BalanceRight(t.(right := r')))
    ensures Elements(BalanceRight(t.(right := r'))) == Elements(t) - {v}
    ensures v in Elements(t) <==> v in Elements(t.right)
  {
    var n := t.(right := r');
    assert forall x | x in Elements(r') :: x in Elements(t.right);
    assert Bst(n);
    BalanceRightBst(n);
    RemoveRight(Elements(t.left), t.value, t.key, Elements(t.right), v);
  }

  /** Removing `v` from the left part of a node's contents is removing it from the whole, when `v` is below the node. */
  lemma RemoveLeft<K>(left: map<int, K>, v0: int, k0: K, right: map<int, K>, v: int)
    requires v < v0 && forall x | x in right :: v0 < x
    ensures (left - {v}) + map[v0 := k0] + right == (left + map[v0 := k0] + right) - {v}
    ensures v in left + map[v0 := k0] + right <==> v in left
  {
  }

  lemma RemoveRight<K>(left: map<int, K>, v0: int, k0: K, right: map<int, K>, v: int)
    requires v0 < v && forall x | x in left :: x < v0
    ensures left + map[v0 := k0] + (right - {v}) == (left + map[v0 := k0] + right) - {v}
    ensures v in left + map[v0 := k0] + right <==> v in right
  {
  }

  /** The two-children case: the node takes over its in-order successor's pair, removed from the right subtree. */
  lemma Successor<K>(t: Tree<K>)
    requires t.Node? && t.left.Node? && t.right.Node? && Avl(t) && Bst(t)
    ensures var (k', v', r') := DeleteMin(t.right);
      Bst(BalanceRight(t.(key := k', value := v', right := r'))) &&
      Elements(BalanceRight(t.(key := k', value := v', right := r'))) == Elements(t) - {t.value}
  {
    DeleteMinElements(t.right);
    var (k', v', r') := DeleteMin(t.right);
    SuccessorBst(t, k', v', r');
    BalanceRightBst(t.(key := k', value := v', right := r'));
    ReplaceBySuccessor(Elements(t.left), t.value, t.key, Elements(t.right), k', v');
  }

  /** The node keeps search-tree order when it takes the smallest pair of its right subtree. */
  lemma SuccessorBst<K>(t: Tree<K>, k': K, v': int, r': Tree<K>)
    requires t.Node? && Bst(t) && v' in Elements(t.right)
    requires Bst(r') && Elements(r') == Elements(t.right) - {v'}
    requires forall x | x in Elements(t.right) :: v' <= x
    ensures Bst(t.(key := k', value := v', right := r'))
  {
    assert forall x | x in Elements(t.left) :: x < v';
    assert forall x | x in Elements(r') :: v' < x;
  }

  /** Taking the successor's pair into the node and out of the right part leaves the contents minus the node's value. */
  lemma ReplaceBySuccessor<K>(left: map<int, K>, v0: int, k0: K, right: map<int, K>, k': K, v': int)
    requires (forall x | x in left :: x < v0) && (forall x | x in right :: v0 < x)
    requires v' in right && right[v'] == k'
    ensures left + map[v' := k'] + (right - {v'}) == (left + map[v0 := k0] + right) - {v0}
  {
  }

  /** `delete(v)` of an absent value returns false and gives back the very same tree. */
  lemma {:induction false} DeleteAbsent<K>(t: Tree<K>, v: int)
    requires Avl(t) && v !in Elements(t)
    ensures Delete(t, v) == (t, false)
  {
    match t
    case Nil =>
    case Node(_, v0, l, r, _) =>
      assert v0 in Elements(t);
      if v < v0 {
        DeleteAbsent(l, v);
        UpdateHeightCached(t);
      } else {
        DeleteAbsent(r, v);
        UpdateHeightCached(t);
      }
  }
}
