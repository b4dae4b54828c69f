/**
 * Rotations and the two rebalancing helpers used after a deletion.
 *
 * Each operation takes a subtree root and returns the root that the caller
 * reattaches in its place; none of them changes the in-order sequence of
 * (key, value) pairs.
 */
module AvlRotation {
  import opened AvlNode

  /** Recomputing a node's height over children whose caches are correct makes its own cache correct. */
  lemma UpdateHeightOverCached<K>(n: Tree<K>)
    requires n.Node?
    ensures Cached(n.left) && Cached(n.right) ==> Cached(UpdateHeight(n))
  {
  }

  /** `rotateRight`: raise `top.left` above `top`; the old top's height is recomputed before the raised node's. */
  function RotateRight<K>(top: Tree<K>): (r: Tree<K>)
    requires top.Node? && top.left.Node?
    ensures r.Node? && r.right.Node?
    ensures r.value == top.left.value && r.right.value == top.value
    ensures InOrder(r) == InOrder(top) && Elements(r) == Elements(top)
    ensures Cached(top.left.left) && Cached(top.left.right) && Cached(top.right) ==> Cached(r)
  {
    var toRaise := top.left;
    var lowered := UpdateHeight(top.(left := toRaise.right));
    UpdateHeightOverCached(top.(left := toRaise.right));
    UpdateHeightOverCached(toRaise.(right := lowered));
    UpdateHeight(toRaise.(right := lowered))
  }

  /** `rotateLeft`: raise `top.right` above `top`; the old top's height is recomputed before the raised node's. */
  function RotateLeft<K>(top: Tree<K>): (r: Tree<K>)
    requires top.Node? && top.right.Node?
    ensures r.Node? && r.left.Node?
    ensures r.value == top.right.value && r.left.value == top.value
    ensures InOrder(r) == InOrder(top) && Elements(r) == Elements(top)
    ensures Cached(top.right.right) && Cached(top.right.left) && Cached(top.left) ==> Cached(r)
  {
    var toRaise := top.right;
    var lowered := UpdateHeight(top.(right := toRaise.left));
    UpdateHeightOverCached(top.(right := toRaise.left));
    UpdateHeightOverCached(toRaise.(left := lowered));
    UpdateHeight(toRaise.(left := lowered))
  }

  /** `__balanceLeft`: after the left subtree shrank, fix a right-heavy node with a single or double rotation. */
  function BalanceLeft<K>(n: Tree<K>): (r: Tree<K>)
    requires n.Node?
    ensures r.Node? && InOrder(r) == InOrder(n) && Elements(r) == Elements(n)
    ensures HeightDiff(n) >= -1 ==> r == n
  {
    if HeightDiff(n) < -1 then
      var n' := if HeightDiff(n.right) > 0 then n.(right := RotateRight(n.right)) else n;
      RotateLeft(n')
    else
      n
  }

  /** `__balanceRight`: after the right subtree shrank, fix a left-heavy node with a single or double rotation. */
  function BalanceRight<K>(n: Tree<K>): (r: Tree<K>)
    requires n.Node?
    ensures r.Node? && InOrder(r) == InOrder(n) && Elements(r) == Elements(n)
    ensures HeightDiff(n) <= 1 ==> r == n
  {
    if HeightDiff(n) > 1 then
      var n' := if HeightDiff(n.left) < 0 then n.(left := RotateLeft(n.left)) else n;
      RotateRight(n')
    else
      n
  }

  /** Recomputing the height of a node whose cache is already right changes nothing. */
  lemma UpdateHeightCached<K>(n: Tree<K>)
    requires n.Node? && Cached(n)
    ensures UpdateHeight(n) == n
  {
  }

  /** A rotation keeps search-tree order. */
  lemma RotateRightBst<K>(top: Tree<K>)
    requires top.Node? && top.left.Node? && Bst(top)
    ensures Bst(RotateRight(top))
  {
    var p, c := top.left, top.right;
    var lowered := UpdateHeight(top.(left := p.right));
    assert p.value in Elements(p);
    assert forall x | x in Elements(p.right) :: x in Elements(p);
    assert Bst(lowered);
    assert forall x | x in Elements(lowered) :: p.value < x;
  }

  lemma RotateLeftBst<K>(top: Tree<K>)
    requires top.Node? && top.right.Node? && Bst(top)
    ensures Bst(RotateLeft(top))
  {
    var p, a := top.right, top.left;
    var lowered := UpdateHeight(top.(right := p.left));
    assert p.value in Elements(p);
    assert forall x | x in Elements(p.left) :: x in Elements(p);
    assert Bst(lowered);
    assert forall x | x in Elements(lowered) :: x < p.value;
  }

  /** Single right rotation of a node that is two levels left-heavy and whose left child is not right-heavy. */
  lemma RotateRightSingle<K>(n: Tree<K>)
    requires n.Node? && Avl(n.left) && Avl(n.right)
    requires HeightDiff(n) == 2 && HeightDiff(n.left) >= 0
    ensures Avl(RotateRight(n))
    ensures H(RotateRight(n)) == H(n.right) + (if HeightDiff(n.left) == 0 then 3 else 2)
  {
  }

  /** Double rotation (left at the child, then right) of a node two levels left-heavy whose left child is right-heavy. */
  lemma RotateRightDouble<K>(n: Tree<K>)
    requires n.Node? && Avl(n.left) && Avl(n.right)
    requires HeightDiff(n) == 2 && HeightDiff(n.left) == -1
    ensures Avl(RotateRight(n.(left := RotateLeft(n.left))))
    ensures H(RotateRight(n.(left := RotateLeft(n.left)))) == H(n.right) + 2
  {
    var p, c := n.left, n.right;
    var q := p.right;
    assert Avl(p.left) && Avl(q) && H(q) == H(c) + 1 && H(p.left) == H(c);
    assert Avl(q.left) && Avl(q.right);
    var lower := UpdateHeight(p.(right := q.left));
    var upper := UpdateHeight(n.(left := q.right));
    assert Avl(lower) && H(lower) == H(c) + 1;
    assert Avl(upper) && H(upper) == H(c) + 1;
    assert RotateRight(n.(left := RotateLeft(p))) == UpdateHeight(q.(left := lower, right := upper));
  }

  lemma RotateLeftSingle<K>(n: Tree<K>)
    requires n.Node? && Avl(n.left) && Avl(n.right)
    requires HeightDiff(n) == -2 && HeightDiff(n.right) <= 0
    ensures Avl(RotateLeft(n))
    ensures H(RotateLeft(n)) == H(n.left) + (if HeightDiff(n.right) == 0 then 3 else 2)
  {
  }

  lemma RotateLeftDouble<K>(n: Tree<K>)
    requires n.Node? && Avl(n.left) && Avl(n.right)
    requires HeightDiff(n) == -2 && HeightDiff(n.right) == 1
    ensures Avl(RotateLeft(n.(right := RotateRight(n.right))))
    ensures H(RotateLeft(n.(right := RotateRight(n.right)))) == H(n.left) + 2
  {
    var p, a := n.right, n.left;
    var q := p.left;
    assert Avl(p.right) && Avl(q) && H(q) == H(a) + 1 && H(p.right) == H(a);
    assert Avl(q.left) && Avl(q.right);
    var lower := UpdateHeight(p.(left := q.right));
    var upper := UpdateHeight(n.(right := q.left));
    assert Avl(lower) && H(lower) == H(a) + 1;
    assert Avl(upper) && H(upper) == H(a) + 1;
    assert RotateLeft(n.(right := RotateRight(p))) == UpdateHeight(q.(left := upper, right := lower));
  }

  /**
   * After the left subtree of a balanced node lost at most one level, `__balanceLeft`
   * followed by `updateHeight` gives an AVL subtree at most one level lower than the
   * node's height before the rotation, and no lower at all when no rotation was needed.
   */
  lemma BalanceLeftAvl<K>(n: Tree<K>)
    requires n.Node? && Avl(n.left) && Avl(n.right)
    requires -2 <= HeightDiff(n) <= 1
    ensures Avl(UpdateHeight(BalanceLeft(n)))
    ensures H(UpdateHeight(BalanceLeft(n))) <= 1 + Max(H(n.left), H(n.right)) <= H(UpdateHeight(BalanceLeft(n))) + 1
    ensures HeightDiff(n) >= -1 ==> H(UpdateHeight(BalanceLeft(n))) == 1 + Max(H(n.left), H(n.right))
  {
    if HeightDiff(n) < -1 {
      if HeightDiff(n.right) > 0 {
        RotateLeftDouble(n);
        UpdateHeightCached(BalanceLeft(n));
      } else {
        RotateLeftSingle(n);
        UpdateHeightCached(BalanceLeft(n));
      }
    }
  }

  /** The mirror image of BalanceLeftAvl, for `__balanceRight` after the right subtree shrank. */
  lemma BalanceRightAvl<K>(n: Tree<K>)
    requires n.Node? && Avl(n.left) && Avl(n.right)
    requires -1 <= HeightDiff(n) <= 2
    ensures Avl(UpdateHeight(BalanceRight(n)))
    ensures H(UpdateHeight(BalanceRight(n))) <= 1 + Max(H(n.left), H(n.right)) <= H(UpdateHeight(BalanceRight(n))) + 1
    ensures HeightDiff(n) <= 1 ==> H(UpdateHeight(BalanceRight(n))) == 1 + Max(H(n.left), H(n.right))
  {
    if HeightDiff(n) > 1 {
      if HeightDiff(n.left) < 0 {
        RotateRightDouble(n);
        UpdateHeightCached(BalanceRight(n));
      } else {
        RotateRightSingle(n);
        UpdateHeightCached(BalanceRight(n));
      }
    }
  }

  /** The balancing helpers keep search-tree order. */
  lemma BalanceLeftBst<K>(n: Tree<K>)
    requires n.Node? && Bst(n)
    ensures Bst(BalanceLeft(n))
  {
    if HeightDiff(n) < -1 {
      if HeightDiff(n.right) > 0 {
        RotateRightBst(n.right);
        RotateLeftBst(n.(right := RotateRight(n.right)));
      } else {
        RotateLeftBst(n);
      }
    }
  }

  lemma BalanceRightBst<K>(n: Tree<K>)
    requires n.Node? && Bst(n)
    ensures Bst(BalanceRight(n))
  {
    if HeightDiff(n) > 1 {
      if HeightDiff(n.left) < 0 {
        RotateLeftBst(n.left);
        RotateRightBst(n.(left := RotateLeft(n.left)));
      } else {
        RotateRightBst(n);
      }
    }
  }
}
