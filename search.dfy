/** Search: an iterative descent from a subtree root towards the sought value. */
module AvlSearch {
  import opened AvlNode

  /**
   * `__find`: advance a cursor from `t`, left when the sought value is smaller
   * than the cursor's value and right otherwise, until it matches or falls off
   * the tree. On a search tree the result is the node holding the value, or
   * `Nil` exactly when no node holds it.
   */
  method Find<K>(soughtValue: int, t: Tree<K>) returns (node: Tree<K>)
    requires Bst(t)
    ensures node.Nil? <==> soughtValue !in Elements(t)
    ensures node.Node? ==> node.value == soughtValue && node.key == Elements(t)[soughtValue]
  {
    node := t;
    while node.Node?
      invariant Bst(node)
      invariant soughtValue in Elements(t) <==> soughtValue in Elements(node)
      invariant soughtValue in Elements(node) ==> Elements(t)[soughtValue] == Elements(node)[soughtValue]
      decreases node
    {
      if node.value == soughtValue {
        assert soughtValue !in Elements(node.right);
        return;
      } else if soughtValue < node.value {
        assert soughtValue !in Elements(node.right);
        node := node.left;
      } else {
        assert soughtValue !in Elements(node.left);
        node := node.right;
      }
    }
  }
}
