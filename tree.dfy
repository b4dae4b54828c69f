/**
 * The tree object: it owns the root of an AVL tree and reassigns it on every
 * insert and delete, each of which returns the new root of the whole tree.
 */
module AvlTreeObject {
  import opened Wrappers
  import opened AvlNode
  import AvlInsertion
  import AvlDeletion
  import AvlSearch
  import AvlTraversal

  class AvlTree<K> {
    var root: Tree<K>

    /** The tree is a search tree by value, balanced, with correct cached heights. */
    ghost predicate Valid()
      reads this
    {
      Avl(root) && Bst(root)
    }

    /** A new tree is empty. */
    constructor ()
      ensures Valid() && Elements(root) == map[]
    {
      root := Nil;
    }

    /** `isEmpty`: no root node, that is, no stored pair. */
    function IsEmpty(): (b: bool)
      reads this
      ensures b <==> Elements(root) == map[]
    {
      assert root.Node? ==> root.value in Elements(root);
      root.Nil?
    }

    /** `search`: the key stored with the sought value, or `None` when no node holds it. */
    method Search(soughtValue: int) returns (key: Option<K>)
      requires Valid()
      ensures key == if soughtValue in Elements(root) then Some(Elements(root)[soughtValue]) else None
    {
      var node := AvlSearch.Find(soughtValue, root);
      if node.Node? {
        key := Some(node.key);
      } else {
        key := None;
      }
    }

    /**
     * `insert`: afterwards `value` maps to `key`; the result is true when a node was
     * added, and false when only the key of an existing node was overwritten, in
     * which case no link, value or height changed.
     */
    method Insert(key: K, value: int) returns (flag: bool)
      requires Valid()
      modifies this
      ensures Valid()
      ensures Elements(root) == old(Elements(root))[value := key]
      ensures flag <==> value !in old(Elements(root))
      ensures !flag ==> SameShape(root, old(root))
    {
      AvlInsertion.InsertElements(root, key, value);
      if value in Elements(root) {
        AvlInsertion.InsertExisting(root, key, value);
      }
      var (newRoot, inserted) := AvlInsertion.Insert(root, key, value);
      root, flag := newRoot, inserted;
    }

    /**
     * `delete`: afterwards no node holds `soughtValue`; the result is true when one
     * did, and when none did the tree is left exactly as it was.
     */
    method Delete(soughtValue: int) returns (flag: bool)
      requires Valid()
      modifies this
      ensures Valid()
      ensures Elements(root) == old(Elements(root)) - {soughtValue}
      ensures flag <==> soughtValue in old(Elements(root))
      ensures !flag ==> root == old(root)
    {
      AvlDeletion.DeleteElements(root, soughtValue);
      if soughtValue !in Elements(root) {
        AvlDeletion.DeleteAbsent(root, soughtValue);
      }
      var (newRoot, deleted) := AvlDeletion.Delete(root, soughtValue);
      root, flag := newRoot, deleted;
    }

    /**
     * `traverse`: exactly the pairs in the requested order, or the unknown-type error. In
     * order the values strictly increase; pre-order starts and post-order ends with
     * the root's pair; the empty tree yields nothing.
     */
    method Traverse(traverseType: string) returns (res: Result<seq<(K, int)>, AvlTraversal.TraversalError>)
      requires Valid()
      ensures AvlTraversal.ParseOrder(traverseType).None? ==>
        res == Failure(AvlTraversal.UnknownTraversalType(traverseType))
      ensures AvlTraversal.ParseOrder(traverseType).Some? ==>
        res == Success(AvlTraversal.Walk(root, AvlTraversal.ParseOrder(traverseType).value))
      ensures AvlTraversal.ParseOrder(traverseType).Some? ==>
        res.Success? && multiset(res.value) == multiset(InOrder(root))
      ensures res.Success? && root.Nil? ==> res.value == []
      ensures AvlTraversal.ParseOrder(traverseType) == Some(AvlTraversal.In) ==>
        res.Success? && AvlTraversal.Increasing(res.value)
      ensures AvlTraversal.ParseOrder(traverseType) == Some(AvlTraversal.Pre) && root.Node? ==>
        res.Success? && |res.value| > 0 && res.value[0] == (root.key, root.value)
      ensures AvlTraversal.ParseOrder(traverseType) == Some(AvlTraversal.Post) && root.Node? ==>
        res.Success? && |res.value| > 0 && res.value[|res.value| - 1] == (root.key, root.value)
    {
      res := AvlTraversal.Traverse(root, traverseType);
      if res.Success? {
        AvlTraversal.Walked(root, AvlTraversal.ParseOrder(traverseType).value);
      }
    }

    /** `isBalanced`, as intended: true exactly when every node has |heightDiff| <= 1, which a valid tree always has. */
    method IsBalanced() returns (b: bool)
      ensures b <==> forall s | s in Subtrees(root) :: -1 <= HeightDiff(s) <= 1
      ensures Valid() ==> b
    {
      IsBalancedAtEveryNode(root);
      if IsEmpty() {
        return true;
      }
      b := AvlNode.IsBalanced(root);
    }
  }

  /**
   * A client in the manner of the demonstration program: insert ascending values
   * one by one, checking after every step that the tree is balanced and that the
   * value is found again with its key, then delete them all, checking balance
   * after every deletion and that the deleted value is gone.
   */
  method AscendingInsertions() {
    var tree := new AvlTree<int>();
    var values := [10000001, 20000002, 30000003, 40000004, 50000005, 60000006, 70000007];
    for i := 0 to |values|
      invariant tree.Valid()
    {
      var _ := tree.Insert(i, values[i]);
      var balanced := tree.IsBalanced();
      assert balanced;
      var found := tree.Search(values[i]);
      assert found == Some(i);
    }
    for i := 0 to |values|
      invariant tree.Valid()
    {
      var _ := tree.Delete(values[i]);
      var balanced := tree.IsBalanced();
      assert balanced;
      var found := tree.Search(values[i]);
      assert found == None;
    }
  }
}
