/**
 * The balance check as the source writes it.
 *
 * The helper that `isBalanced` calls on a non-empty tree contains `yield`, so
 * Python makes it a generator function: calling it runs none of its body and
 * returns a generator object, which is truthy. `isBalanced` therefore answers
 * True for the empty tree and a truthy generator for every other tree,
 * balanced or not. The intended check is `AvlNode.IsBalanced`.
 */
module BalanceAudit {
  import opened AvlNode

  /** The two kinds of result `isBalanced` can hand back as written. */
  datatype Answer = Bool(b: bool) | GeneratorObject

  /** Python truthiness of an answer: a generator object is always true. */
  predicate Truthy(a: Answer) {
    match a
    case Bool(b) => b
    case GeneratorObject => true
  }

  /** `isBalanced` as written: True on the empty tree, an unevaluated generator otherwise. */
  function IsBalancedAsWritten<K>(t: Tree<K>): (a: Answer)
    ensures t.Nil? <==> a == Bool(true)
    ensures Truthy(a)
  {
    if t.Nil? then Bool(true) else GeneratorObject
  }

  /**
   * A three-node chain 3 -> 2 -> 1 down the left side, with correct heights, is
   * not balanced at its root, yet the check as written reports it as balanced.
   */
  lemma AsWrittenAcceptsUnbalancedChain()
    ensures var chain := Node(0, 3, Node(0, 2, Node(0, 1, Nil, Nil, 1), Nil, 2), Nil, 3);
      Cached(chain) && !IsBalanced(chain) && Truthy(IsBalancedAsWritten(chain))
  {
  }
}
