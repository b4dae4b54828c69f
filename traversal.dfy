/**
 * The non-recursive traversal: an explicit stack holds subtrees still to be
 * expanded and pairs ready to be emitted, and the traversal order decides
 * where a node's own pair is pushed relative to its children.
 */
module AvlTraversal {
  import opened Wrappers
  import opened AvlNode

  /** The three traversal orders the tree accepts. */
  datatype Order = Pre | In | Post

  /** The error raised for a traversal type other than "pre", "in" or "post". */
  datatype TraversalError = UnknownTraversalType(traverseType: string)

  /** A stack entry: a subtree still to expand (possibly empty) or a pair ready to emit. */
  datatype Entry<K> = Expand(node: Tree<K>) | Emit(key: K, value: int)

  /** The pairs of a subtree in the given order. */
  function Walk<K>(t: Tree<K>, order: Order): seq<(K, int)> {
    match order
    case Pre => PreOrder(t)
    case In => InOrder(t)
    case Post => PostOrder(t)
  }

  /** What one stack entry contributes to the output once it is fully processed. */
  function Produce<K>(e: Entry<K>, order: Order): seq<(K, int)> {
    match e
    case Expand(n) => Walk(n, order)
    case Emit(k, v) => [(k, v)]
  }

  /** What the whole stack still contributes, the top (first element) first. */
  function Pending<K>(stack: seq<Entry<K>>, order: Order): seq<(K, int)> {
    if stack == [] then [] else Produce(stack[0], order) + Pending(stack[1..], order)
  }

  function EntrySize<K>(e: Entry<K>): nat {
    match e
    case Expand(n) => 3 * Count(n) + 1
    case Emit(_, _) => 1
  }

  /** A measure that every iteration of the traversal loop lowers by one. */
  function StackSize<K>(stack: seq<Entry<K>>): nat {
    if stack == [] then 0 else EntrySize(stack[0]) + StackSize(stack[1..])
  }

  /** The entries a node's expansion leaves on the stack, top first: its own pair is on top
      for pre-order, between the children for in-order and below them for post-order. */
  function Expansion<K>(node: Tree<K>, order: Order): seq<Entry<K>>
    requires node.Node?
  {
    match order
    case Pre => [Emit(node.key, node.value), Expand(node.left), Expand(node.right)]
    case In => [Expand(node.left), Emit(node.key, node.value), Expand(node.right)]
    case Post => [Expand(node.left), Expand(node.right), Emit(node.key, node.value)]
  }

  lemma Push<K>(stack: seq<Entry<K>>, e: Entry<K>, order: Order)
    ensures Pending([e] + stack, order) == Produce(e, order) + Pending(stack, order)
    ensures StackSize([e] + stack) == EntrySize(e) + StackSize(stack)
  {
    assert ([e] + stack)[1..] == stack;
  }

  /** Popping the top entry: it is the first to contribute output, and the measure drops by its size. */
  lemma Popped<K>(stack: seq<Entry<K>>, order: Order)
    requires stack != []
    ensures Pending(stack, order) == Produce(stack[0], order) + Pending(stack[1..], order)
    ensures StackSize(stack) == EntrySize(stack[0]) + StackSize(stack[1..])
    ensures stack[0].Expand? && stack[0].node.Nil? ==> Produce(stack[0], order) == []
  {
  }

  /** Replacing a node on the stack by its expansion leaves the pending output unchanged and lowers the measure. */
  lemma Expanded<K>(stack: seq<Entry<K>>, node: Tree<K>, order: Order)
    requires node.Node?
    ensures Pending(Expansion(node, order) + stack, order) == Walk(node, order) + Pending(stack, order)
    ensures StackSize(Expansion(node, order) + stack) < EntrySize(Expand(node)) + StackSize(stack)
  {
    var e := Expansion(node, order);
    var s2 := [e[2]] + stack;
    var s1 := [e[1]] + s2;
    Push(stack, e[2], order);
    Push(s2, e[1], order);
    Push(s1, e[0], order);
    assert e + stack == [e[0]] + s1;
    var p := Pending(stack, order);
    assert Pending(e + stack, order) == (Produce(e[0], order) + Produce(e[1], order) + Produce(e[2], order)) + p;
    match order
    case Pre =>
    case In =>
    case Post =>
  }

  /** The check at the top of `traverse`: only "pre", "in" and "post" name a traversal order. */
  function ParseOrder(traverseType: string): (r: Option<Order>)
    ensures r.None? <==> traverseType !in ["pre", "in", "post"]
    ensures r == Some(Pre) <==> traverseType == "pre"
    ensures r == Some(In) <==> traverseType == "in"
    ensures r == Some(Post) <==> traverseType == "post"
  {
    if traverseType == "pre" then Some(Pre)
    else if traverseType == "in" then Some(In)
    else if traverseType == "post" then Some(Post)
    else None
  }

  /**
   * `traverse`: an unknown traversal type fails before the tree is touched;
   * otherwise the pairs emitted are exactly the pre-, in- or post-order
   * sequence of the tree.
   */
  method Traverse<K>(t: Tree<K>, traverseType: string) returns (res: Result<seq<(K, int)>, TraversalError>)
    ensures ParseOrder(traverseType).None? ==> res == Failure(UnknownTraversalType(traverseType))
    ensures ParseOrder(traverseType).Some? ==> res == Success(Walk(t, ParseOrder(traverseType).value))
  {
    match ParseOrder(traverseType)
    case None =>
      return Failure(UnknownTraversalType(traverseType));
    case Some(order) =>
      var out := StackWalk(t, order);
      res := Success(out);
  }

  /**
   * The pushes for a popped node: its pair first for post-order, then its right
   * child, its pair for in-order, its left child, and its pair for pre-order.
   */
  method PushNode<K>(stack: seq<Entry<K>>, node: Tree<K>, order: Order) returns (stack': seq<Entry<K>>)
    requires node.Node?
    ensures stack' == Expansion(node, order) + stack
  {
    stack' := stack;
    if order == Post {
      stack' := [Emit(node.key, node.value)] + stack';
    }
    stack' := [Expand(node.right)] + stack';
    if order == In {
      stack' := [Emit(node.key, node.value)] + stack';
    }
    stack' := [Expand(node.left)] + stack';
    if order == Pre {
      stack' := [Emit(node.key, node.value)] + stack';
    }
  }

  /**
   * The loop of `traverse`: start with the root on the stack and pop until the
   * stack is empty.
   */
  method StackWalk<K>(t: Tree<K>, order: Order) returns (out: seq<(K, int)>)
    ensures out == Walk(t, order)
  {
    var stack: seq<Entry<K>> := [Expand(t)];
    out := [];
    Push([], Expand(t), order);
    while stack != []
      invariant out + Pending(stack, order) == Walk(t, order)
      decreases StackSize(stack)
    {
      out, stack := Step(out, stack, order);
    }
    assert out + [] == out;
  }

  /**
   * One iteration of the loop: pop the top entry; an empty subtree is skipped, a
   * node is replaced by its children and its own pair, and a pair is emitted.
   */
  method Step<K>(out: seq<(K, int)>, stack: seq<Entry<K>>, order: Order)
    returns (out': seq<(K, int)>, stack': seq<Entry<K>>)
    requires stack != []
    ensures out' + Pending(stack', order) == out + Pending(stack, order)
    ensures StackSize(stack') < StackSize(stack)
  {
    var item := stack[0];
    Popped(stack, order);
    stack' := stack[1..];
    out' := out;
    match item
    case Expand(node) =>
      if node.Node? {
        Expanded(stack', node, order);
        stack' := PushNode(stack', node, order);
      }
    case Emit(k, v) =>
      assert out + [(k, v)] + Pending(stack', order) == out + ([(k, v)] + Pending(stack', order));
      out' := out + [(k, v)];
  }

  /** The values of a pair sequence strictly increase from left to right. */
  ghost predicate Increasing<K>(s: seq<(K, int)>) {
    forall i, j | 0 <= i < j < |s| :: s[i].1 < s[j].1
  }

  lemma ConcatIncreasing<K>(a: seq<(K, int)>, p: (K, int), b: seq<(K, int)>)
    requires Increasing(a) && Increasing(b)
    requires forall i | 0 <= i < |a| :: a[i].1 < p.1
    requires forall i | 0 <= i < |b| :: p.1 < b[i].1
    ensures Increasing(a + [p] + b)
  {
    var s := a + [p] + b;
    forall i, j | 0 <= i < j < |s| ensures s[i].1 < s[j].1 {
      if j < |a| {
      } else if j == |a| {
      } else if i <= |a| {
        assert s[j] == b[j - |a| - 1];
      } else {
        assert s[i] == b[i - |a| - 1] && s[j] == b[j - |a| - 1];
      }
    }
  }

  /**
   * On a search tree the in-order traversal lists every stored pair, each once,
   * in strictly increasing value order.
   */
  lemma {:induction false} InOrderSorted<K>(t: Tree<K>)
    requires Bst(t)
    ensures Increasing(InOrder(t))
    ensures forall i | 0 <= i < |InOrder(t)| ::
      InOrder(t)[i].1 in Elements(t) && Elements(t)[InOrder(t)[i].1] == InOrder(t)[i].0
    ensures forall x | x in Elements(t) :: (Elements(t)[x], x) in InOrder(t)
  {
    match t
    case Nil =>
    case Node(k, v, l, r, _) =>
      InOrderSorted(l);
      InOrderSorted(r);
      var a, b := InOrder(l), InOrder(r);
      ConcatIncreasing(a, (k, v), b);
      var s := InOrder(t);
      forall i | 0 <= i < |s|
        ensures s[i].1 in Elements(t) && Elements(t)[s[i].1] == s[i].0
      {
        if i < |a| {
          assert s[i] == a[i];
          assert s[i].1 !in Elements(r);
        } else if i > |a| {
          assert s[i] == b[i - |a| - 1];
        }
      }
  }

  /**
   * What every order promises on a search tree: the stored pairs, each once, nothing for
   * the empty tree, increasing values in order, the root first in pre-order and last in
   * post-order.
   */
  lemma Walked<K>(t: Tree<K>, order: Order)
    requires Bst(t)
    ensures multiset(Walk(t, order)) == multiset(InOrder(t))
    ensures t.Nil? ==> Walk(t, order) == []
    ensures order == In ==> Increasing(Walk(t, order))
    ensures order == Pre && t.Node? ==> |Walk(t, order)| > 0 && Walk(t, order)[0] == (t.key, t.value)
    ensures order == Post && t.Node? ==>
      |Walk(t, order)| > 0 && Walk(t, order)[|Walk(t, order)| - 1] == (t.key, t.value)
  {
    InOrderSorted(t);
    OrdersArePermutations(t);
  }

  /** The three orders emit the same pairs, one per node. */
  lemma {:induction false} OrdersArePermutations<K>(t: Tree<K>)
    ensures multiset(PreOrder(t)) == multiset(InOrder(t)) == multiset(PostOrder(t))
    ensures |InOrder(t)| == Count(t)
  {
    if t.Node? {
      OrdersArePermutations(t.left);
      OrdersArePermutations(t.right);
    }
  }
}
