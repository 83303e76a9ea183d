/**
 * lab06 `tree_traversal.py`: recursive in-, pre- and post-order traversal,
 * the iterative in-order traversal with an explicit stack, and the
 * breadth-first `level_order` with a queue.  A tree is the value below a
 * node: `Nil` is Python's `None`, and `Node(left, value, right)` a `BNode`.
 * The BST shape predicate lives here too, since it is what makes in-order
 * traversal ascending.
 */
module Trees {

  datatype Tree = Nil | Node(left: Tree, value: int, right: Tree)

  /** Number of nodes. */
  function Size(t: Tree): nat
  {
    match t
    case Nil => 0
    case Node(l, _, r) => Size(l) + 1 + Size(r)
  }

  /** The values held by the nodes, with repetitions. */
  function Elems(t: Tree): multiset<int>
  {
    match t
    case Nil => multiset{}
    case Node(l, v, r) => Elems(l) + multiset{v} + Elems(r)
  }

  /** The set of values held by the nodes. */
  function Values(t: Tree): set<int>
  {
    match t
    case Nil => {}
    case Node(l, v, r) => Values(l) + {v} + Values(r)
  }

  /**
   * Binary-search-tree order: every value in a left subtree is smaller than
   * the node's, every value in a right subtree larger.
   */
  ghost predicate IsBst(t: Tree)
  {
    match t
    case Nil => true
    case Node(l, v, r) =>
      IsBst(l) && IsBst(r) &&
      (forall y :: y in Values(l) ==> y < v) &&
      (forall y :: y in Values(r) ==> v < y)
  }

  lemma {:induction false} SizeIsCount(t: Tree)
    ensures |Elems(t)| == Size(t)
    ensures forall y :: y in Values(t) <==> y in Elems(t)
  {
    match t
    case Nil =>
    case Node(l, v, r) =>
      SizeIsCount(l);
      SizeIsCount(r);
  }

  // -----------------------------------------------------------------------
  // Recursive traversals

  /** In-order: left subtree, node, right subtree. */
  function Inorder(t: Tree): seq<int>
  {
    match t
    case Nil => []
    case Node(l, v, r) => Inorder(l) + [v] + Inorder(r)
  }

  /** Pre-order: node, left subtree, right subtree. */
  function Preorder(t: Tree): seq<int>
  {
    match t
    case Nil => []
    case Node(l, v, r) => [v] + Preorder(l) + Preorder(r)
  }

  /** Post-order: left subtree, right subtree, node. */
  function Postorder(t: Tree): seq<int>
  {
    match t
    case Nil => []
    case Node(l, v, r) => Postorder(l) + Postorder(r) + [v]
  }

  /**
   * `inorder_rec(node, result)`: appends the in-order values of `node` to
   * the accumulator `result` and returns it.
   */
  function InorderRec(t: Tree, result: seq<int>): (r: seq<int>)
    ensures r == result + Inorder(t)
  {
    match t
    case Nil => result
    case Node(l, v, rt) => InorderRec(rt, InorderRec(l, result) + [v])
  }

  /** `preorder_rec(node, result)`. */
  function PreorderRec(t: Tree, result: seq<int>): (r: seq<int>)
    ensures r == result + Preorder(t)
  {
    match t
    case Nil => result
    case Node(l, v, rt) => PreorderRec(rt, PreorderRec(l, result + [v]))
  }

  /** `postorder_rec(node, result)`. */
  function PostorderRec(t: Tree, result: seq<int>): (r: seq<int>)
    ensures r == result + Postorder(t)
  {
    match t
    case Nil => result
    case Node(l, v, rt) => PostorderRec(rt, PostorderRec(l, result)) + [v]
  }

  /** Every traversal of `None` is empty; the node comes first in pre-order and last in post-order. */
  lemma RootPlacement(t: Tree)
    ensures t == Nil ==> InorderRec(t, []) == PreorderRec(t, []) == PostorderRec(t, []) == []
    ensures t.Node? ==> PreorderRec(t, [])[0] == t.value
    ensures t.Node? ==> PostorderRec(t, [])[|PostorderRec(t, [])| - 1] == t.value
  {
  }

  /** Each traversal lists every node's value once. */
  lemma {:induction false} TraversalsKeepElems(t: Tree)
    ensures multiset(Inorder(t)) == Elems(t)
    ensures multiset(Preorder(t)) == Elems(t)
    ensures multiset(Postorder(t)) == Elems(t)
  {
    match t
    case Nil =>
    case Node(l, v, r) =>
      TraversalsKeepElems(l);
      TraversalsKeepElems(r);
  }

  /** Every value listed in order belongs to the tree. */
  lemma {:induction false} InorderValues(t: Tree)
    ensures forall i :: 0 <= i < |Inorder(t)| ==> Inorder(t)[i] in Values(t)
  {
    match t
    case Nil =>
    case Node(l, v, r) =>
      InorderValues(l);
      InorderValues(r);
      var a, b := Inorder(l), Inorder(r);
      forall i | 0 <= i < |Inorder(t)| ensures Inorder(t)[i] in Values(t) {
        if i < |a| {
          assert Inorder(t)[i] == a[i];
        } else if i > |a| {
          assert Inorder(t)[i] == b[i - |a| - 1];
        }
      }
  }

  /** `s` is strictly ascending. */
  ghost predicate Ascending(s: seq<int>)
  {
    forall i, j :: 0 <= i < j < |s| ==> s[i] < s[j]
  }

  /** Two ascending runs separated by a value between them form one ascending run. */
  lemma AscendingJoin(a: seq<int>, v: int, b: seq<int>)
    requires Ascending(a) && Ascending(b)
    requires forall i :: 0 <= i < |a| ==> a[i] < v
    requires forall i :: 0 <= i < |b| ==> v < b[i]
    ensures Ascending(a + [v] + b)
  {
    var s := a + [v] + b;
    forall i, j | 0 <= i < j < |s| ensures s[i] < s[j] {
      if j < |a| {
        assert s[i] == a[i] && s[j] == a[j];
      } else if i > |a| {
        assert s[i] == b[i - |a| - 1] && s[j] == b[j - |a| - 1];
      } else if i == |a| {
        assert s[j] == b[j - |a| - 1];
      } else if j == |a| {
        assert s[i] == a[i];
      } else {
        assert s[i] == a[i] && s[j] == b[j - |a| - 1];
      }
    }
  }

  /** The in-order traversal of a BST is strictly ascending. */
  lemma {:induction false} InorderOfBstAscending(t: Tree)
    requires IsBst(t)
    ensures Ascending(Inorder(t))
  {
    match t
    case Nil =>
    case Node(l, v, r) =>
      InorderOfBstAscending(l);
      InorderOfBstAscending(r);
      InorderValues(l);
      InorderValues(r);
      AscendingJoin(Inorder(l), v, Inorder(r));
  }

  // -----------------------------------------------------------------------
  // Iterative in-order traversal

  /**
   * What is still owed for the nodes on the stack: popping a node yields its
   * value and then the in-order traversal of its right subtree; the top of
   * the stack (its last element) comes first.
   */
  function Pending(stack: seq<Tree>): seq<int>
  {
    if stack == [] then []
    else
      var top := stack[|stack| - 1];
      (if top.Node? then [top.value] + Inorder(top.right) else []) + Pending(stack[..|stack| - 1])
  }

  /** The number of nodes still to be listed for the stack. */
  function PendingSize(stack: seq<Tree>): nat
  {
    if stack == [] then 0
    else
      var top := stack[|stack| - 1];
      (if top.Node? then 1 + Size(top.right) else 0) + PendingSize(stack[..|stack| - 1])
  }

  /** Pushing a node and moving to its left child leaves the same values owed. */
  lemma PushStep(current: Tree, stack: seq<Tree>)
    requires current.Node?
    ensures Inorder(current) + Pending(stack) == Inorder(current.left) + Pending(stack + [current])
    ensures Size(current) + PendingSize(stack) == Size(current.left) + PendingSize(stack + [current])
  {
    var s := stack + [current];
    assert s[..|s| - 1] == stack && s[|s| - 1] == current;
  }

  /** Popping the top node: its value comes next, then its right subtree. */
  lemma PopStep(stack: seq<Tree>)
    requires stack != [] && stack[|stack| - 1].Node?
    ensures Pending(stack) == [stack[|stack| - 1].value] + (Inorder(stack[|stack| - 1].right) + Pending(stack[..|stack| - 1]))
    ensures PendingSize(stack) == 1 + Size(stack[|stack| - 1].right) + PendingSize(stack[..|stack| - 1])
  {
  }

  /**
   * The inner loop of `inorder_iter`: push `current` and every node down its
   * left spine.  The stack then owes exactly what `current` and the old
   * stack owed, and it is non-empty unless there was nothing to visit.
   */
  method PushLeft(current: Tree, stack: seq<Tree>) returns (pushed: seq<Tree>)
    requires forall k :: 0 <= k < |stack| ==> stack[k].Node?
    ensures forall k :: 0 <= k < |pushed| ==> pushed[k].Node?
    ensures Pending(pushed) == Inorder(current) + Pending(stack)
    ensures PendingSize(pushed) == Size(current) + PendingSize(stack)
    ensures current.Node? || stack != [] ==> pushed != []
  {
    pushed := stack;
    var node := current;
    while node.Node?
      invariant forall k :: 0 <= k < |pushed| ==> pushed[k].Node?
      invariant Inorder(node) + Pending(pushed) == Inorder(current) + Pending(stack)
      invariant Size(node) + PendingSize(pushed) == Size(current) + PendingSize(stack)
      invariant current.Node? || stack != [] ==> pushed != [] || node.Node?
      decreases Size(node)
    {
      PushStep(node, pushed);
      pushed := pushed + [node];
      node := node.left;
    }
  }

  /**
   * `inorder_iter(root)`: walk left pushing nodes, pop one, emit it, and
   * continue with its right subtree.  The result is `inorder_rec(root)`.
   */
  method InorderIter(root: Tree) returns (result: seq<int>)
    ensures result == InorderRec(root, [])
  {
    result := [];
    var stack: seq<Tree> := [];
    var current := root;
    while current.Node? || stack != []
      invariant forall k :: 0 <= k < |stack| ==> stack[k].Node?
      invariant result + (Inorder(current) + Pending(stack)) == Inorder(root)
      decreases Size(current) + PendingSize(stack)
    {
      stack := PushLeft(current, stack);
      PopStep(stack);
      var top := stack[|stack| - 1];
      stack := stack[..|stack| - 1];
      ConcatAssoc(result, [top.value], Inorder(top.right) + Pending(stack));
      result := result + [top.value];
      current := top.right;
    }
  }

  // -----------------------------------------------------------------------
  // Level-order traversal

  /** The values still held by the subtrees waiting in the queue. */
  function QueueElems(queue: seq<Tree>): multiset<int>
  {
    if queue == [] then multiset{} else Elems(queue[0]) + QueueElems(queue[1..])
  }

  /** The number of nodes in the subtrees waiting in the queue. */
  function QueueSize(queue: seq<Tree>): nat
  {
    if queue == [] then 0 else Size(queue[0]) + QueueSize(queue[1..])
  }

  /** The present children of a node, left before right. */
  function Children(t: Tree): (c: seq<Tree>)
    requires t.Node?
    ensures forall k :: 0 <= k < |c| ==> c[k].Node?
  {
    (if t.left.Node? then [t.left] else []) + (if t.right.Node? then [t.right] else [])
  }

  /** Queue contents add up over concatenation. */
  lemma {:induction false} QueueConcat(a: seq<Tree>, b: seq<Tree>)
    ensures QueueElems(a + b) == QueueElems(a) + QueueElems(b)
    ensures QueueSize(a + b) == QueueSize(a) + QueueSize(b)
  {
    if a == [] {
      assert a + b == b;
    } else {
      assert (a + b)[0] == a[0] && (a + b)[1..] == a[1..] + b;
      QueueConcat(a[1..], b);
    }
  }

  lemma ConcatAssoc<X>(a: seq<X>, b: seq<X>, c: seq<X>)
    ensures (a + b) + c == a + (b + c)
  {
  }

  /** The children of a node hold its values apart from its own. */
  lemma ChildrenQueue(t: Tree)
    requires t.Node?
    ensures QueueElems(Children(t)) == Elems(t.left) + Elems(t.right)
    ensures QueueSize(Children(t)) == Size(t.left) + Size(t.right)
  {
    var c := Children(t);
    if t.left.Node? && t.right.Node? {
      assert c == [t.left] + [t.right];
      QueueConcat([t.left], [t.right]);
      assert [t.left][1..] == [] && [t.right][1..] == [];
    } else if t.left.Node? {
      assert c == [t.left] && c[1..] == [];
    } else if t.right.Node? {
      assert c == [t.right] && c[1..] == [];
    }
  }

  /**
   * One round of `level_order`: the front node leaves the queue, its value
   * is listed, and its children join the back; nothing is lost or counted
   * twice.
   */
  lemma LevelStep(queue: seq<Tree>)
    requires queue != [] && queue[0].Node?
    ensures QueueElems(queue[1..] + Children(queue[0])) + multiset{queue[0].value} == QueueElems(queue)
    ensures QueueSize(queue[1..] + Children(queue[0])) + 1 == QueueSize(queue)
  {
    QueueConcat(queue[1..], Children(queue[0]));
    ChildrenQueue(queue[0]);
  }

  /** `if current.left: queue.append(current.left)`, then the same for the right child. */
  method EnqueueChildren(queue: seq<Tree>, current: Tree) returns (q: seq<Tree>)
    requires current.Node?
    ensures q == queue + Children(current)
  {
    q := queue;
    if current.left.Node? {
      q := q + [current.left];
    }
    if current.right.Node? {
      q := q + [current.right];
    }
  }

  /**
   * Breadth-first order as a reference: serve the front of the queue, list
   * its value and send its children, left first, to the back; empty
   * subtrees are skipped.
   */
  function Bfs(queue: seq<Tree>): seq<int>
    decreases QueueSize(queue), |queue|
  {
    if queue == [] then []
    else if queue[0] == Nil then Bfs(queue[1..])
    else
      LevelStep(queue);
      [queue[0].value] + Bfs(queue[1..] + Children(queue[0]))
  }

  /**
   * The state of `level_order` between rounds: the values listed and the
   * values still queued make up the tree, node for node, and the root is
   * listed first.
   */
  ghost predicate LevelState(root: Tree, result: seq<int>, queue: seq<Tree>)
  {
    (forall k :: 0 <= k < |queue| ==> queue[k].Node?) &&
    multiset(result) + QueueElems(queue) == Elems(root) &&
    |result| + QueueSize(queue) == Size(root) &&
    (result != [] ==> result[0] == root.value) &&
    (result == [] ==> queue == [root]) &&
    result + Bfs(queue) == Bfs([root])
  }

  /** A round keeps the state and shrinks what is left to visit. */
  lemma LevelRound(root: Tree, result: seq<int>, queue: seq<Tree>)
    requires LevelState(root, result, queue) && queue != []
    ensures LevelState(root, result + [queue[0].value], queue[1..] + Children(queue[0]))
    ensures QueueSize(queue[1..] + Children(queue[0])) < QueueSize(queue)
  {
    LevelStep(queue);
    NodesAfterRound(queue);
    assert multiset(result + [queue[0].value]) == multiset(result) + multiset{queue[0].value};
    BfsStep(result, queue);
  }

  /** Serving the front node moves its value from the breadth-first rest to the listed prefix. */
  lemma BfsStep(result: seq<int>, queue: seq<Tree>)
    requires queue != [] && queue[0].Node?
    ensures result + [queue[0].value] + Bfs(queue[1..] + Children(queue[0])) == result + Bfs(queue)
  {
    assert Bfs(queue) == [queue[0].value] + Bfs(queue[1..] + Children(queue[0]));
  }

  /** Only nodes ever join the queue. */
  lemma NodesAfterRound(queue: seq<Tree>)
    requires queue != [] && forall k :: 0 <= k < |queue| ==> queue[k].Node?
    ensures forall k :: 0 <= k < |queue[1..] + Children(queue[0])| ==> (queue[1..] + Children(queue[0]))[k].Node?
  {
    var next, c := queue[1..] + Children(queue[0]), Children(queue[0]);
    forall k | 0 <= k < |next| ensures next[k].Node? {
      if k < |queue| - 1 {
        assert next[k] == queue[k + 1];
      } else {
        assert next[k] == c[k - (|queue| - 1)];
      }
    }
  }

  /**
   * `level_order(root)`: breadth-first, popping the front of the queue and
   * appending its present children.  The result is the breadth-first order;
   * every node is listed exactly once, so it holds the tree's values and has
   * one entry per node.
   */
  method LevelOrder(root: Tree) returns (result: seq<int>)
    ensures result == Bfs([root])
    ensures multiset(result) == Elems(root)
    ensures |result| == Size(root)
    ensures root == Nil ==> result == []
    ensures root.Node? ==> result[0] == root.value
  {
    if root == Nil {
      return [];
    }
    result := [];
    var queue := [root];
    assert queue[1..] == [];
    assert result + Bfs(queue) == Bfs([root]);
    while queue != []
      invariant LevelState(root, result, queue)
      decreases QueueSize(queue)
    {
      var current := queue[0];
      LevelRound(root, result, queue);
      result := result + [current.value];
      queue := EnqueueChildren(queue[1..], current);
    }
  }
}
