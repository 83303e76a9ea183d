/**
 * lab06 `binary_search_tree.py`: `BNode` and `BinTree` with `add`, `find`
 * and `remove`, whose recursive helpers reassign the `left`/`right` fields
 * of existing nodes.  Every node carries a ghost `Shape`, the `Trees.Tree`
 * value below it, and a ghost footprint `Repr`; `Valid` ties both to the
 * fields.  The methods are proved to change `Shape` exactly as the pure
 * functions `TreeInsert`, `TreeFind` and `TreeRemove` say, and the lemmas prove what
 * those functions do to a BST.
 */
module BinarySearchTree {
  import opened Trees

  // -----------------------------------------------------------------------
  // The operations on tree values

  /**
   * `add` on a tree value: descend left of larger values and right of
   * smaller ones and hang a new leaf where the walk falls off; an equal
   * value ends the walk with nothing changed.
   */
  function TreeInsert(t: Tree, x: int): Tree
  {
    match t
    case Nil => Node(Nil, x, Nil)
    case Node(l, v, r) =>
      if x < v then Node(TreeInsert(l, x), v, r)
      else if x > v then Node(l, v, TreeInsert(r, x))
      else t
  }

  /** `_find_rec` on a tree value: the subtree whose root holds `x`, or `Nil`. */
  function TreeFind(t: Tree, x: int): (r: Tree)
    ensures r == Nil || r.value == x
  {
    match t
    case Nil => Nil
    case Node(l, v, r) =>
      if v == x then t
      else if x < v then TreeFind(l, x)
      else TreeFind(r, x)
  }

  /**
   * The removals `_remove_rec` is shown to perform: the walk for `x` ends at
   * no node, or at a node with at most one child.
   */
  ghost predicate Removable(t: Tree, x: int)
  {
    match t
    case Nil => true
    case Node(l, v, r) =>
      if x < v then Removable(l, x)
      else if x > v then Removable(r, x)
      else l == Nil || r == Nil
  }

  /**
   * `_remove_rec` on a tree value: a node holding `x` without a left child
   * is replaced by its right subtree, and otherwise (it has no right child)
   * by its left subtree.
   */
  function TreeRemove(t: Tree, x: int): Tree
    requires Removable(t, x)
  {
    match t
    case Nil => Nil
    case Node(l, v, r) =>
      if x < v then Node(TreeRemove(l, x), v, r)
      else if x > v then Node(l, v, TreeRemove(r, x))
      else if l == Nil then r
      else l
  }

  /** Adding puts `x` in the tree and takes nothing out. */
  lemma {:induction false} InsertValues(t: Tree, x: int)
    ensures Values(TreeInsert(t, x)) == Values(t) + {x}
  {
    match t
    case Nil =>
    case Node(l, v, r) =>
      if x < v {
        InsertValues(l, x);
      } else if x > v {
        InsertValues(r, x);
      }
  }

  /** Adding keeps BST order. */
  lemma {:induction false} InsertKeepsBst(t: Tree, x: int)
    requires IsBst(t)
    ensures IsBst(TreeInsert(t, x))
  {
    match t
    case Nil =>
    case Node(l, v, r) =>
      if x < v {
        InsertKeepsBst(l, x);
        InsertValues(l, x);
      } else if x > v {
        InsertKeepsBst(r, x);
        InsertValues(r, x);
      }
  }

  /** Adding a value a BST already holds changes nothing. */
  lemma {:induction false} InsertPresent(t: Tree, x: int)
    requires IsBst(t) && x in Values(t)
    ensures TreeInsert(t, x) == t
  {
    match t
    case Node(l, v, r) =>
      if x < v {
        InsertPresent(l, x);
      } else if x > v {
        InsertPresent(r, x);
      }
  }

  /** In a BST, `find` succeeds exactly for the values the tree holds. */
  lemma {:induction false} FindIffPresent(t: Tree, x: int)
    requires IsBst(t)
    ensures TreeFind(t, x) != Nil <==> x in Values(t)
  {
    match t
    case Nil =>
    case Node(l, v, r) =>
      if x < v {
        FindIffPresent(l, x);
      } else if x > v {
        FindIffPresent(r, x);
      }
  }

  /** Removing from a BST takes out exactly `x` and keeps BST order. */
  lemma {:induction false} RemoveFromBst(t: Tree, x: int)
    requires IsBst(t) && Removable(t, x)
    ensures IsBst(TreeRemove(t, x))
    ensures Values(TreeRemove(t, x)) == Values(t) - {x}
  {
    match t
    case Nil =>
    case Node(l, v, r) =>
      if x < v {
        RemoveFromBst(l, x);
      } else if x > v {
        RemoveFromBst(r, x);
      }
  }

  // -----------------------------------------------------------------------
  // Nodes

  /** The tree value below a possibly absent node. */
  ghost function ShapeOf(n: BNode?): Tree
    reads n
  {
    if n == null then Nil else n.Shape
  }

  /** `BNode(value)`: a node with no children. */
  class BNode {
    var value: int
    var left: BNode?
    var right: BNode?
    ghost var Shape: Tree
    ghost var Repr: set<object>

    /**
     * The children's footprints lie inside this one, are disjoint and do not
     * hold this node; `Shape` is built from the children's shapes.
     */
    ghost predicate Valid()
      reads this, Repr
      decreases Repr
    {
      this in Repr &&
      (left != null ==> left in Repr && left.Repr <= Repr && this !in left.Repr && left.Valid()) &&
      (right != null ==> right in Repr && right.Repr <= Repr && this !in right.Repr && right.Valid()) &&
      (left != null && right != null ==> left.Repr !! right.Repr) &&
      Shape == Node(ShapeOf(left), value, ShapeOf(right))
    }

    constructor (value: int)
      ensures Valid() && fresh(Repr)
      ensures this.value == value && left == null && right == null
      ensures Shape == Node(Nil, value, Nil)
    {
      this.value := value;
      left := null;
      right := null;
      Shape := Node(Nil, value, Nil);
      Repr := {this};
    }
  }

  // -----------------------------------------------------------------------
  // The tree

  class BinTree {
    var root: BNode?
    ghost var Repr: set<object>

    ghost predicate Valid()
      reads this, Repr
    {
      this in Repr &&
      (root != null ==> root in Repr && root.Repr <= Repr && this !in root.Repr && root.Valid())
    }

    /** The tree value held. */
    ghost function Shape(): Tree
      reads this, Repr
      requires Valid()
    {
      ShapeOf(root)
    }

    /** `BinTree()`: an empty tree. */
    constructor ()
      ensures Valid() && fresh(Repr) && Shape() == Nil
    {
      root := null;
      Repr := {this};
    }

    /**
     * `add(value)`: on an empty tree a new node becomes the root; otherwise
     * `_add_rec` from the root.
     */
    method Add(value: int)
      requires Valid()
      modifies Repr
      ensures Valid() && fresh(Repr - old(Repr))
      ensures Shape() == TreeInsert(old(Shape()), value)
      ensures old(root) == null ==> root != null && fresh(root) && root.Shape == Node(Nil, value, Nil)
    {
      if root == null {
        root := new BNode(value);
      } else {
        AddRec(root, value);
      }
      Repr := Repr + root.Repr;
    }

    /**
     * `_add_rec(node, value)`: go left for a smaller value and right for a
     * larger one, hanging a new node on a missing child; an equal value is
     * ignored.
     */
    static method AddRec(node: BNode, value: int)
      requires node.Valid()
      modifies node.Repr
      ensures node.Valid() && fresh(node.Repr - old(node.Repr))
      ensures node.Shape == TreeInsert(old(node.Shape), value)
      decreases node.Repr
    {
      if value < node.value {
        if node.left == null {
          var n := new BNode(value);
          node.left := n;
        } else {
          AddRec(node.left, value);
        }
        node.Repr := node.Repr + node.left.Repr;
        node.Shape := Node(ShapeOf(node.left), node.value, ShapeOf(node.right));
      } else if value > node.value {
        if node.right == null {
          var n := new BNode(value);
          node.right := n;
        } else {
          AddRec(node.right, value);
        }
        node.Repr := node.Repr + node.right.Repr;
        node.Shape := Node(ShapeOf(node.left), node.value, ShapeOf(node.right));
      }
    }

    /** `find(value)`: `_find_rec` from the root. */
    method Find(value: int) returns (r: BNode?)
      requires Valid()
      ensures r == null <==> TreeFind(Shape(), value) == Nil
      ensures r != null ==> r.Valid() && r.value == value && r.Shape == TreeFind(Shape(), value)
    {
      r := FindRec(root, value);
    }

    /**
     * `_find_rec(node, value)`: `None` or the node holding `value`, found by
     * going left for smaller values and right otherwise.
     */
    static method FindRec(node: BNode?, value: int) returns (r: BNode?)
      requires node != null ==> node.Valid()
      ensures r == null <==> TreeFind(ShapeOf(node), value) == Nil
      ensures r != null ==> r.Valid() && r.value == value && r.Shape == TreeFind(ShapeOf(node), value)
      decreases if node == null then {} else node.Repr
    {
      if node == null || node.value == value {
        return node;
      }
      if value < node.value {
        r := FindRec(node.left, value);
      } else {
        r := FindRec(node.right, value);
      }
    }

    /**
     * `remove(value)`: `False` on an empty tree or when `find` fails;
     * otherwise the root is replaced by `_remove_rec(root, value)` and the
     * answer is `True`.
     */
    method Remove(value: int) returns (removed: bool)
      requires Valid() && Removable(Shape(), value)
      modifies Repr
      ensures Valid() && Repr <= old(Repr)
      ensures removed <==> TreeFind(old(Shape()), value) != Nil
      ensures Shape() == if removed then TreeRemove(old(Shape()), value) else old(Shape())
    {
      if root == null {
        return false;
      }
      var found := Find(value);
      if found == null {
        return false;
      }
      root := RemoveRec(root, value);
      return true;
    }

    /**
     * `_remove_rec(node, value)`: returns the subtree that replaces `node`,
     * after reassigning the child on the side of `value`.
     */
    static method RemoveRec(node: BNode?, value: int) returns (r: BNode?)
      requires node != null ==> node.Valid()
      requires Removable(ShapeOf(node), value)
      modifies if node == null then {} else node.Repr
      ensures node == null ==> r == null
      ensures r != null ==> node != null && r.Valid() && r.Repr <= old(node.Repr)
      ensures ShapeOf(r) == TreeRemove(old(ShapeOf(node)), value)
      decreases if node == null then {} else node.Repr
    {
      if node == null {
        return node;
      }
      if value < node.value {
        var l := RemoveRec(node.left, value);
        node.left := l;
        node.Shape := Node(ShapeOf(node.left), node.value, ShapeOf(node.right));
        r := node;
      } else if value > node.value {
        var rt := RemoveRec(node.right, value);
        node.right := rt;
        node.Shape := Node(ShapeOf(node.left), node.value, ShapeOf(node.right));
        r := node;
      } else if node.left == null {
        r := node.right;
      } else {
        assert node.right == null;
        r := node.left;
      }
    }
  }

  /**
   * What the tests check on a BST: after `add(x)` the value is found and the
   * tree is still a BST; removing a present value answers `True`, keeps BST
   * order, and the value is then not found.
   */
  lemma BstRoundTrip(t: Tree, x: int)
    requires IsBst(t)
    ensures IsBst(TreeInsert(t, x)) && TreeFind(TreeInsert(t, x), x) != Nil
    ensures Removable(t, x) && x in Values(t) ==>
              TreeFind(t, x) != Nil && IsBst(TreeRemove(t, x)) && TreeFind(TreeRemove(t, x), x) == Nil
  {
    InsertKeepsBst(t, x);
    InsertValues(t, x);
    FindIffPresent(TreeInsert(t, x), x);
    if Removable(t, x) && x in Values(t) {
      FindIffPresent(t, x);
      RemoveFromBst(t, x);
      FindIffPresent(TreeRemove(t, x), x);
    }
  }
}
