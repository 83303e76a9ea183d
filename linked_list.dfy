/**
 * lab02 `linked_list.py`: a singly linked list with `head` and `tail`
 * pointers.  The ghost sequence `nodes` lists the nodes in link order;
 * `Valid` ties it to the pointers, and `Elements` is what `traversal()`
 * returns.
 */
module LinkedLists {
  import opened Wrappers

  /** `Node(data)`: a payload and a pointer to the next node. */
  class Node<T> {
    var data: T
    var next: Node?<T>

    constructor (data: T)
      ensures this.data == data && next == null
    {
      this.data := data;
      next := null;
    }
  }

  class LinkedList<T> {
    var head: Node?<T>
    var tail: Node?<T>
    /** The nodes reachable from `head`, in order. */
    ghost var nodes: seq<Node<T>>
    ghost var Repr: set<object>

    /**
     * `head` is the first node and `tail` the last (both `None` for an
     * empty list), each node links to the next, the last links nowhere,
     * and no node occurs twice.
     */
    ghost predicate Valid()
      reads this, Repr
    {
      this in Repr &&
      (forall i :: 0 <= i < |nodes| ==> nodes[i] in Repr) &&
      (nodes == [] ==> head == null && tail == null) &&
      (nodes != [] ==> head == nodes[0] && tail == nodes[|nodes| - 1] && nodes[|nodes| - 1].next == null) &&
      (forall i :: 0 <= i < |nodes| - 1 ==> nodes[i].next == nodes[i + 1]) &&
      (forall i, j :: 0 <= i < j < |nodes| ==> nodes[i] != nodes[j])
    }

    /** The payloads in link order. */
    ghost function Elements(): (s: seq<T>)
      reads this, Repr
      requires Valid()
      ensures |s| == |nodes|
    {
      seq(|nodes|, i reads this, Repr requires 0 <= i < |nodes| && Valid() => nodes[i].data)
    }

    /** A new list is empty. */
    constructor ()
      ensures Valid() && fresh(Repr) && Elements() == []
      ensures head == null && tail == null
    {
      head, tail := null, null;
      nodes := [];
      Repr := {this};
    }

    /** `insert_at_start(data)`: a new node becomes the head. */
    method InsertAtStart(data: T)
      requires Valid()
      modifies this
      ensures Valid() && fresh(Repr - old(Repr))
      ensures Elements() == [data] + old(Elements())
      ensures (head == null) == (tail == null)
    {
      var node := new Node(data);
      if head == null {
        head := node;
        tail := node;
      } else {
        node.next := head;
        head := node;
      }
      nodes := [node] + nodes;
      Repr := Repr + {node};
    }

    /** `insert_at_end(data)`: the tail links to a new node, which becomes the tail. */
    method InsertAtEnd(data: T)
      requires Valid()
      modifies this, Repr
      ensures Valid() && fresh(Repr - old(Repr))
      ensures Elements() == old(Elements()) + [data]
      ensures (head == null) == (tail == null)
    {
      ghost var before := Elements();
      var node := new Node(data);
      if head == null {
        head := node;
        tail := node;
      } else {
        tail.next := node;
        tail := node;
      }
      nodes := nodes + [node];
      Repr := Repr + {node};
      assert Elements() == before + [data] by {
        forall i | 0 <= i < |before| ensures Elements()[i] == before[i] {
        }
      }
    }

    /**
     * `delete_from_start()`: `None` on an empty list; otherwise the first
     * payload, whose node is unlinked, and `tail` cleared when the list
     * becomes empty.
     */
    method DeleteFromStart() returns (r: Option<T>)
      requires Valid()
      modifies this
      ensures Valid() && Repr <= old(Repr)
      ensures old(Elements()) == [] ==> r == None && Elements() == []
      ensures old(Elements()) != [] ==> r == Some(old(Elements())[0]) && Elements() == old(Elements())[1..]
      ensures Elements() == [] ==> head == null && tail == null
    {
      if head == null {
        return None;
      }
      ghost var before := Elements();
      r := Some(head.data);
      head := head.next;
      if head == null {
        tail := null;
      }
      nodes := nodes[1..];
      assert Elements() == before[1..];
    }

    /** `traversal()`: the payloads from `head` along `next` until `None`. */
    method Traversal() returns (elements: seq<T>)
      requires Valid()
      ensures elements == Elements()
    {
      var current := head;
      elements := [];
      ghost var k := 0;
      while current != null
        invariant 0 <= k <= |nodes|
        invariant current == (if k < |nodes| then nodes[k] else null)
        invariant elements == Elements()[..k]
        decreases |nodes| - k
      {
        elements := elements + [current.data];
        current := current.next;
        k := k + 1;
      }
    }

    /** `is_empty()`: the list has no head, which is when it has no payloads. */
    method IsEmpty() returns (b: bool)
      requires Valid()
      ensures b <==> Elements() == []
      ensures b <==> head == null
    {
      b := head == null;
    }
  }

  /** Inserting at the start then deleting from the start gives back the payload and the list. */
  method InsertThenDelete<T>(list: LinkedList<T>, x: T) returns (r: Option<T>)
    requires list.Valid()
    modifies list
    ensures list.Valid() && r == Some(x) && list.Elements() == old(list.Elements())
  {
    list.InsertAtStart(x);
    r := list.DeleteFromStart();
  }
}
