/**
 * lab07 `priority_queue.py`: `TaskQueue`, a priority queue over `SmallHeap`
 * whose items are `QueueItem(priority, value)`; a lower number is served
 * first.  `QueueItem.__lt__` compares priorities only, so the heap's key is
 * `Priority`; `QueueItem.__eq__` compares both fields, as datatype equality
 * does.
 */
module PriorityQueue {
  import opened Wrappers
  import opened Heap

  datatype QueueItem<V> = QueueItem(priority: int, value: V)

  /** What `QueueItem.__lt__` compares. */
  function Priority<V>(item: QueueItem<V>): int { item.priority }

  /**
   * The first position whose item carries `value` (the `enumerate` scan of
   * `update_priority`), or -1.
   */
  function FindValue<V(==)>(items: seq<QueueItem<V>>, value: V): (r: int)
    ensures -1 <= r < |items|
    ensures r == -1 <==> forall i :: 0 <= i < |items| ==> items[i].value != value
    ensures r >= 0 ==> items[r].value == value && forall i :: 0 <= i < r ==> items[i].value != value
  {
    if items == [] then -1
    else if items[0].value == value then 0
    else
      var r := FindValue(items[1..], value);
      if r == -1 then -1 else r + 1
  }

  /** Lowering the key at `i` of a min-heap leaves a fault only above `i`. */
  lemma DecreasedKeyBubbles<V>(s: seq<QueueItem<V>>, i: nat, p: int)
    requires IsMinHeap(s, Priority) && i < |s| && p < s[i].priority
    ensures MinHeapAbove(s[i := s[i].(priority := p)], Priority, i)
  {
  }

  /** Raising the key at `i` of a min-heap leaves a fault only below `i`. */
  lemma IncreasedKeySinks<V>(s: seq<QueueItem<V>>, i: nat, p: int)
    requires IsMinHeap(s, Priority) && i < |s| && p > s[i].priority
    ensures MinHeapBelow(s[i := s[i].(priority := p)], Priority, 0, i, |s|)
  {
  }

  class TaskQueue<V(==)> {
    /** `self.heap`, never replaced. */
    const heap: SmallHeap<QueueItem<V>>

    ghost predicate Valid()
      reads this, heap
    {
      heap.key == Priority && heap.Valid()
    }

    /** The queued items. */
    ghost function Items(): multiset<QueueItem<V>>
      reads this, heap
    {
      multiset(heap.heap)
    }

    /** `TaskQueue()`: an empty queue over a fresh `SmallHeap`. */
    constructor ()
      ensures Valid() && fresh(heap) && Items() == multiset{}
    {
      heap := new SmallHeap(Priority);
    }

    /** `__len__`. */
    function Length(): (n: nat)
      reads this, heap
      ensures n == |Items()|
    {
      heap.Length()
    }

    /** `empty()`. */
    function Empty(): (b: bool)
      reads this, heap
      ensures b <==> Items() == multiset{}
    {
      heap.Length() == 0
    }

    /** `push_with_priority(value, priority=0)`. */
    method PushWithPriority(value: V, priority: int := 0)
      requires Valid()
      modifies heap
      ensures Valid() && Items() == old(Items()) + multiset{QueueItem(priority, value)}
    {
      heap.Push(QueueItem(priority, value));
    }

    /**
     * `pop_priority()`: the value of the heap's root, an item of lowest
     * priority number, removed from the queue, or `None` when the queue is
     * empty.  It is exactly what `peek_priority` showed just before.
     */
    method PopPriority() returns (r: Option<V>)
      requires Valid()
      modifies heap
      ensures Valid()
      ensures r == old(PeekPriority())
      ensures old(heap.heap) != [] ==> r == Some(old(heap.heap)[0].value)
      ensures old(Items()) == multiset{} ==> r == None && Items() == multiset{}
      ensures old(Items()) != multiset{} ==>
                exists item :: item in old(Items()) && r == Some(item.value) &&
                               Items() == old(Items()) - multiset{item} &&
                               forall other :: other in old(Items()) ==> item.priority <= other.priority
    {
      var item := heap.Pop();
      if item.Some? {
        r := Some(item.value.value);
      } else {
        r := None;
      }
    }

    /**
     * `peek_priority()`: the value of the heap's root, which is what
     * `pop_priority` would return; nothing changes.
     */
    function PeekPriority(): (r: Option<V>)
      reads this, heap
      requires Valid()
      ensures r == if heap.heap == [] then None else Some(heap.heap[0].value)
      ensures Items() == multiset{} <==> r.None?
      ensures r.Some? ==> exists item :: item in Items() && r.value == item.value &&
                                         forall other :: other in Items() ==> item.priority <= other.priority
    {
      var item := heap.Top();
      if item.Some? then
        assert item.value in multiset(heap.heap);
        assert forall other :: other in multiset(heap.heap) ==> other in heap.heap;
        Some(item.value.value)
      else
        None
    }

    /**
     * `update_priority(value, new_priority)`: the first item (in heap order)
     * carrying `value` gets `new_priority` and is bubbled up or sunk down;
     * `false` when no item carries `value`.
     */
    method UpdatePriority(value: V, newPriority: int) returns (found: bool)
      requires Valid()
      modifies heap
      ensures Valid()
      ensures found <==> exists item :: item in old(Items()) && item.value == value
      ensures !found ==> heap.heap == old(heap.heap)
      ensures found ==> var i := FindValue(old(heap.heap), value);
                        0 <= i < |old(heap.heap)| &&
                        Items() == old(Items()) - multiset{old(heap.heap)[i]} + multiset{QueueItem(newPriority, value)}
    {
      var items := heap.heap;
      for i := 0 to |items|
        invariant heap.heap == items
        invariant forall j :: 0 <= j < i ==> items[j].value != value
      {
        var item := items[i];
        if item.value == value {
          var oldPriority := item.priority;
          var updated := items[i := item.(priority := newPriority)];
          assert multiset(updated) == multiset(items) - multiset{item} + multiset{QueueItem(newPriority, value)};
          if newPriority < oldPriority {
            DecreasedKeyBubbles(items, i, newPriority);
            heap.heap := updated;
            heap.BubbleUp(i);
          } else if newPriority > oldPriority {
            IncreasedKeySinks(items, i, newPriority);
            heap.heap := updated;
            heap.SinkDown(i, 0);
          } else {
            assert updated == items;
          }
          return true;
        }
      }
      forall item | item in multiset(items) ensures item.value != value {
        var j :| 0 <= j < |items| && items[j] == item;
      }
      return false;
    }
  }
}
