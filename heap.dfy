/**
 * lab07 `heap.py`: `SmallHeap` (min-heap) and `LargeHeap` (max-heap), each a
 * Python list kept in heap order by `_bubble_up` and `_sink_down`.
 *
 * Elements are compared by an integer `key`: plain numbers use `Ordering.Id`, the
 * priority queue's items use their priority (the only thing `QueueItem`'s
 * `<` looks at).  Index `c > 0` has parent `(c - 1) / 2`; the heap property
 * is stated per parent/child pair.
 */
module Heap {
  import opened Wrappers
  import opened Ordering

  // -----------------------------------------------------------------------
  // Index helpers (`_parent`, `_left`, `_right`)

  /** `_parent(i)`: -1 for the root, otherwise `(i - 1) // 2`. */
  function ParentIndex(i: nat): (p: int)
    ensures i == 0 <==> p == -1
    ensures p != -1 ==> 0 <= p < i && (i == 2 * p + 1 || i == 2 * p + 2)
  {
    if i == 0 then -1 else (i - 1) / 2
  }

  /** `_left(i)` in a heap of `n` elements: `2i + 1`, or -1 past the end. */
  function LeftIndex(i: nat, n: nat): (l: int)
    ensures l == -1 <==> 2 * i + 1 >= n
    ensures l != -1 ==> 0 < l < n && ParentIndex(l) == i
  {
    if 2 * i + 1 < n then 2 * i + 1 else -1
  }

  /** `_right(i)` in a heap of `n` elements: `2i + 2`, or -1 past the end. */
  function RightIndex(i: nat, n: nat): (r: int)
    ensures r == -1 <==> 2 * i + 2 >= n
    ensures r != -1 ==> 0 < r < n && ParentIndex(r) == i
  {
    if 2 * i + 2 < n then 2 * i + 2 else -1
  }

  // -----------------------------------------------------------------------
  // Heap order, min and max

  /** Every parent/child pair whose parent is at `lo` or later is in min-heap order. */
  ghost predicate MinHeapFrom<T>(s: seq<T>, key: T -> int, lo: nat, n: nat)
  {
    n <= |s| && forall p, c :: lo <= p < c < n && (c == 2 * p + 1 || c == 2 * p + 2) ==> key(s[p]) <= key(s[c])
  }

  ghost predicate IsMinHeap<T>(s: seq<T>, key: T -> int)
  {
    MinHeapFrom(s, key, 0, |s|)
  }

  /**
   * The state inside `_sink_down` started at `lo`: min-heap order holds from
   * `lo` on except between `h` and its children, and `h`'s parent (when it
   * is at `lo` or later) is no larger than `h`'s children.
   */
  ghost predicate MinHeapBelow<T>(s: seq<T>, key: T -> int, lo: nat, h: nat, n: nat)
  {
    n <= |s| &&
    (forall p, c :: lo <= p < c < n && p != h && (c == 2 * p + 1 || c == 2 * p + 2) ==> key(s[p]) <= key(s[c])) &&
    (forall g, c :: lo <= g < c < n && (h == 2 * g + 1 || h == 2 * g + 2) && (c == 2 * h + 1 || c == 2 * h + 2) ==> key(s[g]) <= key(s[c]))
  }

  /**
   * The state inside `_bubble_up`: min-heap order holds except between `h`
   * and its parent, and `h`'s parent is no larger than `h`'s children.
   */
  ghost predicate MinHeapAbove<T>(s: seq<T>, key: T -> int, h: nat)
  {
    (forall p, c :: 0 <= p < c < |s| && c != h && (c == 2 * p + 1 || c == 2 * p + 2) ==> key(s[p]) <= key(s[c])) &&
    (forall g, c :: 0 <= g < c < |s| && (h == 2 * g + 1 || h == 2 * g + 2) && (c == 2 * h + 1 || c == 2 * h + 2) ==> key(s[g]) <= key(s[c]))
  }

  /** The root of a min-heap is a minimum. */
  lemma {:induction false} MinHeapRoot<T>(s: seq<T>, key: T -> int, n: nat, i: nat)
    requires MinHeapFrom(s, key, 0, n) && i < n
    ensures key(s[0]) <= key(s[i])
    decreases i
  {
    if i > 0 {
      var p := (i - 1) / 2;
      MinHeapRoot(s, key, n, p);
      assert key(s[p]) <= key(s[i]);
    }
  }

  /** Removing the last element and moving it to the root leaves a fault only at the root. */
  lemma MinHeapMoveLastToRoot<T>(s: seq<T>, key: T -> int)
    requires IsMinHeap(s, key) && |s| >= 2
    ensures MinHeapBelow(s[..|s| - 1][0 := s[|s| - 1]], key, 0, 0, |s| - 1)
    ensures multiset(s[..|s| - 1][0 := s[|s| - 1]]) == multiset(s) - multiset{s[0]}
  {
    assert s == s[..|s| - 1] + [s[|s| - 1]];
    assert multiset(s[..|s| - 1]) == multiset(s) - multiset{s[|s| - 1]};
  }

  /** The root of a non-empty heap is an extreme element of it. */
  lemma MinHeapRootExtreme<T>(s: seq<T>, key: T -> int)
    requires IsMinHeap(s, key) && |s| > 0
    ensures forall x :: x in s ==> key(s[0]) <= key(x)
  {
    forall x | x in s ensures key(s[0]) <= key(x) {
      var i :| 0 <= i < |s| && s[i] == x;
      MinHeapRoot(s, key, |s|, i);
    }
  }

  /** One swap of `_sink_down` (min order) moves the fault one level down. */
  lemma MinSinkStep<T>(s: seq<T>, key: T -> int, lo: nat, h: nat, m: nat, n: nat)
    requires lo <= h < m < n && (m == 2 * h + 1 || m == 2 * h + 2)
    requires MinHeapBelow(s, key, lo, h, n) && key(s[m]) < key(s[h])
    requires 2 * h + 1 < n ==> key(s[m]) <= key(s[2 * h + 1])
    requires 2 * h + 2 < n ==> key(s[m]) <= key(s[2 * h + 2])
    ensures MinHeapBelow(Swap(s, h, m), key, lo, m, n)
  {
    var t := Swap(s, h, m);
    forall p, c | lo <= p < c < n && p != m && (c == 2 * p + 1 || c == 2 * p + 2)
      ensures key(t[p]) <= key(t[c])
    {
      if c == h {
        assert t[p] == s[p] && t[c] == s[m];
      } else if p == h {
        assert t[p] == s[m];
      } else {
        assert t[p] == s[p] && t[c] == s[c];
      }
    }
  }

  /** `_sink_down` stops when no child is smaller: the order holds from `lo`. */
  lemma MinSinkDone<T>(s: seq<T>, key: T -> int, lo: nat, h: nat, n: nat)
    requires lo <= h < n && MinHeapBelow(s, key, lo, h, n)
    requires 2 * h + 1 < n ==> key(s[h]) <= key(s[2 * h + 1])
    requires 2 * h + 2 < n ==> key(s[h]) <= key(s[2 * h + 2])
    ensures MinHeapFrom(s, key, lo, n)
  {
  }

  /** One swap of `_bubble_up` (min order) moves the fault one level up. */
  lemma MinBubbleStep<T>(s: seq<T>, key: T -> int, h: nat, p: nat)
    requires p < h < |s| && (h == 2 * p + 1 || h == 2 * p + 2)
    requires MinHeapAbove(s, key, h) && key(s[p]) > key(s[h])
    ensures MinHeapAbove(Swap(s, p, h), key, p)
  {
    var t := Swap(s, p, h);
    forall q, c | 0 <= q < c < |t| && c != p && (c == 2 * q + 1 || c == 2 * q + 2)
      ensures key(t[q]) <= key(t[c])
    {
      if c == h {
      } else if q == p {
        assert t[q] == s[h] && t[c] == s[c];
      } else if q == h {
        assert t[q] == s[p] && t[c] == s[c];
      } else {
        assert t[q] == s[q] && t[c] == s[c];
      }
    }
    forall g, c | 0 <= g < c < |t| && (p == 2 * g + 1 || p == 2 * g + 2) && (c == 2 * p + 1 || c == 2 * p + 2)
      ensures key(t[g]) <= key(t[c])
    {
      assert t[g] == s[g];
      if c != h {
        assert t[c] == s[c];
      }
    }
  }

  /** `_bubble_up` stops at the root or below a parent no larger: a min-heap. */
  lemma MinBubbleDone<T>(s: seq<T>, key: T -> int, h: nat)
    requires h < |s| && MinHeapAbove(s, key, h)
    requires h > 0 ==> key(s[(h - 1) / 2]) <= key(s[h])
    ensures IsMinHeap(s, key)
  {
  }

  /** Every parent/child pair whose parent is at `lo` or later is in max-heap order. */
  ghost predicate MaxHeapFrom<T>(s: seq<T>, key: T -> int, lo: nat, n: nat)
  {
    n <= |s| && forall p, c :: lo <= p < c < n && (c == 2 * p + 1 || c == 2 * p + 2) ==> key(s[p]) >= key(s[c])
  }

  ghost predicate IsMaxHeap<T>(s: seq<T>, key: T -> int)
  {
    MaxHeapFrom(s, key, 0, |s|)
  }

  /**
   * The state inside `_sink_down` started at `lo`: max-heap order holds from
   * `lo` on except between `h` and its children, and `h`'s parent (when it
   * is at `lo` or later) is no smaller than `h`'s children.
   */
  ghost predicate MaxHeapBelow<T>(s: seq<T>, key: T -> int, lo: nat, h: nat, n: nat)
  {
    n <= |s| &&
    (forall p, c :: lo <= p < c < n && p != h && (c == 2 * p + 1 || c == 2 * p + 2) ==> key(s[p]) >= key(s[c])) &&
    (forall g, c :: lo <= g < c < n && (h == 2 * g + 1 || h == 2 * g + 2) && (c == 2 * h + 1 || c == 2 * h + 2) ==> key(s[g]) >= key(s[c]))
  }

  /**
   * The state inside `_bubble_up`: max-heap order holds except between `h`
   * and its parent, and `h`'s parent is no smaller than `h`'s children.
   */
  ghost predicate MaxHeapAbove<T>(s: seq<T>, key: T -> int, h: nat)
  {
    (forall p, c :: 0 <= p < c < |s| && c != h && (c == 2 * p + 1 || c == 2 * p + 2) ==> key(s[p]) >= key(s[c])) &&
    (forall g, c :: 0 <= g < c < |s| && (h == 2 * g + 1 || h == 2 * g + 2) && (c == 2 * h + 1 || c == 2 * h + 2) ==> key(s[g]) >= key(s[c]))
  }

  /** The root of a max-heap is a maximum. */
  lemma {:induction false} MaxHeapRoot<T>(s: seq<T>, key: T -> int, n: nat, i: nat)
    requires MaxHeapFrom(s, key, 0, n) && i < n
    ensures key(s[0]) >= key(s[i])
    decreases i
  {
    if i > 0 {
      var p := (i - 1) / 2;
      MaxHeapRoot(s, key, n, p);
      assert key(s[p]) >= key(s[i]);
    }
  }

  /** Removing the last element and moving it to the root leaves a fault only at the root. */
  lemma MaxHeapMoveLastToRoot<T>(s: seq<T>, key: T -> int)
    requires IsMaxHeap(s, key) && |s| >= 2
    ensures MaxHeapBelow(s[..|s| - 1][0 := s[|s| - 1]], key, 0, 0, |s| - 1)
    ensures multiset(s[..|s| - 1][0 := s[|s| - 1]]) == multiset(s) - multiset{s[0]}
  {
    assert s == s[..|s| - 1] + [s[|s| - 1]];
    assert multiset(s[..|s| - 1]) == multiset(s) - multiset{s[|s| - 1]};
  }

  /** The root of a non-empty heap is an extreme element of it. */
  lemma MaxHeapRootExtreme<T>(s: seq<T>, key: T -> int)
    requires IsMaxHeap(s, key) && |s| > 0
    ensures forall x :: x in s ==> key(s[0]) >= key(x)
  {
    forall x | x in s ensures key(s[0]) >= key(x) {
      var i :| 0 <= i < |s| && s[i] == x;
      MaxHeapRoot(s, key, |s|, i);
    }
  }

  /** One swap of `_sink_down` (max order) moves the fault one level down. */
  lemma MaxSinkStep<T>(s: seq<T>, key: T -> int, lo: nat, h: nat, m: nat, n: nat)
    requires lo <= h < m < n && (m == 2 * h + 1 || m == 2 * h + 2)
    requires MaxHeapBelow(s, key, lo, h, n) && key(s[m]) > key(s[h])
    requires 2 * h + 1 < n ==> key(s[m]) >= key(s[2 * h + 1])
    requires 2 * h + 2 < n ==> key(s[m]) >= key(s[2 * h + 2])
    ensures MaxHeapBelow(Swap(s, h, m), key, lo, m, n)
  {
    var t := Swap(s, h, m);
    forall p, c | lo <= p < c < n && p != m && (c == 2 * p + 1 || c == 2 * p + 2)
      ensures key(t[p]) >= key(t[c])
    {
      if c == h {
        assert t[p] == s[p] && t[c] == s[m];
      } else if p == h {
        assert t[p] == s[m];
      } else {
        assert t[p] == s[p] && t[c] == s[c];
      }
    }
  }

  /** `_sink_down` stops when no child is larger: the order holds from `lo`. */
  lemma MaxSinkDone<T>(s: seq<T>, key: T -> int, lo: nat, h: nat, n: nat)
    requires lo <= h < n && MaxHeapBelow(s, key, lo, h, n)
    requires 2 * h + 1 < n ==> key(s[h]) >= key(s[2 * h + 1])
    requires 2 * h + 2 < n ==> key(s[h]) >= key(s[2 * h + 2])
    ensures MaxHeapFrom(s, key, lo, n)
  {
  }

  /** One swap of `_bubble_up` (max order) moves the fault one level up. */
  lemma MaxBubbleStep<T>(s: seq<T>, key: T -> int, h: nat, p: nat)
    requires p < h < |s| && (h == 2 * p + 1 || h == 2 * p + 2)
    requires MaxHeapAbove(s, key, h) && key(s[p]) < key(s[h])
    ensures MaxHeapAbove(Swap(s, p, h), key, p)
  {
    var t := Swap(s, p, h);
    forall q, c | 0 <= q < c < |t| && c != p && (c == 2 * q + 1 || c == 2 * q + 2)
      ensures key(t[q]) >= key(t[c])
    {
      if c == h {
      } else if q == p {
        assert t[q] == s[h] && t[c] == s[c];
      } else if q == h {
        assert t[q] == s[p] && t[c] == s[c];
      } else {
        assert t[q] == s[q] && t[c] == s[c];
      }
    }
    forall g, c | 0 <= g < c < |t| && (p == 2 * g + 1 || p == 2 * g + 2) && (c == 2 * p + 1 || c == 2 * p + 2)
      ensures key(t[g]) >= key(t[c])
    {
      assert t[g] == s[g];
      if c != h {
        assert t[c] == s[c];
      }
    }
  }

  /** `_bubble_up` stops at the root or below a parent no smaller: a max-heap. */
  lemma MaxBubbleDone<T>(s: seq<T>, key: T -> int, h: nat)
    requires h < |s| && MaxHeapAbove(s, key, h)
    requires h > 0 ==> key(s[(h - 1) / 2]) >= key(s[h])
    ensures IsMaxHeap(s, key)
  {
  }

  // -----------------------------------------------------------------------
  // SmallHeap

  class SmallHeap<T> {
    /** `self.heap`. */
    var heap: seq<T>
    /** What `<` and `>` compare on the elements. */
    const key: T -> int

    ghost predicate Valid()
      reads this
    {
      IsMinHeap(heap, key)
    }

    /** `SmallHeap(array=None)`: empty, or `heapify(array)` with `items` as `array` when given. */
    constructor (key: T -> int, items: Option<seq<T>> := None)
      ensures this.key == key && Valid()
      ensures items.None? ==> heap == []
      ensures items.Some? ==> multiset(heap) == multiset(items.value) && |heap| == |items.value|
    {
      this.key := key;
      heap := [];
      new;
      if items.Some? {
        Heapify(items.value);
      }
    }

    /** `__len__`. */
    function Length(): (n: nat)
      reads this
      ensures n == |multiset(heap)|
    {
      |heap|
    }

    /**
     * `_bubble_up(index)`: swap the element with its parent while the parent
     * is larger.  Repairs a heap whose only fault is between `index` and its
     * parent.
     */
    method BubbleUp(index: nat)
      requires index < |heap| && MinHeapAbove(heap, key, index)
      modifies this`heap
      ensures IsMinHeap(heap, key) && multiset(heap) == old(multiset(heap)) && |heap| == old(|heap|)
    {
      var i: nat := index;
      while i > 0 && key(heap[(i - 1) / 2]) > key(heap[i])
        invariant i < |heap| == old(|heap|)
        invariant MinHeapAbove(heap, key, i)
        invariant multiset(heap) == old(multiset(heap))
        decreases i
      {
        var parent := (i - 1) / 2;
        MinBubbleStep(heap, key, i, parent);
        heap := Swap(heap, parent, i);
        i := parent;
      }
      MinBubbleDone(heap, key, i);
    }

    /**
     * `_sink_down(index)`: swap the element with its smaller child while that
     * child is smaller.  Repairs the subtree below `lo` (ghost: where the
     * caller's repair started) whose only fault is between `index` and its
     * children; nothing before `lo` moves.
     */
    method SinkDown(index: nat, ghost lo: nat)
      requires lo <= index < |heap| && MinHeapBelow(heap, key, lo, index, |heap|)
      modifies this`heap
      ensures MinHeapFrom(heap, key, lo, |heap|) && multiset(heap) == old(multiset(heap)) && |heap| == old(|heap|)
      ensures heap[..lo] == old(heap[..lo])
    {
      var i: nat := index;
      while true
        invariant lo <= i < |heap| == old(|heap|)
        invariant MinHeapBelow(heap, key, lo, i, |heap|)
        invariant multiset(heap) == old(multiset(heap))
        invariant heap[..lo] == old(heap[..lo])
        decreases |heap| - i
      {
        var left := LeftIndex(i, |heap|);
        var right := RightIndex(i, |heap|);
        var smallest := i;
        if left != -1 && key(heap[left]) < key(heap[smallest]) {
          smallest := left;
        }
        if right != -1 && key(heap[right]) < key(heap[smallest]) {
          smallest := right;
        }
        if smallest != i {
          MinSinkStep(heap, key, lo, i, smallest, |heap|);
          heap := Swap(heap, i, smallest);
          i := smallest;
        } else {
          MinSinkDone(heap, key, lo, i, |heap|);
          break;
        }
      }
    }

    /** `push(value)`: append, then bubble up. */
    method Push(value: T)
      requires Valid()
      modifies this`heap
      ensures Valid()
      ensures multiset(heap) == old(multiset(heap)) + multiset{value} && |heap| == old(|heap|) + 1
    {
      heap := heap + [value];
      BubbleUp(|heap| - 1);
    }

    /**
     * `pop()`: `None` on an empty heap; otherwise the root, a minimum, with
     * the last element moved to the root and sunk down.
     */
    method Pop() returns (r: Option<T>)
      requires Valid()
      modifies this`heap
      ensures Valid()
      ensures old(heap) == [] ==> r == None && heap == []
      ensures old(heap) != [] ==> r == Some(old(heap)[0]) &&
                                  multiset(heap) == old(multiset(heap)) - multiset{old(heap)[0]} &&
                                  |heap| == old(|heap|) - 1 &&
                                  forall x :: x in old(heap) ==> key(r.value) <= key(x)
    {
      if heap == [] {
        return None;
      }
      MinHeapRootExtreme(heap, key);
      if |heap| == 1 {
        r := Some(heap[0]);
        heap := [];
        return;
      }
      var root := heap[0];
      var last := heap[|heap| - 1];
      MinHeapMoveLastToRoot(heap, key);
      heap := heap[..|heap| - 1][0 := last];
      SinkDown(0, 0);
      r := Some(root);
    }

    /** `top()`: the root, a minimum, or `None`; nothing changes. */
    function Top(): (r: Option<T>)
      reads this
      requires Valid()
      ensures r.None? <==> |heap| == 0
      ensures r.Some? ==> r.value in heap && forall x :: x in heap ==> key(r.value) <= key(x)
    {
      if heap == [] then None
      else
        assert forall i :: 0 <= i < |heap| ==> key(heap[0]) <= key(heap[i]) by {
          forall i | 0 <= i < |heap| ensures key(heap[0]) <= key(heap[i]) { MinHeapRoot(heap, key, |heap|, i); }
        }
        Some(heap[0])
    }

    /**
     * `heapify(array)`: a copy of `array` (the caller's list is a value and
     * stays as it was), then `_sink_down(i)` for `i = n//2 - 1` down to 0.
     */
    method Heapify(items: seq<T>)
      modifies this`heap
      ensures Valid() && multiset(heap) == multiset(items) && |heap| == |items|
    {
      heap := items;
      var i := |heap| / 2;
      while i > 0
        invariant 0 <= i <= |heap| / 2
        invariant MinHeapFrom(heap, key, i, |heap|)
        invariant multiset(heap) == multiset(items) && |heap| == |items|
      {
        i := i - 1;
        SinkDown(i, i);
      }
    }

    /** `validate_heap()`: no parent is larger than an existing child. */
    method ValidateHeap() returns (ok: bool)
      ensures ok == IsMinHeap(heap, key)
    {
      var s, n := heap, |heap|;
      for i := 0 to n
        invariant forall p, c :: 0 <= p < i && p < c < n && (c == 2 * p + 1 || c == 2 * p + 2) ==> key(s[p]) <= key(s[c])
      {
        var left := LeftIndex(i, n);
        var right := RightIndex(i, n);
        if left != -1 && key(s[i]) > key(s[left]) {
          return false;
        }
        if right != -1 && key(s[i]) > key(s[right]) {
          return false;
        }
      }
      return true;
    }
  }

  // -----------------------------------------------------------------------
  // LargeHeap: the mirror image

  class LargeHeap<T> {
    /** `self.heap`. */
    var heap: seq<T>
    /** What `<` and `>` compare on the elements. */
    const key: T -> int

    ghost predicate Valid()
      reads this
    {
      IsMaxHeap(heap, key)
    }

    /** `LargeHeap(array=None)`: empty, or `heapify(array)` when given. */
    constructor (key: T -> int, items: Option<seq<T>> := None)
      ensures this.key == key && Valid()
      ensures items.None? ==> heap == []
      ensures items.Some? ==> multiset(heap) == multiset(items.value) && |heap| == |items.value|
    {
      this.key := key;
      heap := [];
      new;
      if items.Some? {
        Heapify(items.value);
      }
    }

    /** `__len__`. */
    function Length(): (n: nat)
      reads this
      ensures n == |multiset(heap)|
    {
      |heap|
    }

    /** `_bubble_up(index)`: swap with the parent while the parent is smaller. */
    method BubbleUp(index: nat)
      requires index < |heap| && MaxHeapAbove(heap, key, index)
      modifies this`heap
      ensures IsMaxHeap(heap, key) && multiset(heap) == old(multiset(heap)) && |heap| == old(|heap|)
    {
      var i: nat := index;
      while i > 0 && key(heap[(i - 1) / 2]) < key(heap[i])
        invariant i < |heap| == old(|heap|)
        invariant MaxHeapAbove(heap, key, i)
        invariant multiset(heap) == old(multiset(heap))
        decreases i
      {
        var parent := (i - 1) / 2;
        MaxBubbleStep(heap, key, i, parent);
        heap := Swap(heap, parent, i);
        i := parent;
      }
      MaxBubbleDone(heap, key, i);
    }

    /** `_sink_down(index)`: swap with the larger child while that child is larger. */
    method SinkDown(index: nat, ghost lo: nat)
      requires lo <= index < |heap| && MaxHeapBelow(heap, key, lo, index, |heap|)
      modifies this`heap
      ensures MaxHeapFrom(heap, key, lo, |heap|) && multiset(heap) == old(multiset(heap)) && |heap| == old(|heap|)
      ensures heap[..lo] == old(heap[..lo])
    {
      var i: nat := index;
      while true
        invariant lo <= i < |heap| == old(|heap|)
        invariant MaxHeapBelow(heap, key, lo, i, |heap|)
        invariant multiset(heap) == old(multiset(heap))
        invariant heap[..lo] == old(heap[..lo])
        decreases |heap| - i
      {
        var left := LeftIndex(i, |heap|);
        var right := RightIndex(i, |heap|);
        var largest := i;
        if left != -1 && key(heap[left]) > key(heap[largest]) {
          largest := left;
        }
        if right != -1 && key(heap[right]) > key(heap[largest]) {
          largest := right;
        }
        if largest != i {
          MaxSinkStep(heap, key, lo, i, largest, |heap|);
          heap := Swap(heap, i, largest);
          i := largest;
        } else {
          MaxSinkDone(heap, key, lo, i, |heap|);
          break;
        }
      }
    }

    /** `push(value)`: append, then bubble up. */
    method Push(value: T)
      requires Valid()
      modifies this`heap
      ensures Valid()
      ensures multiset(heap) == old(multiset(heap)) + multiset{value} && |heap| == old(|heap|) + 1
    {
      heap := heap + [value];
      BubbleUp(|heap| - 1);
    }

    /** `pop()`: `None` on an empty heap; otherwise the root, a maximum. */
    method Pop() returns (r: Option<T>)
      requires Valid()
      modifies this`heap
      ensures Valid()
      ensures old(heap) == [] ==> r == None && heap == []
      ensures old(heap) != [] ==> r == Some(old(heap)[0]) &&
                                  multiset(heap) == old(multiset(heap)) - multiset{old(heap)[0]} &&
                                  |heap| == old(|heap|) - 1 &&
                                  forall x :: x in old(heap) ==> key(r.value) >= key(x)
    {
      if heap == [] {
        return None;
      }
      MaxHeapRootExtreme(heap, key);
      if |heap| == 1 {
        r := Some(heap[0]);
        heap := [];
        return;
      }
      var root := heap[0];
      var last := heap[|heap| - 1];
      MaxHeapMoveLastToRoot(heap, key);
      heap := heap[..|heap| - 1][0 := last];
      SinkDown(0, 0);
      r := Some(root);
    }

    /** `top()`: the root, a maximum, or `None`; nothing changes. */
    function Top(): (r: Option<T>)
      reads this
      requires Valid()
      ensures r.None? <==> |heap| == 0
      ensures r.Some? ==> r.value in heap && forall x :: x in heap ==> key(r.value) >= key(x)
    {
      if heap == [] then None
      else
        assert forall i :: 0 <= i < |heap| ==> key(heap[0]) >= key(heap[i]) by {
          forall i | 0 <= i < |heap| ensures key(heap[0]) >= key(heap[i]) { MaxHeapRoot(heap, key, |heap|, i); }
        }
        Some(heap[0])
    }

    /** `heapify(array)`: a copy of `array`, then `_sink_down` from `n//2 - 1` down to 0. */
    method Heapify(items: seq<T>)
      modifies this`heap
      ensures Valid() && multiset(heap) == multiset(items) && |heap| == |items|
    {
      heap := items;
      var i := |heap| / 2;
      while i > 0
        invariant 0 <= i <= |heap| / 2
        invariant MaxHeapFrom(heap, key, i, |heap|)
        invariant multiset(heap) == multiset(items) && |heap| == |items|
      {
        i := i - 1;
        SinkDown(i, i);
      }
    }

    /** `validate_heap()`: no parent is smaller than an existing child. */
    method ValidateHeap() returns (ok: bool)
      ensures ok == IsMaxHeap(heap, key)
    {
      var s, n := heap, |heap|;
      for i := 0 to n
        invariant forall p, c :: 0 <= p < i && p < c < n && (c == 2 * p + 1 || c == 2 * p + 2) ==> key(s[p]) >= key(s[c])
      {
        var left := LeftIndex(i, n);
        var right := RightIndex(i, n);
        if left != -1 && key(s[i]) < key(s[left]) {
          return false;
        }
        if right != -1 && key(s[i]) < key(s[right]) {
          return false;
        }
      }
      return true;
    }
  }
}
