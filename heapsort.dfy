/**
 * lab07 `heapsort.py`: two sorts that drain a `SmallHeap` or `LargeHeap`,
 * and the in-place heapsort with its `_sink`.
 */
module HeapSort {
  import opened Wrappers
  import opened Ordering
  import opened Heap

  /** Appending an element no smaller than the last keeps a list sorted. */
  lemma AppendKeepsSorted(s: seq<int>, x: int)
    requires Sorted(s) && (s != [] ==> s[|s| - 1] <= x)
    ensures Sorted(s + [x])
  {
  }

  /** Prepending an element no larger than the first keeps a list sorted. */
  lemma PrependKeepsSorted(x: int, s: seq<int>)
    requires Sorted(s) && (s != [] ==> x <= s[0])
    ensures Sorted([x] + s)
  {
  }

  /**
   * Appending the minimum `x` popped from `before`, leaving `after`, keeps
   * `sorted` sorted and below what is left.
   */
  lemma DrainMinStep(sorted: seq<int>, before: seq<int>, after: seq<int>, x: int)
    requires Sorted(sorted) && (sorted != [] ==> forall y :: y in before ==> sorted[|sorted| - 1] <= y)
    requires x in before && (forall y :: y in before ==> x <= y)
    requires multiset(after) == multiset(before) - multiset{x}
    ensures Sorted(sorted + [x])
    ensures forall y :: y in after ==> x <= y
    ensures multiset(sorted + [x]) + multiset(after) == multiset(sorted) + multiset(before)
  {
    forall y | y in after ensures y in before {
      assert y in multiset(after);
    }
    AppendKeepsSorted(sorted, x);
  }

  /**
   * `heapsort_using_smallheap(array)`: heapify a copy, then append the
   * successive minima.
   */
  method HeapsortUsingSmallHeap(items: seq<int>) returns (sorted: seq<int>)
    ensures Sorted(sorted) && multiset(sorted) == multiset(items)
  {
    var heap := new SmallHeap(Id, Some(items));
    sorted := [];
    while heap.Length() > 0
      invariant fresh(heap) && heap.key == Id && heap.Valid()
      invariant multiset(sorted) + multiset(heap.heap) == multiset(items)
      invariant Sorted(sorted)
      invariant sorted != [] ==> forall y :: y in heap.heap ==> sorted[|sorted| - 1] <= y
      decreases |heap.heap|
    {
      ghost var before := heap.heap;
      var x := heap.Pop();
      DrainMinStep(sorted, before, heap.heap, x.value);
      sorted := sorted + [x.value];
    }
  }

  /**
   * The state of the drain loop of `heapsort_using_largeheap`: positions
   * `i..` of `sorted` hold, in ascending order, maxima already popped, all
   * at least everything still in `rest`; together they are `items`.
   */
  ghost predicate DrainMaxState(sorted: seq<int>, i: nat, rest: seq<int>, items: seq<int>)
  {
    i <= |sorted| && |rest| == i &&
    multiset(sorted[i..]) + multiset(rest) == multiset(items) &&
    Sorted(sorted[i..]) &&
    (i < |sorted| ==> forall y :: y in rest ==> y <= sorted[i])
  }

  /** Writing the popped maximum `x` at position `i - 1` keeps the drain state. */
  lemma DrainMaxStep(sorted: seq<int>, i: nat, before: seq<int>, after: seq<int>, x: int, items: seq<int>)
    requires 0 < i && DrainMaxState(sorted, i, before, items)
    requires x in before && (forall y :: y in before ==> y <= x)
    requires multiset(after) == multiset(before) - multiset{x}
    ensures DrainMaxState(sorted[i - 1 := x], i - 1, after, items)
  {
    var tail := sorted[i..];
    var next := sorted[i - 1 := x];
    assert next[i - 1..] == [x] + tail;
    assert |after| == |multiset(after)| == |multiset(before)| - 1;
    forall y | y in after ensures y <= x {
      assert y in multiset(after);
      assert y in multiset(before);
      assert y in before;
    }
    PrependKeepsSorted(x, tail);
  }

  /** With nothing left in the heap, the whole list is sorted. */
  lemma DrainMaxDone(sorted: seq<int>, rest: seq<int>, items: seq<int>)
    requires DrainMaxState(sorted, 0, rest, items)
    ensures Sorted(sorted) && multiset(sorted) == multiset(items)
  {
    assert sorted[0..] == sorted;
  }

  /**
   * `heapsort_using_largeheap(array)`: heapify a copy, then write the
   * successive maxima into a list of zeros from the last position down.
   */
  method HeapsortUsingLargeHeap(items: seq<int>) returns (sorted: seq<int>)
    ensures Sorted(sorted) && multiset(sorted) == multiset(items)
  {
    var heap := new LargeHeap(Id, Some(items));
    sorted := seq(|items|, _ => 0);
    var i: nat := |items|;
    while i > 0
      invariant fresh(heap) && heap.key == Id && heap.Valid()
      invariant DrainMaxState(sorted, i, heap.heap, items)
    {
      ghost var before := heap.heap;
      var x := heap.Pop();
      DrainMaxStep(sorted, i, before, heap.heap, x.value, items);
      sorted := sorted[i - 1 := x.value];
      i := i - 1;
    }
    DrainMaxDone(sorted, heap.heap, items);
  }

  /**
   * The state of the loop of `_sink(arr, start, end)` started on `orig`:
   * the heap from `start` within `[0, end]` is faulty at most at `root`,
   * `arr[0..end]` holds the same elements, and nothing outside
   * `[start, end]` has moved.
   */
  ghost predicate SinkState(s: seq<int>, orig: seq<int>, start: nat, root: nat, end: nat)
  {
    start <= root <= end < |s| == |orig| &&
    MaxHeapBelow(s, Id, start, root, end + 1) &&
    multiset(s[..end + 1]) == multiset(orig[..end + 1]) &&
    forall k :: 0 <= k < |s| && (k < start || end < k) ==> s[k] == orig[k]
  }

  /** One swap of `_sink`, with the larger child `swap`, keeps its state. */
  lemma SinkSwapStep(s: seq<int>, orig: seq<int>, start: nat, root: nat, swap: nat, end: nat)
    requires SinkState(s, orig, start, root, end)
    requires root < swap <= end && (swap == 2 * root + 1 || swap == 2 * root + 2)
    requires s[swap] > s[root] && s[swap] >= s[2 * root + 1]
    requires 2 * root + 2 <= end ==> s[swap] >= s[2 * root + 2]
    ensures SinkState(Swap(s, root, swap), orig, start, swap, end)
  {
    MaxSinkStep(s, Id, start, root, swap, end + 1);
    assert Swap(s, root, swap)[..end + 1] == Swap(s[..end + 1], root, swap);
  }

  /** When `_sink` stops, the heap from `start` is whole and `arr` is a permutation. */
  lemma SinkStateDone(s: seq<int>, orig: seq<int>, start: nat, root: nat, end: nat)
    requires SinkState(s, orig, start, root, end)
    requires 2 * root + 1 <= end ==> s[root] >= s[2 * root + 1]
    requires 2 * root + 2 <= end ==> s[root] >= s[2 * root + 2]
    ensures MaxHeapFrom(s, Id, start, end + 1)
    ensures multiset(s) == multiset(orig)
  {
    MaxSinkDone(s, Id, start, root, end + 1);
    assert s == s[..end + 1] + s[end + 1..];
    assert orig == orig[..end + 1] + orig[end + 1..];
    assert s[end + 1..] == orig[end + 1..];
  }

  /**
   * One pass of the loop of `_sink(arr, start, end)` at `root`: picks the
   * largest of `root` and its children and, if that is a child, swaps it up
   * and returns its index; returns `root` when the heap is whole.
   */
  method SinkRoundOf(a: array<int>, start: nat, root: nat, end: nat, ghost orig: seq<int>) returns (swap: nat)
    requires SinkState(a[..], orig, start, root, end) && 2 * root + 1 <= end
    modifies a
    ensures swap == root ==> SinkState(a[..], orig, start, root, end) &&
                             MaxHeapFrom(a[..], Id, start, end + 1) && multiset(a[..]) == multiset(orig)
    ensures swap != root ==> root < swap <= end && SinkState(a[..], orig, start, swap, end)
  {
    var child := 2 * root + 1;
    swap := root;
    if a[swap] < a[child] {
      swap := child;
    }
    if child + 1 <= end && a[swap] < a[child + 1] {
      swap := child + 1;
    }
    if swap == root {
      SinkStateDone(a[..], orig, start, root, end);
    } else {
      ghost var before := a[..];
      SinkSwapStep(before, orig, start, root, swap, end);
      a[root], a[swap] := a[swap], a[root];
      assert a[..] == Swap(before, root, swap);
    }
  }

  /**
   * `_sink(arr, start, end)`: within `arr[start..end]`, swap the root with
   * its larger child while that child is larger.  When both subtrees of
   * `start` (inside `[0, end]`) are max-heaps, the heap from `start` is
   * repaired; nothing outside `[start, end]` moves.
   */
  method Sink(a: array<int>, start: nat, end: nat)
    requires start <= end < a.Length
    requires MaxHeapBelow(a[..], Id, start, start, end + 1)
    modifies a
    ensures MaxHeapFrom(a[..], Id, start, end + 1)
    ensures multiset(a[..]) == old(multiset(a[..]))
    ensures multiset(a[..end + 1]) == old(multiset(a[..end + 1]))
    ensures forall k :: 0 <= k < a.Length && (k < start || end < k) ==> a[k] == old(a[k])
  {
    ghost var orig := a[..];
    var root := start;
    while 2 * root + 1 <= end
      invariant SinkState(a[..], orig, start, root, end)
      decreases end - root
    {
      var swap := SinkRoundOf(a, start, root, end, orig);
      if swap == root {
        return;
      }
      assert SinkState(a[..], orig, start, swap, end);
      root := swap;
    }
    SinkStateDone(a[..], orig, start, root, end);
  }

  /** Every element of a permutation of `q` is bounded by what bounds `q`. */
  lemma PermutationBound(p: seq<int>, q: seq<int>, b: int)
    requires multiset(p) == multiset(q) && forall k :: 0 <= k < |q| ==> q[k] <= b
    ensures forall k :: 0 <= k < |p| ==> p[k] <= b
  {
    forall k | 0 <= k < |p| ensures p[k] <= b {
      assert p[k] in multiset(q);
    }
  }

  /**
   * The state of the extraction loop: `s[0..end]` is a max-heap and
   * `s[end+1..]` holds the largest elements in ascending order.
   */
  ghost predicate HeapThenSorted(s: seq<int>, end: nat)
  {
    end < |s| && MaxHeapFrom(s, Id, 0, end + 1) &&
    (forall i, j :: end < i < j < |s| ==> s[i] <= s[j]) &&
    (forall k :: 0 <= k <= end < |s| - 1 ==> s[k] <= s[end + 1])
  }

  /** When the heap is down to its root, the whole sequence is sorted. */
  lemma HeapThenSortedDone(s: seq<int>)
    requires HeapThenSorted(s, 0)
    ensures Sorted(s)
  {
  }

  /** Swapping the root to position `end` leaves a fault only at the root of `[0, end)`. */
  lemma ExtractSwap(before: seq<int>, swapped: seq<int>, end: nat)
    requires 0 < end && HeapThenSorted(before, end)
    requires swapped == Swap(before, 0, end)
    ensures MaxHeapBelow(swapped, Id, 0, 0, end)
    ensures forall k :: 0 <= k < end ==> swapped[k] <= swapped[end]
  {
    forall k | 0 <= k <= end ensures before[k] <= before[0] {
      MaxHeapRoot(before, Id, end + 1, k);
    }
  }

  /** The old maximum, swapped to `end`, heads the sorted tail. */
  lemma ExtractTail(before: seq<int>, swapped: seq<int>, after: seq<int>, end: nat)
    requires 0 < end && HeapThenSorted(before, end) && |before| == |after|
    requires swapped == Swap(before, 0, end)
    requires forall k :: 0 <= k < |after| && end - 1 < k ==> after[k] == swapped[k]
    ensures forall i, j :: end - 1 < i < j < |after| ==> after[i] <= after[j]
  {
    forall i, j | end - 1 < i < j < |after| ensures after[i] <= after[j] {
      if i == end {
        MaxHeapRoot(before, Id, end + 1, end);
      }
    }
  }

  /** What `_sink(arr, 0, end - 1)` leaves in `arr[0..end-1]` is bounded by `arr[end]`. */
  lemma ExtractBound(swapped: seq<int>, after: seq<int>, end: nat)
    requires 0 < end < |swapped| == |after|
    requires forall k :: 0 <= k < end ==> swapped[k] <= swapped[end]
    requires multiset(after[..end]) == multiset(swapped[..end])
    requires after[end] == swapped[end]
    ensures forall k :: 0 <= k < end ==> after[k] <= after[end]
  {
    PermutationBound(after[..end], swapped[..end], swapped[end]);
    assert forall k :: 0 <= k < end ==> after[..end][k] == after[k];
  }

  /**
   * After the swap and `_sink(arr, 0, end - 1)`: the heap is one shorter,
   * and the sorted tail one longer, headed by the old maximum.
   */
  lemma ExtractStep(before: seq<int>, swapped: seq<int>, after: seq<int>, end: nat)
    requires 0 < end && HeapThenSorted(before, end) && |before| == |swapped| == |after|
    requires swapped == Swap(before, 0, end)
    requires forall k :: 0 <= k < end ==> swapped[k] <= swapped[end]
    requires MaxHeapFrom(after, Id, 0, end)
    requires multiset(after) == multiset(swapped)
    requires multiset(after[..end]) == multiset(swapped[..end])
    requires forall k :: 0 <= k < |after| && end - 1 < k ==> after[k] == swapped[k]
    ensures HeapThenSorted(after, end - 1)
    ensures multiset(after) == multiset(before)
  {
    ExtractTail(before, swapped, after, end);
    ExtractBound(swapped, after, end);
  }

  /**
   * The build phase of `inplace_heapsort`: `_sink(array, i, n - 1)` for
   * `i = n//2 - 1` down to 0 makes the whole array a max-heap.
   */
  method BuildMaxHeap(a: array<int>)
    modifies a
    ensures IsMaxHeap(a[..], Id) && multiset(a[..]) == old(multiset(a[..]))
  {
    var n := a.Length;
    var i := n / 2;
    while i > 0
      invariant 0 <= i <= n / 2
      invariant MaxHeapFrom(a[..], Id, i, n)
      invariant multiset(a[..]) == old(multiset(a[..]))
    {
      i := i - 1;
      Sink(a, i, n - 1);
    }
  }

  /**
   * The extraction phase of `inplace_heapsort`: for `i = n - 1` down to 1,
   * swap the root (a maximum) to position `i` and `_sink(array, 0, i - 1)`.
   */
  method ExtractMaxima(a: array<int>)
    requires a.Length > 0 && IsMaxHeap(a[..], Id)
    modifies a
    ensures Sorted(a[..]) && multiset(a[..]) == old(multiset(a[..]))
  {
    var end: nat := a.Length - 1;
    while end > 0
      invariant HeapThenSorted(a[..], end)
      invariant multiset(a[..]) == old(multiset(a[..]))
    {
      ghost var before := a[..];
      a[0], a[end] := a[end], a[0];
      ghost var swapped := a[..];
      ExtractSwap(before, swapped, end);
      Sink(a, 0, end - 1);
      ExtractStep(before, swapped, a[..], end);
      end := end - 1;
    }
    HeapThenSortedDone(a[..]);
  }

  /**
   * `inplace_heapsort(array)`: sorts the caller's array in place.  Arrays of
   * length at most 1 are left as they are; otherwise a max-heap is built
   * (`BuildMaxHeap`) and the maxima are moved to the end (`ExtractMaxima`).
   */
  method InplaceHeapsort(a: array<int>)
    modifies a
    ensures Sorted(a[..]) && multiset(a[..]) == old(multiset(a[..]))
    ensures a.Length <= 1 ==> a[..] == old(a[..])
  {
    if a.Length <= 1 {
      return;
    }
    BuildMaxHeap(a);
    ExtractMaxima(a);
  }
}
