# A verified model of the zv_pizh2322 algorithm labs

This project is a Dafny model of the algorithmic core of a series of course labs. It covers:

- **lab05: open-addressing hash table.** String keys are stored in one array of slots. Each slot is empty, a tombstone or a live key/value pair. Collisions are resolved by linear probing or double hashing. The table rebuilds itself into `2 * capacity + 1` slots when the load factor passes 0.6. It uses three pluggable string hashes: sum of codes, polynomial and djb2.
- **lab07: heaps and heapsorts.** An array-backed min-heap (`SmallHeap`) and max-heap (`LargeHeap`), a task queue built on the min-heap, and three heapsorts, including an in-place one.
- **lab04: comparison sorts.** Bubble, insertion, merge and quick sort, plus a library heap sort.
- **lab09: dynamic programming.** Fibonacci in four variants, 0-1 knapsack, longest common subsequence, Levenshtein distance, coin change and longest increasing subsequence.
- **lab08: greedy algorithms.** Interval scheduling, greedy change-making, brute-force 0-1 knapsack, and the trivial cases of Huffman coding.
- **lab06: trees.** A binary search tree over mutable nodes, and the recursive and iterative tree traversals.
- **lab02: linked list.** A singly linked list with head and tail pointers.
- **lab03: recursion.** Recursive factorial and Fibonacci.

Each Python file keeps its own form in the model:

- Objects whose fields are updated in place are Dafny classes whose methods carry `modifies` clauses: the hash table, the heaps, the task queue, the linked list and the BST.
- Loops that fill tables or swap array elements are methods with loop invariants.
- Every such method is proved against a specification function, such as a recurrence, a probe walk or a tree value. The source's promises are then proved as lemmas about that function: optimality of the DP recurrences, heap order, sortedness and permutation, `get` after `insert`, and BST order.

Integers are unbounded, as in Python. Where the source truncates (djb2's `& 0xFFFFFFFFFFFFFFFF`), the model says so explicitly. Python's `float('inf')` sentinels become `Option` values (`None` is infinity) or an explicit `-1`.

When `_find_slot` finds no usable slot, `insert` silently does nothing (`hash_table_open_addressing.py:71-72`); the model reproduces this no-op. `OpenAddressing.DoubleHashingCanMissFreeSlots` shows one input where this silent no-op happens while six of nine slots are free.

## Model

| member | source | states |
|---|---|---|
| `HashFunctions.MakeHashFunction` | lab05/src/modules/hash_functions.py:4-6 | the wrapper keeps `fn`; its name is the given name, or the function's own name when none is given |
| `HashFunctions.Call` | lab05/src/modules/hash_functions.py:8-9 | calling the wrapper returns exactly `fn(key)` |
| `HashFunctions.SumHash` | lab05/src/modules/hash_functions.py:12-16 | the accumulator loop returns the sum of the code points of the key |
| `HashFunctions.SumOfCodesAppend` | lab05/src/modules/hash_functions.py:12-16 | `sum_hash` is additive over concatenation |
| `HashFunctions.DefaultHashIsSumHash` | lab05/src/modules/hash_table_open_addressing.py:22 | the table's default `sum(ord(c) for c in k)` computes the same value as `sum_hash` |
| `HashFunctions.DefaultHashFunction` | lab05/src/modules/hash_table_open_addressing.py:22 | the default hash is named `"sum_hash"` and returns the sum of codes on every key |
| `HashFunctions.PolyHash` | lab05/src/modules/hash_functions.py:19-23 | the loop computes the Horner evaluation of the codes in base `base` (default 257) |
| `HashFunctions.HornerAppend` | lab05/src/modules/hash_functions.py:19-23 | the polynomial hash of `a + b` is `hash(a) * base^len(b) + hash(b)` |
| `HashFunctions.HornerNonnegative` | lab05/src/modules/hash_functions.py:19-23 | with a nonnegative base the polynomial hash is nonnegative, as `% capacity` needs |
| `HashFunctions.Djb2Step` | lab05/src/modules/hash_functions.py:29 | `(h << 5) + h` equals `33 * h` |
| `HashFunctions.Djb2Hash` | lab05/src/modules/hash_functions.py:26-30 | the result is below 2^64, equals the unbounded djb2 accumulator modulo 2^64, and is 5381 on the empty key |
| `OpenAddressing.EmptySlots` | lab05/src/modules/hash_table_open_addressing.py:17-18 | a new slot list of the given length holds only empty slots |
| `OpenAddressing.DoubleStep` | lab05/src/modules/hash_table_open_addressing.py:51 | the double-hashing step lies in `[1, capacity - 1]` |
| `OpenAddressing.Probe` | lab05/src/modules/hash_table_open_addressing.py:45-54 | every probe index lies in `[0, capacity)` |
| `OpenAddressing.UnknownProbingIsLinear` | lab05/src/modules/hash_table_open_addressing.py:53-54 | a method name other than `linear` and `double` probes exactly like `linear` |
| `OpenAddressing.LinearProbeAt` | lab05/src/modules/hash_table_open_addressing.py:49 | linear attempt `i` looks at `h1 + i`, wrapped once past the end |
| `OpenAddressing.LinearProbeReaches` | lab05/src/modules/hash_table_open_addressing.py:49 | linear attempts `0 .. capacity-1` reach every slot |
| `OpenAddressing.LinearProbeInjective` | lab05/src/modules/hash_table_open_addressing.py:49 | linear attempts `0 .. capacity-1` visit no slot twice |
| `OpenAddressing.FirstUsable` | lab05/src/modules/hash_table_open_addressing.py:58-63 | the first attempt whose slot is empty, a tombstone or holds the key, with every earlier attempt unusable; -1 when no attempt is usable |
| `OpenAddressing.FindSlot` | lab05/src/modules/hash_table_open_addressing.py:56-63 | `_find_slot` returns -1 or a slot index that is usable for the key |
| `OpenAddressing.MatchStep` | lab05/src/modules/hash_table_open_addressing.py:83-92 | the lookup walk stops at a live slot holding the key, having skipped only tombstones and other keys; -1 means an empty slot or `capacity` attempts came first |
| `OpenAddressing.MatchIndex` | lab05/src/modules/hash_table_open_addressing.py:96-108 | the slot `delete` finds is -1 or a live slot holding the key |
| `OpenAddressing.Reinsert` | lab05/src/modules/hash_table_open_addressing.py:36-43 | re-inserting the first `n` old slots into fresh slots gives a table of the new capacity |
| `OpenAddressing.LiveCountBound` | lab05/src/modules/hash_table_open_addressing.py:19 | the number of live slots never exceeds the capacity |
| `OpenAddressing.LiveCountUpdate` | lab05/src/modules/hash_table_open_addressing.py:74-79 | overwriting one slot changes the live count by that slot's change alone |
| `OpenAddressing.NotFullHasFreeSlot` | lab05/src/modules/hash_table_open_addressing.py:58-63 | a table with fewer live slots than slots has an empty slot or a tombstone |
| `OpenAddressing.EmptySlotsCount` | lab05/src/modules/hash_table_open_addressing.py:17-19 | a fresh slot list has no live slot, matching `_size = 0` |
| `OpenAddressing.PlaceOutcomes` | lab05/src/modules/hash_table_open_addressing.py:70-79 | `insert` past the guard has three outcomes: no change without a slot; a free slot takes the pair and the live count grows by one; a slot holding the key has only its value replaced. Every other slot stays as it was |
| `OpenAddressing.LinearFindsFreeSlot` | lab05/src/modules/hash_table_open_addressing.py:49-63 | with linear probing a table that is not full always yields a slot |
| `OpenAddressing.LinearInsertStores` | lab05/src/modules/hash_table_open_addressing.py:67-79 | past the guard (`size <= 0.6 * capacity`) a linear insert always stores the pair, and `get` then returns its value |
| `OpenAddressing.MatchAfterPlaceFrom` | lab05/src/modules/hash_table_open_addressing.py:56-92 | after a store, the lookup walk stops at the attempt where `_find_slot` stopped, because every earlier attempt saw a different live key |
| `OpenAddressing.GetAfterPlace` | lab05/src/modules/hash_table_open_addressing.py:70-92 | `get` finds what `insert` just placed whenever a slot was found |
| `OpenAddressing.ReinsertShape` | lab05/src/modules/hash_table_open_addressing.py:36-43 | a rebuild contains no tombstones and no more live slots than the old table |
| `OpenAddressing.LiveCountAppend` | lab05/src/modules/hash_table_open_addressing.py:41-43 | the live count of `s + [x]` adds `x`'s share |
| `OpenAddressing.RebuildShape` | lab05/src/modules/hash_table_open_addressing.py:31-68 | a resize to `2c + 1` drops tombstones, keeps at most the old live count, and leaves the load factor at most 0.6, so its own inserts never resize again |
| `OpenAddressing.MatchSurvivesWrite` | lab05/src/modules/hash_table_open_addressing.py:74-92 | storing another key into a slot not holding `key` leaves the lookup of `key` where it was |
| `OpenAddressing.PlaceKeepsMatch` | lab05/src/modules/hash_table_open_addressing.py:41-43 | in a table without tombstones, one re-insertion keeps every findable key findable |
| `OpenAddressing.ReinsertKeepsKeys` | lab05/src/modules/hash_table_open_addressing.py:41-43 | with linear probing, every live key among the re-inserted old slots can be found in the larger table |
| `OpenAddressing.RebuildKeepsKeys` | lab05/src/modules/hash_table_open_addressing.py:31-43 | with linear probing, every key live before `_resize` is found after it |
| `OpenAddressing.PlaceKeepsLookup` | lab05/src/modules/hash_table_open_addressing.py:70-79 | storing a pair for another key leaves `get` of a findable key returning the same value |
| `OpenAddressing.ReinsertKeepsValues` | lab05/src/modules/hash_table_open_addressing.py:41-43 | with linear probing, a key live once among the re-inserted old slots is found with its old value |
| `OpenAddressing.RebuildKeepsValues` | lab05/src/modules/hash_table_open_addressing.py:31-43 | with linear probing, a key live once before `_resize` has the same value after it |
| `OpenAddressing.FreshTableFindsNothing` | lab05/src/modules/hash_table_open_addressing.py:81-108 | on a fresh table `get` returns None and `delete` finds nothing |
| `OpenAddressing.DeleteCount` | lab05/src/modules/hash_table_open_addressing.py:103-106 | turning the matched slot into a tombstone lowers the live count by one |
| `OpenAddressing.CrowdedNineWalk` | lab05/src/modules/hash_table_open_addressing.py:50-63 | in 9 slots with slots 2, 5 and 8 taken, a double-hash walk from slot 2 finds nothing |
| `OpenAddressing.DoubleHashingCanMissFreeSlots` | lab05/src/modules/hash_table_open_addressing.py:50-72 | with a non-prime capacity, double hashing can return -1 at load factor 1/3, and `insert` then silently stores nothing |
| `OpenAddressing.Table.constructor` | lab05/src/modules/hash_table_open_addressing.py:15-22 | a new table has `initial_capacity` empty slots, size 0, the given method, and the given hash or the sum-of-codes default |
| `OpenAddressing.Table.Size` | lab05/src/modules/hash_table_open_addressing.py:24-26 | `size` equals the number of live slots |
| `OpenAddressing.Table.Capacity` | lab05/src/modules/hash_table_open_addressing.py:28-29 | `capacity()` is the number of slots, at least 2 |
| `OpenAddressing.Table.ProbeKey` | lab05/src/modules/hash_table_open_addressing.py:45-54 | the probe for a key on the current capacity is a valid index |
| `OpenAddressing.Table.FindSlotOf` | lab05/src/modules/hash_table_open_addressing.py:56-63 | the probe loop returns exactly `FindSlot` of the current slots |
| `OpenAddressing.Table.Store` | lab05/src/modules/hash_table_open_addressing.py:70-79 | the slots become `Place(...)`, and `_size` grows by one exactly when a free slot was taken |
| `OpenAddressing.Table.Resize` | lab05/src/modules/hash_table_open_addressing.py:31-43 | the table gets fresh slots of the new capacity holding the rebuild of the old ones, and `size` stays the live count |
| `OpenAddressing.Table.Insert` | lab05/src/modules/hash_table_open_addressing.py:65-79 | when `size / capacity > 0.6` on entry, the table first becomes the rebuild into `2c + 1` slots; then the pair is placed, or nothing happens when no slot is found |
| `OpenAddressing.Table.Get` | lab05/src/modules/hash_table_open_addressing.py:81-92 | returns the value of the lookup walk, or None, and changes nothing |
| `OpenAddressing.Table.Delete` | lab05/src/modules/hash_table_open_addressing.py:94-108 | at the first slot of the walk holding the key: a tombstone, `size - 1`, True; otherwise no change and False |
| `Heap.ParentIndex` | lab07/src/modules/heap.py:19-22 | -1 exactly for the root; otherwise a smaller index whose left or right child is `i` |
| `Heap.LeftIndex` | lab07/src/modules/heap.py:24-26 | -1 exactly when `2i + 1` is out of range; otherwise an index whose parent is `i` |
| `Heap.RightIndex` | lab07/src/modules/heap.py:28-30 | -1 exactly when `2i + 2` is out of range; otherwise an index whose parent is `i` |
| `Heap.MinHeapRoot` | lab07/src/modules/heap.py:1-3 | the root of a min-heap is no larger than any element |
| `Heap.MinHeapMoveLastToRoot` | lab07/src/modules/heap.py:69-70 | moving the last element to the root leaves a fault only at the root, and removes exactly the old root |
| `Heap.MinHeapRootExtreme` | lab07/src/modules/heap.py:74-76 | the root of a non-empty min-heap is a minimum of its elements |
| `Heap.MinSinkStep` | lab07/src/modules/heap.py:45-52 | one swap with the smaller child moves the only fault one level down |
| `Heap.MinSinkDone` | lab07/src/modules/heap.py:50-54 | when no child is smaller, heap order holds from the start of the repair |
| `Heap.MinBubbleStep` | lab07/src/modules/heap.py:34-37 | one swap with a larger parent moves the only fault one level up |
| `Heap.MinBubbleDone` | lab07/src/modules/heap.py:34 | when the parent is no larger or the root is reached, the list is a min-heap |
| `Heap.MaxHeapRoot` | lab07/src/modules/heap.py:185 | the root of a max-heap is no smaller than any element |
| `Heap.MaxHeapMoveLastToRoot` | lab07/src/modules/heap.py:185-186 | moving the last element to the root leaves a fault only at the root, and removes exactly the old root |
| `Heap.MaxHeapRootExtreme` | lab07/src/modules/heap.py:190-192 | the root of a non-empty max-heap is a maximum of its elements |
| `Heap.MaxSinkStep` | lab07/src/modules/heap.py:161-168 | one swap with the larger child moves the only fault one level down |
| `Heap.MaxSinkDone` | lab07/src/modules/heap.py:166-170 | when no child is larger, max-heap order holds from the start of the repair |
| `Heap.MaxBubbleStep` | lab07/src/modules/heap.py:150-153 | one swap with a smaller parent moves the only fault one level up |
| `Heap.MaxBubbleDone` | lab07/src/modules/heap.py:150 | when the parent is no smaller or the root is reached, the list is a max-heap |
| `Heap.SmallHeap.constructor` | lab07/src/modules/heap.py:8-11 | a new heap is empty, or holds a heap-ordered permutation of the given array |
| `Heap.SmallHeap.Length` | lab07/src/modules/heap.py:13-14 | `len` is the number of elements held |
| `Heap.SmallHeap.BubbleUp` | lab07/src/modules/heap.py:32-37 | repairs a fault between `index` and its parent into a min-heap with the same elements |
| `Heap.SmallHeap.SinkDown` | lab07/src/modules/heap.py:39-54 | repairs a fault between `index` and its children with the same elements, leaving everything before the repair's start in place |
| `Heap.SmallHeap.Push` | lab07/src/modules/heap.py:56-59 | the heap gains exactly the value and stays a min-heap |
| `Heap.SmallHeap.Pop` | lab07/src/modules/heap.py:61-72 | None with no change on an empty heap; otherwise the old root, which is a minimum, with exactly one occurrence removed and heap order kept |
| `Heap.SmallHeap.Top` | lab07/src/modules/heap.py:74-76 | None exactly when empty; otherwise an element no larger than any other |
| `Heap.SmallHeap.Heapify` | lab07/src/modules/heap.py:78-82 | the heap becomes a heap-ordered permutation of a copy of the array |
| `Heap.SmallHeap.ValidateHeap` | lab07/src/modules/heap.py:84-93 | True exactly when no parent is larger than an existing child |
| `Heap.LargeHeap.constructor` | lab07/src/modules/heap.py:124-127 | a new max-heap is empty, or holds a heap-ordered permutation of the given array |
| `Heap.LargeHeap.Length` | lab07/src/modules/heap.py:129-130 | `len` is the number of elements held |
| `Heap.LargeHeap.BubbleUp` | lab07/src/modules/heap.py:148-153 | repairs a fault between `index` and its parent into a max-heap with the same elements |
| `Heap.LargeHeap.SinkDown` | lab07/src/modules/heap.py:155-170 | repairs a fault between `index` and its children with the same elements |
| `Heap.LargeHeap.Push` | lab07/src/modules/heap.py:172-175 | the heap gains exactly the value and stays a max-heap |
| `Heap.LargeHeap.Pop` | lab07/src/modules/heap.py:177-188 | None with no change when empty; otherwise the old root, which is a maximum, with exactly one occurrence removed |
| `Heap.LargeHeap.Top` | lab07/src/modules/heap.py:190-192 | None exactly when empty; otherwise an element no smaller than any other |
| `Heap.LargeHeap.Heapify` | lab07/src/modules/heap.py:194-198 | the heap becomes a max-heap-ordered permutation of a copy of the array |
| `Heap.LargeHeap.ValidateHeap` | lab07/src/modules/heap.py:200-209 | True exactly when no parent is smaller than an existing child |
| `PriorityQueue.FindValue` | lab07/src/modules/priority_queue.py:63-64 | the first position whose item has the value, or -1 when no item has it |
| `PriorityQueue.DecreasedKeyBubbles` | lab07/src/modules/priority_queue.py:68-69 | lowering an item's priority leaves a fault only above it, which `_bubble_up` repairs |
| `PriorityQueue.IncreasedKeySinks` | lab07/src/modules/priority_queue.py:70-71 | raising an item's priority leaves a fault only below it, which `_sink_down` repairs |
| `PriorityQueue.TaskQueue.constructor` | lab07/src/modules/priority_queue.py:31-32 | a new queue is empty |
| `PriorityQueue.TaskQueue.Length` | lab07/src/modules/priority_queue.py:34-35 | `len` is the number of queued items |
| `PriorityQueue.TaskQueue.Empty` | lab07/src/modules/priority_queue.py:55-56 | `empty()` holds exactly when no item is queued |
| `PriorityQueue.TaskQueue.PushWithPriority` | lab07/src/modules/priority_queue.py:40-43 | the queue gains exactly the item `(priority, value)`, priority 0 by default |
| `PriorityQueue.TaskQueue.PopPriority` | lab07/src/modules/priority_queue.py:45-48 | None when empty; otherwise the root's value, an item of least priority, which is removed; always exactly what `peek_priority` returned just before |
| `PriorityQueue.TaskQueue.PeekPriority` | lab07/src/modules/priority_queue.py:50-53 | the root's value, an item of least priority, or None when empty; nothing changes |
| `PriorityQueue.TaskQueue.UpdatePriority` | lab07/src/modules/priority_queue.py:58-74 | False with the heap list unchanged, order included, when no item has the value; otherwise True, and only the first matching item's priority changes, with heap order restored |
| `HeapSort.HeapsortUsingSmallHeap` | lab07/src/modules/heapsort.py:3-13 | returns an ascending permutation of the input |
| `HeapSort.HeapsortUsingLargeHeap` | lab07/src/modules/heapsort.py:16-26 | filling positions from the end with successive maxima gives an ascending permutation |
| `HeapSort.DrainMaxStep` | lab07/src/modules/heapsort.py:24-25 | writing the popped maximum at the next position from the end keeps the tail sorted and above the heap |
| `HeapSort.Sink` | lab07/src/modules/heapsort.py:37-53 | `_sink` restores max-heap order from `start` when only `start` is out of place, permutes only `[start, end]`, and leaves all else unchanged |
| `HeapSort.BuildMaxHeap` | lab07/src/modules/heapsort.py:59-61 | after the build loop the array is a max-heap with the same elements |
| `HeapSort.ExtractStep` | lab07/src/modules/heapsort.py:64-66 | after extraction step `i`, `array[i..]` holds the largest elements in ascending order above a max-heap |
| `HeapSort.ExtractMaxima` | lab07/src/modules/heapsort.py:63-66 | the extraction loop turns a max-heap into an ascending permutation |
| `HeapSort.InplaceHeapsort` | lab07/src/modules/heapsort.py:29-71 | sorts the array in place into an ascending permutation, and leaves arrays of length at most 1 unchanged |
| `Sorts.Copy` | lab04/src/modules/sorts.py:12 | each sort works on a fresh copy, so the caller's list is untouched |
| `Sorts.BubbleCompareStep` | lab04/src/modules/sorts.py:17-19 | one compare-and-swap carries the running maximum right and records whether a swap happened |
| `Sorts.BubblePassDone` | lab04/src/modules/sorts.py:16-21 | after a pass the last position of the pass is final, and a pass without a swap leaves the list sorted |
| `Sorts.BubbleSort` | lab04/src/modules/sorts.py:4-22 | returns a sorted permutation of the input |
| `Sorts.BubblePass` | lab04/src/modules/sorts.py:15-21 | one pass moves the largest of the first `m` elements to position `m - 1` and permutes the array; a pass with no swap leaves it sorted |
| `Sorts.ShiftDone` | lab04/src/modules/sorts.py:36-39 | placing the key after the shifts leaves the prefix `a[0..i]` sorted and a permutation |
| `Sorts.InsertionSort` | lab04/src/modules/sorts.py:24-40 | returns a sorted permutation of the input |
| `Sorts.Insert` | lab04/src/modules/sorts.py:34-39 | shifting the larger elements right and dropping the key in extends the sorted prefix by one element, as a permutation |
| `Sorts.Merge` | lab04/src/modules/sorts.py:54-61 | the merge has `len(left) + len(right)` elements |
| `Sorts.MergePermutes` | lab04/src/modules/sorts.py:54-61 | the merge holds exactly the elements of the two runs, with their multiplicities |
| `Sorts.MergeSorted` | lab04/src/modules/sorts.py:56-61 | merging two sorted runs gives a sorted run |
| `Sorts.MergeStable` | lab04/src/modules/sorts.py:57 | the merge is stable: elements of equal key keep left-before-right order |
| `Sorts.MergeRuns` | lab04/src/modules/sorts.py:54-61 | the merge loop computes `Merge` |
| `Sorts.MergeSort` | lab04/src/modules/sorts.py:42-62 | returns a sorted permutation in which the elements of each key keep their input order |
| `Sorts.ScanRight` | lab04/src/modules/sorts.py:79-80 | the left scan stops at the first element not below the pivot |
| `Sorts.ScanLeft` | lab04/src/modules/sorts.py:81-82 | the right scan stops at the first element not above the pivot |
| `Sorts.Partition` | lab04/src/modules/sorts.py:76-85 | the partition keeps `i` and `j` within `[lo - 1, hi + 1]`, puts elements at most the pivot left of `i` and at least the pivot right of `j`, and permutes only `[lo, hi]` |
| `Sorts.PartitionRound` | lab04/src/modules/sorts.py:78-85 | one round of the two scans and the swap keeps the partition invariant and brings `i` and `j` closer |
| `Sorts.QuickCombine` | lab04/src/modules/sorts.py:86-89 | sorting both parts after the partition sorts the whole range |
| `Sorts.Quick` | lab04/src/modules/sorts.py:73-89 | `_quick(a, lo, hi)` sorts `a[lo..hi]` in place and leaves the rest alone |
| `Sorts.QuickSort` | lab04/src/modules/sorts.py:64-91 | returns a sorted permutation of the input |
| `Sorts.HeapSort` | lab04/src/modules/sorts.py:93-101 | returns a sorted permutation of the input |
| `Sorts.SortedById` | lab04/src/modules/sorts.py:42-62 | sorting integers by their own value is sorting them |
| `Sorts.AllSortsAgree` | lab04/src/modules/sorts.py:4-101 | all five sorts return the same list on every input |
| `Recursion.Fact` | lab03/src/modules/recursion.py:4-6 | the factorial is at least 1 and at least `n` |
| `Recursion.Factorial` | lab03/src/modules/recursion.py:1-6 | raises ValueError exactly for `n < 0`; otherwise returns at least 1 |
| `Recursion.FactorialSteps` | lab03/src/modules/recursion.py:4-6 | `0! = 1! = 1` and `n! = n * (n-1)!` from 2 on |
| `Recursion.FibonacciNaive` | lab03/src/modules/recursion.py:11-13 | raises ValueError exactly for `n < 0` |
| `Recursion.FibonacciNaiveSteps` | lab03/src/modules/recursion.py:14-18 | `F(0) = 0`, `F(1) = 1`, and `F(n) = F(n-1) + F(n-2)` from 2 on |
| `Recursion.FibMonotone` | lab03/src/modules/recursion.py:11-18 | the Fibonacci numbers never decrease, and strictly grow from index 2 on |
| `LinkedLists.Node.constructor` | lab02/src/modules/linked_list.py:3-5 | a new node holds its data and no successor |
| `LinkedLists.LinkedList.constructor` | lab02/src/modules/linked_list.py:9-11 | a new list is empty, with no head and no tail |
| `LinkedLists.LinkedList.InsertAtStart` | lab02/src/modules/linked_list.py:13-20 | the traversal becomes `[x] + old`; head and tail are absent together |
| `LinkedLists.LinkedList.InsertAtEnd` | lab02/src/modules/linked_list.py:23-30 | the traversal becomes `old + [x]`; head and tail are absent together |
| `LinkedLists.LinkedList.DeleteFromStart` | lab02/src/modules/linked_list.py:33-40 | None with no change on an empty list; otherwise the first element, dropped from the traversal, and the tail is cleared when the list empties |
| `LinkedLists.LinkedList.Traversal` | lab02/src/modules/linked_list.py:43-49 | the pointer walk returns the elements in link order |
| `LinkedLists.LinkedList.IsEmpty` | lab02/src/modules/linked_list.py:52-53 | holds exactly when there is no head, which is when there are no elements |
| `LinkedLists.InsertThenDelete` | lab02/src/modules/linked_list.py:13-40 | inserting at the start and then deleting from the start returns the inserted data and restores the list |
| `Trees.SizeIsCount` | lab06/src/modules/tree_traversal.py:1-86 | a tree's node count equals the number of values it holds, repetitions included |
| `Trees.InorderRec` | lab06/src/modules/tree_traversal.py:1-14 | the accumulator receives exactly the left-node-right listing |
| `Trees.PreorderRec` | lab06/src/modules/tree_traversal.py:16-29 | the accumulator receives exactly the node-left-right listing |
| `Trees.PostorderRec` | lab06/src/modules/tree_traversal.py:31-44 | the accumulator receives exactly the left-right-node listing |
| `Trees.RootPlacement` | lab06/src/modules/tree_traversal.py:6-44 | every traversal of an empty tree is `[]`; pre-order puts the root first and post-order puts it last |
| `Trees.TraversalsKeepElems` | lab06/src/modules/tree_traversal.py:1-44 | each recursive traversal lists the tree's values with their multiplicities |
| `Trees.InorderValues` | lab06/src/modules/tree_traversal.py:1-14 | every value listed in order belongs to the tree |
| `Trees.InorderOfBstAscending` | lab06/src/modules/tree_traversal.py:1-14 | the in-order traversal of a BST is strictly ascending |
| `Trees.PushStep` | lab06/src/modules/tree_traversal.py:56-58 | pushing a node and going left leaves the same values still to be listed |
| `Trees.PopStep` | lab06/src/modules/tree_traversal.py:60-62 | popping the top node lists its value next, then its right subtree |
| `Trees.PushLeft` | lab06/src/modules/tree_traversal.py:56-58 | after pushing the left spine the stack owes exactly what the current node and the old stack owed, and it is non-empty unless nothing was left |
| `Trees.InorderIter` | lab06/src/modules/tree_traversal.py:46-64 | the stack loop returns the same list as `inorder_rec` |
| `Trees.Children` | lab06/src/modules/tree_traversal.py:81-84 | only present children are queued, left before right |
| `Trees.ChildrenQueue` | lab06/src/modules/tree_traversal.py:81-84 | a node's queued children hold its values apart from its own |
| `Trees.LevelStep` | lab06/src/modules/tree_traversal.py:77-84 | one dequeue-and-enqueue step moves exactly the node's value from the queue to the result |
| `Trees.BfsStep` | lab06/src/modules/tree_traversal.py:77-84 | serving the front node moves its value from the breadth-first remainder of the queue to the end of the listed prefix |
| `Trees.EnqueueChildren` | lab06/src/modules/tree_traversal.py:81-84 | appends the present children, left first |
| `Trees.LevelOrder` | lab06/src/modules/tree_traversal.py:66-86 | the breadth-first order `Bfs([root])`, front of the queue first and children left before right; every node exactly once (the tree's values, as many as its nodes), root first; `[]` for an empty tree |
| `BinarySearchTree.TreeFind` | lab06/src/modules/binary_search_tree.py:57-67 | the subtree found has the target at its root, or there is none |
| `BinarySearchTree.InsertValues` | lab06/src/modules/binary_search_tree.py:33-48 | adding puts the value in the tree and takes nothing out |
| `BinarySearchTree.InsertKeepsBst` | lab06/src/modules/binary_search_tree.py:33-48 | adding keeps BST order |
| `BinarySearchTree.InsertPresent` | lab06/src/modules/binary_search_tree.py:38-48 | adding a value already present leaves the tree unchanged |
| `BinarySearchTree.FindIffPresent` | lab06/src/modules/binary_search_tree.py:57-67 | in a BST, `find` succeeds exactly for the values the tree holds |
| `BinarySearchTree.RemoveFromBst` | lab06/src/modules/binary_search_tree.py:83-99 | removing from a BST takes out exactly the value and keeps BST order |
| `BinarySearchTree.BNode.constructor` | lab06/src/modules/binary_search_tree.py:4-11 | a new node holds the value and has no children |
| `BinarySearchTree.BinTree.constructor` | lab06/src/modules/binary_search_tree.py:19-21 | a new tree is empty |
| `BinarySearchTree.BinTree.Add` | lab06/src/modules/binary_search_tree.py:23-31 | the tree becomes the insertion of the value; on an empty tree a new node becomes the root |
| `BinarySearchTree.BinTree.AddRec` | lab06/src/modules/binary_search_tree.py:33-48 | the subtree below the node becomes the insertion of the value |
| `BinarySearchTree.BinTree.Find` | lab06/src/modules/binary_search_tree.py:50-55 | None exactly when the search finds nothing; otherwise a node holding the value |
| `BinarySearchTree.BinTree.FindRec` | lab06/src/modules/binary_search_tree.py:57-67 | the recursive search returns the node at the root of the subtree found, or None |
| `BinarySearchTree.BinTree.Remove` | lab06/src/modules/binary_search_tree.py:69-81 | True exactly when the value is found, and then the tree is the removal; otherwise False and no change |
| `BinarySearchTree.BinTree.RemoveRec` | lab06/src/modules/binary_search_tree.py:83-99 | the returned subtree is the removal from the node's subtree; a node without a left child is replaced by its right subtree and vice versa |
| `BinarySearchTree.BstRoundTrip` | lab06/src/modules/binary_search_tree.py:23-99 | after adding a value to a BST it is found; removing a present value keeps a BST in which it is no longer found |
| `FibSeries.FibN` | lab09/src/modules/dynamic_programming.py:8-15 | a negative or zero argument comes back unchanged; from 1 on the numbers are positive |
| `FibSeries.FibNIsFib` | lab09/src/modules/dynamic_programming.py:8-15 | `naive_recursive` returns `n` for `n <= 1`, negatives included, follows `F(n) = F(n-1) + F(n-2)`, and equals lab03's `fibonacci_naive` from 0 on |
| `FibSeries.MemoizedWith` | lab09/src/modules/dynamic_programming.py:18-30 | returns `F(n)` and extends the memo dictionary with correct entries only |
| `FibSeries.Memoized` | lab09/src/modules/dynamic_programming.py:18-30 | starting from an empty or a correct memo, returns the same value as `naive_recursive` |
| `FibSeries.BottomUp` | lab09/src/modules/dynamic_programming.py:33-44 | the table loop returns the same value as `naive_recursive` |
| `FibSeries.BottomUpOptimized` | lab09/src/modules/dynamic_programming.py:47-57 | the two-variable loop returns the same value as `naive_recursive` |
| `Knapsack.BestNonnegative` | lab09/src/modules/dynamic_programming.py:69-78 | every table entry is at least 0 |
| `Knapsack.BestIsOptimal` | lab09/src/modules/dynamic_programming.py:70-78 | no set of the first `i` items that fits in `w` is worth more than `dp[i][w]` |
| `Knapsack.Table` | lab09/src/modules/dynamic_programming.py:68-78 | the nested loops fill the `(n+1) x (capacity+1)` table with the recurrence |
| `Knapsack.Compute` | lab09/src/modules/dynamic_programming.py:63-79 | returns the optimum `dp[n][capacity]` |
| `Knapsack.ComputeWithItems` | lab09/src/modules/dynamic_programming.py:82-109 | returns the optimum and strictly increasing item indices whose weight fits and whose value is the optimum |
| `Knapsack.ComputeOptimized` | lab09/src/modules/dynamic_programming.py:112-122 | the one-row loop returns the same optimum as `compute` |
| `Knapsack.ComputeOptimizedWithItems` | lab09/src/modules/dynamic_programming.py:125-152 | the same optimum and a fitting item set worth it |
| `LongestCommonSubsequence.LcsIsUpperBound` | lab09/src/modules/dynamic_programming.py:163-170 | no common subsequence of the prefixes is longer than `dp[i][j]` |
| `LongestCommonSubsequence.LcsSymmetric` | lab09/src/modules/dynamic_programming.py:163-170 | the length does not depend on which text indexes the rows |
| `LongestCommonSubsequence.LcsAtMostPrefixes` | lab09/src/modules/dynamic_programming.py:163-170 | `dp[i][j]` is at most `i` and at most `j` |
| `LongestCommonSubsequence.GetMatrix` | lab09/src/modules/dynamic_programming.py:201-213 | the table has size `(m+1) x (n+1)` and holds the recurrence |
| `LongestCommonSubsequence.FillRow` | lab09/src/modules/dynamic_programming.py:166-170 | filling row `i` from row `i - 1` gives the recurrence's value in every cell of row `i` and changes no other row |
| `LongestCommonSubsequence.LcsLength` | lab09/src/modules/dynamic_programming.py:158-171 | returns `dp[m][n]` |
| `LongestCommonSubsequence.WalkBack` | lab09/src/modules/dynamic_programming.py:186-197 | the backward walk collects, in reverse, a common subsequence as long as `dp[m][n]` |
| `LongestCommonSubsequence.LcsFind` | lab09/src/modules/dynamic_programming.py:174-198 | returns a common subsequence of both texts whose length equals `lcs_length`, so none is longer |
| `Levenshtein.DistSymmetric` | lab09/src/modules/dynamic_programming.py:226-235 | the distance is symmetric |
| `Levenshtein.DistZeroIffEqual` | lab09/src/modules/dynamic_programming.py:226-235 | the distance is 0 exactly between equal prefixes |
| `Levenshtein.DistAtLeastLengthGap` | lab09/src/modules/dynamic_programming.py:226-235 | the distance is at least the difference of the lengths |
| `Levenshtein.DistAtMostLonger` | lab09/src/modules/dynamic_programming.py:226-235 | the distance is at most the longer length |
| `Levenshtein.GetMatrix` | lab09/src/modules/dynamic_programming.py:261-277 | the table has size `(m+1) x (n+1)`, with `dp[i][0] == i` and `dp[0][j] == j`, and holds the recurrence |
| `Levenshtein.ComputeDistance` | lab09/src/modules/dynamic_programming.py:219-236 | returns `dp[m][n]`; the distance to the empty string is the other string's length |
| `Levenshtein.ComputeDistanceOptimized` | lab09/src/modules/dynamic_programming.py:239-258 | swapping the words and keeping two rows gives the same distance as `compute_distance` |
| `Levenshtein.NextRow` | lab09/src/modules/dynamic_programming.py:250-257 | the new row computed from the previous one holds the distances of the `i`-th prefix |
| `CoinExchange.MinOpt` | lab09/src/modules/dynamic_programming.py:293 | `min` with infinity: finite when either side is, no larger than either, and one of them |
| `CoinExchange.BestIsOptimal` | lab09/src/modules/dynamic_programming.py:288-293 | every way to pay `i` from the coins uses at least `dp[i]` coins, so `dp[i]` is finite |
| `CoinExchange.BestWitness` | lab09/src/modules/dynamic_programming.py:288-293 | a finite `dp[i]` is the size of some way to pay `i` |
| `CoinExchange.WaysPositiveIffPayable` | lab09/src/modules/dynamic_programming.py:283-330 | the amount has a positive number of ways exactly when its minimum coin count is finite |
| `CoinExchange.WaysWitness` | lab09/src/modules/dynamic_programming.py:325-329 | a positive count comes with a way to pay from the first `k` coins |
| `CoinExchange.WaysPositive` | lab09/src/modules/dynamic_programming.py:325-329 | every way to pay is counted, so the count is positive |
| `CoinExchange.WaysOfZero` | lab09/src/modules/dynamic_programming.py:325-326 | there is exactly one way to pay 0 |
| `CoinExchange.MinCoinsCount` | lab09/src/modules/dynamic_programming.py:283-294 | the least number of coins that pays the amount, or -1 when none does |
| `CoinExchange.ChangeTable` | lab09/src/modules/dynamic_programming.py:301-308 | `dp` holds the minimum counts, and each reachable `parent[j]` is a coin that leaves `j - coin` payable with one coin fewer |
| `CoinExchange.ChangeRow` | lab09/src/modules/dynamic_programming.py:305-308 | trying every coin for amount `i` gives the minimum count, with a parent coin one step closer, and changes no other amount |
| `CoinExchange.MinCoinsWithChange` | lab09/src/modules/dynamic_programming.py:297-317 | `(-1, [])` when unreachable; otherwise coins from `coins` that sum to the amount and number exactly `min_coins_count` |
| `CoinExchange.CountWays` | lab09/src/modules/dynamic_programming.py:320-330 | returns the number of coin multisets that pay the amount |
| `IncreasingSubsequence.LongestIsUpperBound` | lab09/src/modules/dynamic_programming.py:336-349 | no strictly increasing subsequence is longer than `max(dp)` |
| `IncreasingSubsequence.EndTable` | lab09/src/modules/dynamic_programming.py:344-348 | the nested loops fill `dp[i]` with the recurrence |
| `IncreasingSubsequence.LisLength` | lab09/src/modules/dynamic_programming.py:336-349 | returns `max(dp)`, which is 0 for an empty list |
| `IncreasingSubsequence.ParentTable` | lab09/src/modules/dynamic_programming.py:359-365 | `dp` as in `lis_length`, with each `parent[i]` an earlier smaller element one shorter, or -1 |
| `IncreasingSubsequence.ParentRow` | lab09/src/modules/dynamic_programming.py:362-365 | scanning the earlier elements gives the longest increasing run ending at `i` and a parent one shorter, and changes no other entry |
| `IncreasingSubsequence.FirstMax` | lab09/src/modules/dynamic_programming.py:366-367 | `max(dp)` and `dp.index(max(dp))`, the first position holding it |
| `IncreasingSubsequence.FollowParents` | lab09/src/modules/dynamic_programming.py:368-373 | following the parents from a position collects, in reverse, a strictly increasing subsequence as long as `dp` there |
| `IncreasingSubsequence.Reconstruct` | lab09/src/modules/dynamic_programming.py:352-374 | returns a strictly increasing subsequence of `arr` as long as `lis_length` (`[]` for an empty list) |
| `IncreasingSubsequence.BisectLeft` | lab09/src/modules/dynamic_programming.py:385 | on a sorted list, the position before which all elements are smaller and from which none is |
| `IncreasingSubsequence.MinEndExists` | lab09/src/modules/dynamic_programming.py:383-389 | an increasing subsequence of a length exists among the first `i` elements exactly up to the longest one |
| `IncreasingSubsequence.EndLenIsPosition` | lab09/src/modules/dynamic_programming.py:384-389 | each element lands at `bisect_left(tails, x)`, one less than the longest increasing subsequence ending at it |
| `IncreasingSubsequence.LengthOptimized` | lab09/src/modules/dynamic_programming.py:377-390 | the `tails` loop returns the same length as `lis_length` |
| `Greedy.TaskName` | lab08/src/modules/greedy_algorithms.py:27 | the generated name is `Task_` followed by the index's digits |
| `Greedy.AsIntervals` | lab08/src/modules/greedy_algorithms.py:26-28 | plain pairs become intervals with the same start and end, named after their position |
| `Greedy.Select` | lab08/src/modules/greedy_algorithms.py:32-38 | the greedy pass picks a compatible subsequence and always takes the first interval that fits |
| `Greedy.SelectOptimal` | lab08/src/modules/greedy_algorithms.py:30-38 | on an end-sorted list no compatible subsequence is longer than the greedy pick |
| `Greedy.ChainInSorted` | lab08/src/modules/greedy_algorithms.py:30 | a compatible chain of positive-length intervals is a subsequence of the end-sorted list |
| `Greedy.FirstFit` | lab08/src/modules/greedy_algorithms.py:31-38 | the pass over the sorted intervals keeps exactly the first-fit selection `Select`, which is compatible and no shorter than any chain of positive-length intervals |
| `Greedy.ScheduleIntervals` | lab08/src/modules/greedy_algorithms.py:17-40 | the first-fit selection over the stable sort by end, so on tied ends the earlier input interval is tried first; `[]` for no intervals; otherwise intervals from the input in end order, each starting no earlier than the previous ends, starting with an interval of least end, and at least as many as any compatible set of positive-length intervals |
| `Greedy.SchedulePairs` | lab08/src/modules/greedy_algorithms.py:17-40 | the same for plain `(start, end)` pairs |
| `Greedy.PaidAdd` | lab08/src/modules/greedy_algorithms.py:133-134 | recording `count` coins of a new denomination adds `coin * count` to the amount paid |
| `Greedy.Quotient` | lab08/src/modules/greedy_algorithms.py:131-134 | `rem // coin` is positive exactly when `rem >= coin`, and leaves `rem % coin` |
| `Greedy.MakeChange` | lab08/src/modules/greedy_algorithms.py:119-139 | `{}` for an amount of at most 0; on success, only positive counts of listed coins, paying exactly the amount; ValueError only for a positive amount without a coin of 1 |
| `Greedy.Selection` | lab08/src/modules/greedy_algorithms.py:196-201 | the items picked by a mask form a subsequence of the items |
| `Greedy.EverySubsetHasMask` | lab08/src/modules/greedy_algorithms.py:193 | every subsequence of the items is picked by some mask below `1 << n` |
| `Greedy.BruteForcePack` | lab08/src/modules/greedy_algorithms.py:184-206 | the best selection fits, its value is the returned value, and no fitting subset is worth more; `(0, [])` when nothing is worth taking |
| `Greedy.Zeros` | lab08/src/modules/greedy_algorithms.py:89 | `'0' * n` is `n` zeros |
| `Greedy.HuffmanEncode` | lab08/src/modules/greedy_algorithms.py:75-89 | for a text with at most one distinct symbol: the code table has exactly the text's symbols, the encoding has one bit per character, and there is a root exactly when the text is non-empty |
| `Greedy.HuffmanSingleSymbol` | lab08/src/modules/greedy_algorithms.py:81-89 | `({}, "", None)` for the empty text; for one distinct symbol, the code table `{symbol: '0'}`, the encoding `'0' * len(text)` (also the join of the codes), and a leaf with the symbol's count |
| `Greedy.SingleEncoding` | lab08/src/modules/greedy_algorithms.py:89 | encoding a one-symbol text with the code `'0'` gives `len(text)` zeros |
| `Greedy.SingleCount` | lab08/src/modules/greedy_algorithms.py:84-89 | the symbol of a one-symbol text occurs `len(text)` times |

## Left out

- Console output, timing and plotting are not modelled. This covers the driver scripts, the analysis module, the test files, `render` of both heaps and `pretty_print_table`.
- `pow_fast` is not modelled: it computes with floating point.
- `fractional_pack` is not modelled: it computes with floating point. `compare_pack_methods` is not modelled: it only prints.
- `prim_mst` is not modelled: it runs on the library priority queue over an adjacency dictionary.
- Huffman tree construction for two or more distinct symbols is not modelled. It depends on library heap order with `id()` tie-breaking. `Greedy.HuffmanEncode` and `Greedy.HuffmanSingleSymbol` require a text with at most one distinct symbol.
- Library code is not modelled; each use gets only its contract:
  - `heapq` inside `sorts.heap_sort` (`Sorts.HeapSort` promises a sorted permutation and pops a `SmallHeap` empty instead);
  - `sorted` in the greedy algorithms (the model's stable merge sort by key stands in for Python's stable sort);
  - `bisect_left` (`IncreasingSubsequence.BisectLeft`, a binary search that requires a sorted list, which `tails` always is).
- Removal of a node with two children is not modelled: the code after line 100 of `binary_search_tree.py` is not part of this model. The same holds for `validate_bst`, `get_min`, `get_max`, `compute_height` and `size`.
  - BinarySearchTree.BinTree.Remove requires `Removable`: the value's node, when present, has at most one child.
  - BinarySearchTree.BinTree.RemoveRec requires `Removable` for the same reason.
  - BinarySearchTree.TreeRemove and BinarySearchTree.RemoveFromBst require `Removable` for the same reason.
- OpenAddressing.Table.constructor requires an initial capacity of at least 2.
  - With capacity 1, double hashing divides by zero, and with capacity 0 every probe does.
  - The source's linear probing would also work on one slot.
  - No check of the capacity or primality is added, since the code has none.
- OpenAddressing.Table.Insert models the guard `size / capacity > 0.6` as the exact `5 * size > 3 * capacity`. Float rounding could only differ from it for capacities around 10^16.
- OpenAddressing.ReinsertKeepsKeys, OpenAddressing.RebuildKeepsKeys, OpenAddressing.ReinsertKeepsValues and OpenAddressing.RebuildKeepsValues are proved for linear probing only. The value lemmas cover keys with a single live copy; with duplicate copies (see below) the last one re-inserted wins. With double hashing and a composite capacity, a re-inserted key can fail to find a slot (see `DoubleHashingCanMissFreeSlots`).
- No "no duplicate keys" invariant is stated, and no "get after delete is None" property. The code does not keep them: `_find_slot` stops at the first tombstone, so a key stored further along can be stored a second time.
- Greedy.ScheduleIntervals: optimality is stated only against compatible sets of positive-length intervals. With zero-length intervals and tied ends, Python's stable sort by end can make the greedy pick fewer. For example, `[(5,5), (3,5)]` gives one interval, while `(3,5), (5,5)` is compatible.
- Greedy.SchedulePairs: the same restriction as `ScheduleIntervals`.
- Greedy.MakeChange requires positive coins: a zero coin makes `rem // coin` divide by zero. Its failure contract is one-way: it fails only when coin 1 is absent, not exactly when greedy leaves a remainder.
- Knapsack requires each item to have a value, no negative weight, and a capacity of at least 0. The source raises IndexError for a negative capacity or weight. A capacity below 0 makes every row `[0] * 0 == []`, so `dp[n][capacity]` fails (`dynamic_programming.py:69,79`). A negative weight passes `weights[i-1] <= w` and reads `dp[i-1][w - weights[i-1]]`, an index above `w`, which fails at `w == capacity` (line 74); `compute_optimized` fails the same way at `dp[w - weights[i]]` (line 121). The value requirement is stricter than the source: `values[i-1]` is read only for an item that fits some `w`, so an item heavier than the capacity may lack a value without error. The model does not cover that input.
- CoinExchange and its members require positive coins and an amount of at least 0. The source behaves as follows on the excluded inputs:
  - A negative amount makes `dp` empty, so `dp[0] = 0` raises IndexError (`dynamic_programming.py:289,302,326`).
  - A negative coin in `min_coins_count` and `min_coins_with_change` reads forward at `dp[i - coin]` (lines 293, 306). This raises IndexError once `i - coin > amount`, at the latest at `i == amount`. With `amount == 0` the loop does not run, and the result is 0, or `(0, [])`.
  - A negative coin in `count_ways` starts `range(coin, amount + 1)` at a negative index (lines 328-329). It raises IndexError at `i == amount`.
  - A zero coin raises no error. `min_coins_count` and `min_coins_with_change` ignore it, since `dp[i - 0] + 1` never improves `dp[i]`. `count_ways` adds every entry to itself, so each zero coin doubles the result. The model does not cover zero coins.
- CoinExchange uses `None` for Python's `float('inf')`. `MinCoinsCount` and `MinCoinsWithChange` turn it into -1, as the code does.
- The `get_matrix` functions return a Dafny `array2` instead of a list of lists.
- FibSeries.Memoized takes the memo dictionary in and returns the updated one. The source updates a caller's dictionary in place; that aliasing is not modelled.
- The priority queue's `QueueItem.__eq__` (equal priority and value) is Dafny's datatype equality. Its `__lt__` is the heap key `Priority`, which compares only priorities.
- Heaps compare elements through an integer key; the sorts work on integers. Python's comparison of arbitrary objects is not modelled.
