/**
 * lab04 `sorts.py`: five sorts of a list of integers.  Each one copies its
 * argument before working on it (`arr.copy()`), so the caller's list never
 * changes; here the argument is a sequence value, and the working copy a
 * fresh array (bubble, insertion, quick) or fresh sequences (merge).
 */
module Sorts {
  import opened Ordering
  import Heapsorts = HeapSort

  /**
   * The positions of `s` in `[lo, hi)` that exist are in non-decreasing
   * order.
   */
  ghost predicate SortedRange(s: seq<int>, lo: nat, hi: int)
  {
    forall p, q :: lo <= p < q < hi && q < |s| ==> s[p] <= s[q]
  }

  /** A fresh array holding the elements of `s` (`arr.copy()`). */
  method Copy(s: seq<int>) returns (a: array<int>)
    ensures fresh(a) && a[..] == s
  {
    a := new int[|s|](k requires 0 <= k < |s| => s[k]);
  }

  // -----------------------------------------------------------------------
  // bubble_sort

  /**
   * After a pass, the last `|s| - m` positions hold their final values: they
   * are sorted and no smaller than anything before them.
   */
  ghost predicate BubblePassed(s: seq<int>, m: nat)
  {
    m <= |s| && SortedRange(s, m, |s|) &&
    forall p, q :: 0 <= p < m <= q < |s| ==> s[p] <= s[q]
  }

  /**
   * Inside the pass over `[0, m)`, before comparing `j` and `j + 1`: `s[j]`
   * is the largest of `s[0..j]`, and if nothing was swapped yet, `s[0..j]`
   * is sorted.
   */
  ghost predicate BubbleScan(s: seq<int>, m: nat, j: nat, swapped: bool)
  {
    BubblePassed(s, m) && j < m &&
    (forall k :: 0 <= k < j ==> s[k] <= s[j]) &&
    (!swapped ==> SortedRange(s, 0, j + 1))
  }

  /** Comparing `j` and `j + 1` and swapping them when out of order. */
  lemma BubbleCompareStep(s: seq<int>, m: nat, j: nat, swapped: bool)
    requires BubbleScan(s, m, j, swapped) && j + 1 < m
    ensures s[j] > s[j + 1] ==> BubbleScan(Swap(s, j, j + 1), m, j + 1, true)
    ensures s[j] <= s[j + 1] ==> BubbleScan(s, m, j + 1, swapped)
  {
    if s[j] > s[j + 1] {
      var t := Swap(s, j, j + 1);
      forall p, q | 0 <= p < m <= q < |t| ensures t[p] <= t[q] {
        if p == j {
          assert t[p] == s[j + 1];
        } else if p == j + 1 {
          assert t[p] == s[j];
        }
      }
    }
  }

  /**
   * The end of a pass: one more position is final, and a pass without a
   * swap leaves the whole list sorted.
   */
  lemma BubblePassDone(s: seq<int>, m: nat, swapped: bool)
    requires 0 < m && BubbleScan(s, m, m - 1, swapped)
    ensures BubblePassed(s, m - 1)
    ensures !swapped ==> Sorted(s)
  {
  }

  /**
   * `bubble_sort(arr)`: passes of adjacent swaps over a copy, each pass one
   * position shorter; a pass without a swap ends the sort early.
   */
  method BubbleSort(arr: seq<int>) returns (r: seq<int>)
    ensures Sorted(r) && multiset(r) == multiset(arr)
  {
    var a := Copy(arr);
    var n := a.Length;
    for i := 0 to n
      invariant BubblePassed(a[..], n - i)
      invariant multiset(a[..]) == multiset(arr)
    {
      var swapped := BubblePass(a, n - i);
      if !swapped {
        break;
      }
    }
    r := a[..];
  }

  /** One pass of `bubble_sort` over `a[0..m]`, reporting whether it swapped. */
  method BubblePass(a: array<int>, m: nat) returns (swapped: bool)
    requires 0 < m && BubblePassed(a[..], m)
    modifies a
    ensures BubblePassed(a[..], m - 1)
    ensures !swapped ==> Sorted(a[..])
    ensures multiset(a[..]) == multiset(old(a[..]))
  {
    swapped := false;
    for j := 0 to m - 1
      invariant BubbleScan(a[..], m, j, swapped)
      invariant multiset(a[..]) == multiset(old(a[..]))
    {
      ghost var before := a[..];
      BubbleCompareStep(before, m, j, swapped);
      if a[j] > a[j + 1] {
        a[j], a[j + 1] := a[j + 1], a[j];
        assert a[..] == Swap(before, j, j + 1);
        swapped := true;
      }
    }
    BubblePassDone(a[..], m, swapped);
  }

  // -----------------------------------------------------------------------
  // insertion_sort

  /**
   * The inner loop of `insertion_sort` at step `i`, started on `s`: `key` is
   * `s[i]`, the elements of `s[j+1..i-1]` greater than `key` have moved one
   * place right, and writing `key` into the gap at `j + 1` gives back the
   * elements of `s`.
   */
  ghost predicate Shifting(a: seq<int>, s: seq<int>, i: nat, j: int, key: int)
  {
    |a| == |s| && i < |s| && -1 <= j < i && key == s[i] &&
    (forall k :: 0 <= k <= j ==> a[k] == s[k]) &&
    (forall k :: j + 2 <= k <= i ==> a[k] == s[k - 1] && a[k] > key) &&
    (forall k :: i < k < |s| ==> a[k] == s[k]) &&
    multiset(a[j + 1 := key]) == multiset(s)
  }

  /** Before the inner loop nothing has moved. */
  lemma ShiftStart(s: seq<int>, i: nat)
    requires i < |s|
    ensures Shifting(s, s, i, i - 1, s[i])
  {
    assert s[i := s[i]] == s;
  }

  /** `a[j + 1] = a[j]; j -= 1` while `a[j] > key`. */
  lemma ShiftStep(a: seq<int>, s: seq<int>, i: nat, j: int, key: int)
    requires Shifting(a, s, i, j, key) && 0 <= j && a[j] > key
    ensures Shifting(a[j + 1 := a[j]], s, i, j - 1, key)
  {
    var b := a[j + 1 := a[j]];
    assert b[j := key] == Swap(a[j + 1 := key], j, j + 1);
  }

  /** `a[j + 1] = key`: the prefix `a[0..i]` is sorted and a permutation. */
  lemma ShiftDone(a: seq<int>, s: seq<int>, i: nat, j: int, key: int)
    requires Shifting(a, s, i, j, key) && SortedRange(s, 0, i)
    requires j < 0 || a[j] <= key
    ensures SortedRange(a[j + 1 := key], 0, i + 1)
    ensures multiset(a[j + 1 := key]) == multiset(s)
  {
    var b := a[j + 1 := key];
    forall p, q | 0 <= p < q < i + 1 && q < |b| ensures b[p] <= b[q] {
      if q <= j {
        assert b[p] == s[p] && b[q] == s[q];
      } else if q == j + 1 {
        if p <= j {
          assert b[p] == s[p] <= s[j] == a[j];
        }
      } else if p <= j {
        assert b[p] == s[p] <= s[j] == a[j] <= key < b[q];
      } else if p > j + 1 {
        assert b[p] == s[p - 1] && b[q] == s[q - 1];
      }
    }
  }

  /**
   * `insertion_sort(arr)`: for `i = 1..n-1`, shift the larger elements of
   * the sorted prefix right and drop `a[i]` into the gap.
   */
  method InsertionSort(arr: seq<int>) returns (r: seq<int>)
    ensures Sorted(r) && multiset(r) == multiset(arr)
  {
    var a := Copy(arr);
    var i := 1;
    while i < a.Length
      invariant 1 <= i && (a.Length == 0 || i <= a.Length)
      invariant SortedRange(a[..], 0, i)
      invariant multiset(a[..]) == multiset(arr)
    {
      Insert(a, i);
      i := i + 1;
    }
    r := a[..];
  }

  /** One step of `insertion_sort`: `a[i]` dropped into the sorted prefix `a[0..i]`. */
  method Insert(a: array<int>, i: nat)
    requires i < a.Length && SortedRange(a[..], 0, i)
    modifies a
    ensures SortedRange(a[..], 0, i + 1)
    ensures multiset(a[..]) == multiset(old(a[..]))
  {
    ghost var s := a[..];
    var key := a[i];
    var j := i - 1;
    ShiftStart(s, i);
    while j >= 0 && a[j] > key
      invariant Shifting(a[..], s, i, j, key)
      decreases j
    {
      ShiftStep(a[..], s, i, j, key);
      a[j + 1] := a[j];
      j := j - 1;
    }
    ShiftDone(a[..], s, i, j, key);
    a[j + 1] := key;
  }

  // -----------------------------------------------------------------------
  // merge_sort

  /**
   * The merge of two runs, taking from `left` while its head is no greater
   * (`left[i] <= right[j]`), so that ties keep the left element first.
   * Elements are compared through `key`; `merge_sort` itself sorts plain
   * integers, which is the key `Id`.
   */
  function Merge<T>(left: seq<T>, right: seq<T>, key: T -> int): (r: seq<T>)
    ensures |r| == |left| + |right|
    decreases |left| + |right|
  {
    if left == [] then right
    else if right == [] then left
    else if key(left[0]) <= key(right[0]) then [left[0]] + Merge(left[1..], right, key)
    else [right[0]] + Merge(left, right[1..], key)
  }

  /** The merge is a permutation of its two runs together. */
  lemma {:induction false} MergePermutes<T>(left: seq<T>, right: seq<T>, key: T -> int)
    ensures multiset(Merge(left, right, key)) == multiset(left) + multiset(right)
    decreases |left| + |right|
  {
    if left != [] && right != [] {
      MergeHead(left, right, key);
      if key(left[0]) <= key(right[0]) {
        MergePermutes(left[1..], right, key);
        MultisetCons(left[0], Merge(left[1..], right, key));
        MultisetHead(left);
      } else {
        MergePermutes(left, right[1..], key);
        MultisetCons(right[0], Merge(left, right[1..], key));
        MultisetHead(right);
      }
    }
  }

  lemma MultisetCons<T>(x: T, s: seq<T>)
    ensures multiset([x] + s) == multiset{x} + multiset(s)
  {
  }


  /** Every key in `s` is at least `b`. */
  ghost predicate AllAtLeast<T>(s: seq<T>, key: T -> int, b: int)
  {
    forall k :: 0 <= k < |s| ==> b <= key(s[k])
  }

  /** The merge holds nothing but elements of its runs. */
  lemma MergeAtLeast<T>(left: seq<T>, right: seq<T>, key: T -> int, b: int)
    requires AllAtLeast(left, key, b) && AllAtLeast(right, key, b)
    ensures AllAtLeast(Merge(left, right, key), key, b)
  {
    var r := Merge(left, right, key);
    MergePermutes(left, right, key);
    forall k | 0 <= k < |r| ensures b <= key(r[k]) {
      assert r[k] in multiset(left) + multiset(right);
      if r[k] in multiset(left) {
        var m :| 0 <= m < |left| && left[m] == r[k];
      } else {
        var m :| 0 <= m < |right| && right[m] == r[k];
      }
    }
  }

  /** Merging two sorted runs gives a sorted run. */
  lemma {:induction false} MergeSorted<T>(left: seq<T>, right: seq<T>, key: T -> int)
    requires SortedBy(left, key) && SortedBy(right, key)
    ensures SortedBy(Merge(left, right, key), key)
    decreases |left| + |right|
  {
    if left != [] && right != [] {
      if key(left[0]) <= key(right[0]) {
        MergeSorted(left[1..], right, key);
        MergeAtLeast(left[1..], right, key, key(left[0]));
      } else {
        MergeSorted(left, right[1..], key);
        MergeAtLeast(left, right[1..], key, key(right[0]));
      }
    }
  }

  /** The elements of `s` whose key is `k`, in their order in `s`. */
  function Filter<T>(s: seq<T>, key: T -> int, k: int): (r: seq<T>)
    ensures |r| <= |s|
  {
    if s == [] then []
    else if key(s[0]) == k then [s[0]] + Filter(s[1..], key, k)
    else Filter(s[1..], key, k)
  }

  /** Filtering distributes over concatenation. */
  lemma {:induction false} FilterAppend<T>(a: seq<T>, b: seq<T>, key: T -> int, k: int)
    ensures Filter(a + b, key, k) == Filter(a, key, k) + Filter(b, key, k)
    decreases |a|
  {
    if a == [] {
      assert a + b == b;
    } else {
      assert (a + b)[0] == a[0] && (a + b)[1..] == a[1..] + b;
      FilterAppend(a[1..], b, key, k);
    }
  }

  /** A run whose keys are all above `k` has nothing with key `k`. */
  lemma {:induction false} FilterAbove<T>(s: seq<T>, key: T -> int, k: int)
    requires AllAtLeast(s, key, k + 1)
    ensures Filter(s, key, k) == []
  {
    if s != [] {
      assert key(s[0]) > k;
      assert AllAtLeast(s[1..], key, k + 1) by {
        forall j | 0 <= j < |s[1..]| ensures k + 1 <= key(s[1..][j]) {
          assert s[1..][j] == s[j + 1];
        }
      }
      FilterAbove(s[1..], key, k);
    }
  }

  /** The elements of `[x]` whose key is `k`. */
  function Keep<T>(x: T, key: T -> int, k: int): seq<T>
  {
    if key(x) == k then [x] else []
  }

  /** Filtering a sequence that starts with `x`. */
  lemma FilterCons<T>(x: T, s: seq<T>, key: T -> int, k: int)
    ensures Filter([x] + s, key, k) == Keep(x, key, k) + Filter(s, key, k)
  {
    assert ([x] + s)[0] == x && ([x] + s)[1..] == s;
  }

  /**
   * Stability of the merge: the elements with any one key come out in the
   * order of `left` followed by `right`.
   */
  lemma {:induction false} MergeStable<T>(left: seq<T>, right: seq<T>, key: T -> int, k: int)
    requires SortedBy(left, key) && SortedBy(right, key)
    ensures Filter(Merge(left, right, key), key, k) == Filter(left, key, k) + Filter(right, key, k)
    decreases |left| + |right|
  {
    if left == [] {
      assert Filter(left, key, k) == [];
    } else if right == [] {
      assert Filter(right, key, k) == [];
    } else if key(left[0]) <= key(right[0]) {
      MergeStable(left[1..], right, key, k);
      FilterMergeTakeLeft(left, right, key, k);
      FilterHead(left, key, k);
    } else {
      MergeStable(left, right[1..], key, k);
      FilterMergeTakeRight(left, right, key, k);
      FilterHead(right, key, k);
      if key(right[0]) == k {
        FilterAbove(left, key, k);
      } else {
        assert Keep(right[0], key, k) == [];
      }
    }
  }

  /** The merge step that takes the head of `left`, seen through `Filter`. */
  lemma FilterMergeTakeLeft<T>(left: seq<T>, right: seq<T>, key: T -> int, k: int)
    requires left != [] && right != [] && key(left[0]) <= key(right[0])
    ensures Filter(Merge(left, right, key), key, k) == Keep(left[0], key, k) + Filter(Merge(left[1..], right, key), key, k)
  {
    MergeHead(left, right, key);
    FilterCons(left[0], Merge(left[1..], right, key), key, k);
  }

  /** The merge step that takes the head of `right`, seen through `Filter`. */
  lemma FilterMergeTakeRight<T>(left: seq<T>, right: seq<T>, key: T -> int, k: int)
    requires left != [] && right != [] && key(left[0]) > key(right[0])
    ensures Filter(Merge(left, right, key), key, k) == Keep(right[0], key, k) + Filter(Merge(left, right[1..], key), key, k)
  {
    MergeHead(left, right, key);
    FilterCons(right[0], Merge(left, right[1..], key), key, k);
  }

  /** Filtering a non-empty sequence: its head, if it has key `k`, then the filtered rest. */
  lemma FilterHead<T>(s: seq<T>, key: T -> int, k: int)
    requires s != []
    ensures Filter(s, key, k) == Keep(s[0], key, k) + Filter(s[1..], key, k)
  {
  }

  /** `Merge` when both runs are non-empty: the smaller head (the left one on ties) comes first. */
  lemma MergeHead<T>(left: seq<T>, right: seq<T>, key: T -> int)
    requires left != [] && right != []
    ensures key(left[0]) <= key(right[0]) ==> Merge(left, right, key) == [left[0]] + Merge(left[1..], right, key)
    ensures key(left[0]) > key(right[0]) ==> Merge(left, right, key) == [right[0]] + Merge(left, right[1..], key)
  {
  }

  /**
   * The merge loop of `merge_sort`: append the smaller head (the left one on
   * ties), then extend with what is left of both runs.
   */
  method MergeRuns<T>(left: seq<T>, right: seq<T>, key: T -> int) returns (result: seq<T>)
    ensures result == Merge(left, right, key)
  {
    result := [];
    var i, j := 0, 0;
    assert left[0..] == left && right[0..] == right;
    while i < |left| && j < |right|
      invariant 0 <= i <= |left| && 0 <= j <= |right|
      invariant result + Merge(left[i..], right[j..], key) == Merge(left, right, key)
      decreases |left| - i + |right| - j
    {
      MergeRunsStep(left, right, key, i, j, result);
      if key(left[i]) <= key(right[j]) {
        result := result + [left[i]];
        i := i + 1;
      } else {
        result := result + [right[j]];
        j := j + 1;
      }
    }
    MergeRunsDone(left, right, key, i, j);
    result := result + left[i..] + right[j..];
  }

  /** One round of the merge loop moves the smaller head from the merge of the rests to `result`. */
  lemma MergeRunsStep<T>(left: seq<T>, right: seq<T>, key: T -> int, i: nat, j: nat, result: seq<T>)
    requires i < |left| && j < |right|
    ensures key(left[i]) <= key(right[j]) ==>
      result + Merge(left[i..], right[j..], key) == (result + [left[i]]) + Merge(left[i + 1..], right[j..], key)
    ensures key(left[i]) > key(right[j]) ==>
      result + Merge(left[i..], right[j..], key) == (result + [right[j]]) + Merge(left[i..], right[j + 1..], key)
  {
    MergeHead(left[i..], right[j..], key);
    assert left[i..][1..] == left[i + 1..];
    assert right[j..][1..] == right[j + 1..];
  }

  /** Once one run is used up, the merge of the rests is what is left of both. */
  lemma MergeRunsDone<T>(left: seq<T>, right: seq<T>, key: T -> int, i: nat, j: nat)
    requires i <= |left| && j <= |right| && (i == |left| || j == |right|)
    ensures Merge(left[i..], right[j..], key) == left[i..] + right[j..]
  {
  }

  /**
   * `r` is `s` sorted by `key` with equal keys left in their order in `s`:
   * what Python's stable `sorted(s, key=key)` returns.
   */
  ghost predicate StableSortOf<T>(r: seq<T>, s: seq<T>, key: T -> int)
  {
    SortedBy(r, key) && multiset(r) == multiset(s) &&
    forall k :: Filter(r, key, k) == Filter(s, key, k)
  }

  /**
   * `merge_sort(arr)`: sort both halves (`arr[:mid]`, `arr[mid:]`) and merge
   * them.  The result is a sorted permutation, and the sort is stable.
   */
  method MergeSort<T>(arr: seq<T>, key: T -> int) returns (r: seq<T>)
    ensures SortedBy(r, key) && multiset(r) == multiset(arr)
    ensures forall k :: Filter(r, key, k) == Filter(arr, key, k)
    decreases |arr|
  {
    if |arr| <= 1 {
      return arr;
    }
    var mid := |arr| / 2;
    var left := MergeSort(arr[..mid], key);
    var right := MergeSort(arr[mid..], key);
    r := MergeRuns(left, right, key);
    MergePermutes(left, right, key);
    MergeSorted(left, right, key);
    assert arr == arr[..mid] + arr[mid..];
    forall k ensures Filter(r, key, k) == Filter(arr, key, k) {
      MergeStable(left, right, key, k);
      FilterAppend(arr[..mid], arr[mid..], key, k);
    }
  }

  // -----------------------------------------------------------------------
  // quick_sort

  /**
   * Every value at a position of `[lo, hi]` in `s` was at a position of
   * `[lo, hi]` in `t`: what a rearrangement of that range leaves there.
   */
  ghost predicate Within(s: seq<int>, t: seq<int>, lo: int, hi: int)
  {
    |s| == |t| &&
    forall k :: lo <= k <= hi && 0 <= k < |s| ==> InRange(t, lo, hi, s[k])
  }

  /** `v` sits at some position of `[lo, hi]` in `t`. */
  ghost predicate InRange(t: seq<int>, lo: int, hi: int, v: int)
  {
    exists m :: lo <= m <= hi && 0 <= m < |t| && t[m] == v
  }

  lemma WithinRefl(s: seq<int>, lo: int, hi: int)
    ensures Within(s, s, lo, hi)
  {
    forall k | lo <= k <= hi && 0 <= k < |s| ensures InRange(s, lo, hi, s[k]) {
      assert s[k] == s[k];
    }
  }

  /** Exchanging two positions of the range keeps it within `t`. */
  lemma WithinSwap(s: seq<int>, t: seq<int>, lo: int, hi: int, x: nat, y: nat)
    requires Within(s, t, lo, hi) && lo <= x <= hi && lo <= y <= hi && x < |s| && y < |s|
    ensures Within(Swap(s, x, y), t, lo, hi)
  {
    var u := Swap(s, x, y);
    forall k | lo <= k <= hi && 0 <= k < |u|
      ensures InRange(t, lo, hi, u[k])
    {
      var src := if k == x then y else if k == y then x else k;
      assert u[k] == s[src];
      assert InRange(t, lo, hi, s[src]);
    }
  }

  /**
   * The state of the partition loop of `_quick(a, lo, hi)` on `s`, started
   * on `o` with `pivot = o[mid]`: everything left of `i` is at most the
   * pivot, everything right of `j` at least the pivot, and while `i <= j`
   * each scan has an element ahead of it that stops it.
   */
  ghost predicate Parting(s: seq<int>, o: seq<int>, lo: nat, hi: nat, mid: nat, i: int, j: int, pivot: int)
  {
    |s| == |o| && lo <= mid <= hi < |s| &&
    lo <= i <= hi + 1 && lo - 1 <= j <= hi && i <= j + 2 &&
    ((i == lo && j == hi && s[mid] == pivot) || (lo < i && j < hi)) &&
    (forall k :: lo <= k < i ==> s[k] <= pivot) &&
    (forall k :: j < k <= hi ==> pivot <= s[k]) &&
    (i <= j ==> exists k :: i <= k <= hi && pivot <= s[k]) &&
    (i <= j ==> exists k :: lo <= k <= j && s[k] <= pivot) &&
    multiset(s) == multiset(o) &&
    (forall k :: 0 <= k < |s| && (k < lo || hi < k) ==> s[k] == o[k]) &&
    Within(s, o, lo, hi)
  }

  /**
   * Where the two inner scans of one round stop: `i` at the first element
   * from `i0` on that is not smaller than the pivot, `j` at the first
   * element from `j0` down that is not larger.
   */
  ghost predicate Scanned(s: seq<int>, i0: int, j0: int, i: int, j: int, pivot: int)
  {
    0 <= i0 <= i < |s| && 0 <= j <= j0 < |s| &&
    pivot <= s[i] && s[j] <= pivot &&
    (forall k :: i0 <= k < i ==> s[k] < pivot) &&
    (forall k :: j < k <= j0 ==> pivot < s[k])
  }

  /** The scans of a round never run past each other by more than one. */
  lemma ScannedClose(s: seq<int>, o: seq<int>, lo: nat, hi: nat, mid: nat,
                     i0: int, j0: int, i: int, j: int, pivot: int)
    requires Parting(s, o, lo, hi, mid, i0, j0, pivot) && i0 <= j0
    requires Scanned(s, i0, j0, i, j, pivot)
    ensures i <= j + 1
    ensures i0 == lo && j0 == hi ==> i <= mid <= j
  {
    if i0 == lo && j0 == hi {
      assert !(s[mid] < pivot) && !(pivot < s[mid]);
    }
    assert i0 < i ==> s[i - 1] < pivot;
    assert lo < i0 ==> s[i0 - 1] <= pivot;
    assert j < j0 ==> pivot < s[j + 1];
  }

  /** Swapping the two stopped elements and stepping past them. */
  lemma PartingSwap(s: seq<int>, o: seq<int>, lo: nat, hi: nat, mid: nat,
                    i0: int, j0: int, i: int, j: int, pivot: int)
    requires Parting(s, o, lo, hi, mid, i0, j0, pivot) && i0 <= j0
    requires Scanned(s, i0, j0, i, j, pivot) && i <= j
    ensures Parting(Swap(s, i, j), o, lo, hi, mid, i + 1, j - 1, pivot)
  {
    ScannedClose(s, o, lo, hi, mid, i0, j0, i, j, pivot);
    var t := Swap(s, i, j);
    WithinSwap(s, o, lo, hi, i, j);
    if i + 1 <= j - 1 {
      assert j - 1 < j <= hi && pivot <= t[j];
      assert lo <= i < i + 1 && t[i] <= pivot;
      assert i + 1 <= j <= hi && pivot <= t[j];
      assert lo <= i <= j - 1 && t[i] <= pivot;
    }
  }

  /** When the scans have crossed, the loop ends in a valid state. */
  lemma PartingCross(s: seq<int>, o: seq<int>, lo: nat, hi: nat, mid: nat,
                     i0: int, j0: int, i: int, j: int, pivot: int)
    requires Parting(s, o, lo, hi, mid, i0, j0, pivot) && i0 <= j0
    requires Scanned(s, i0, j0, i, j, pivot) && j < i
    ensures Parting(s, o, lo, hi, mid, i, j, pivot)
  {
    ScannedClose(s, o, lo, hi, mid, i0, j0, i, j, pivot);
  }

  /**
   * `while a[i] < pivot: i += 1`: the scan stops at the first element from
   * `i` on that is not smaller than the pivot, no later than `up`.
   */
  method ScanRight(a: array<int>, i: nat, pivot: int, ghost up: nat) returns (r: nat)
    requires i <= up < a.Length && pivot <= a[up]
    ensures i <= r <= up && pivot <= a[r]
    ensures forall k :: i <= k < r ==> a[k] < pivot
  {
    r := i;
    while a[r] < pivot
      invariant i <= r <= up
      invariant forall k :: i <= k < r ==> a[k] < pivot
      decreases up - r
    {
      r := r + 1;
    }
  }

  /**
   * `while a[j] > pivot: j -= 1`: the scan stops at the first element from
   * `j` down that is not larger than the pivot, no earlier than `down`.
   */
  method ScanLeft(a: array<int>, j: nat, pivot: int, ghost down: nat) returns (r: nat)
    requires down <= j < a.Length && a[down] <= pivot
    ensures down <= r <= j && a[r] <= pivot
    ensures forall k :: r < k <= j ==> pivot < a[k]
  {
    r := j;
    while a[r] > pivot
      invariant down <= r <= j
      invariant forall k :: r < k <= j ==> pivot < a[k]
      decreases r - down
    {
      r := r - 1;
    }
  }

  /**
   * The partition loop of `_quick(a, lo, hi)` with `pivot = a[(lo + hi) // 2]`:
   * `i` moves right past elements smaller than the pivot, `j` left past
   * larger ones, and out-of-place pairs are swapped.  It ends with
   * everything left of `i` at most the pivot and everything right of `j` at
   * least the pivot; both sides are strictly shorter than `[lo, hi]`.
   */
  method Partition(a: array<int>, lo: nat, hi: nat) returns (i: int, j: int, pivot: int)
    requires lo < hi < a.Length
    modifies a
    ensures lo < i <= hi + 1 && lo - 1 <= j < hi && j < i <= j + 2
    ensures forall k :: lo <= k < i ==> a[k] <= pivot
    ensures forall k :: j < k <= hi ==> pivot <= a[k]
    ensures multiset(a[..]) == old(multiset(a[..]))
    ensures forall k :: 0 <= k < a.Length && (k < lo || hi < k) ==> a[k] == old(a[k])
    ensures Within(a[..], old(a[..]), lo, hi)
  {
    var mid := (lo + hi) / 2;
    pivot := a[mid];
    i, j := lo, hi;
    WithinRefl(a[..], lo, hi);
    assert lo <= mid <= hi && pivot <= a[mid] && a[mid] <= pivot;
    while i <= j
      invariant Parting(a[..], old(a[..]), lo, hi, mid, i, j, pivot)
      decreases j - i + 2
    {
      i, j := PartitionRound(a, lo, hi, mid, i, j, pivot, old(a[..]));
    }
  }

  /**
   * One round of the partition loop: both scans, then the swap of the two
   * stopped elements if they have not crossed.
   */
  method PartitionRound(a: array<int>, lo: nat, hi: nat, mid: nat, i: int, j: int, pivot: int, ghost o: seq<int>)
      returns (i': int, j': int)
    requires Parting(a[..], o, lo, hi, mid, i, j, pivot) && i <= j
    modifies a
    ensures Parting(a[..], o, lo, hi, mid, i', j', pivot)
    ensures j' - i' < j - i
  {
    ghost var s := a[..];
    ghost var up :| i <= up <= hi && pivot <= s[up];
    ghost var down :| lo <= down <= j && s[down] <= pivot;
    i' := ScanRight(a, i, pivot, up);
    j' := ScanLeft(a, j, pivot, down);
    assert Scanned(s, i, j, i', j', pivot);
    if i' <= j' {
      PartingSwap(s, o, lo, hi, mid, i, j, i', j', pivot);
      a[i'], a[j'] := a[j'], a[i'];
      assert a[..] == Swap(s, i', j');
      i', j' := i' + 1, j' - 1;
    } else {
      PartingCross(s, o, lo, hi, mid, i, j, i', j', pivot);
    }
  }

  /**
   * After the partition and both recursive calls: the range is sorted, and
   * holds only values it held at the start.
   */
  lemma QuickCombine(o: seq<int>, p: seq<int>, l: seq<int>, s: seq<int>,
                     lo: nat, hi: nat, i: int, j: int, pivot: int)
    requires lo < i <= hi + 1 && lo - 1 <= j < hi && j < i && hi < |o|
    requires Within(p, o, lo, hi)
    requires forall k :: lo <= k < i ==> p[k] <= pivot
    requires forall k :: j < k <= hi ==> pivot <= p[k]
    requires Within(l, p, lo, j) && SortedRange(l, lo, j + 1)
    requires forall k :: 0 <= k < |l| && (k < lo || j < k) ==> l[k] == p[k]
    requires Within(s, l, i, hi) && SortedRange(s, i, hi + 1)
    requires forall k :: 0 <= k < |s| && (k < i || hi < k) ==> s[k] == l[k]
    ensures SortedRange(s, lo, hi + 1)
    ensures Within(s, o, lo, hi)
  {
    forall k | lo <= k < i ensures s[k] <= pivot {
      if k <= j {
        var m :| lo <= m <= j && 0 <= m < |p| && l[k] == p[m];
      }
    }
    forall k | j < k <= hi ensures pivot <= s[k] {
      if i <= k {
        var m :| i <= m <= hi && 0 <= m < |l| && s[k] == l[m];
      }
    }
    forall k | lo <= k <= hi && 0 <= k < |s|
      ensures InRange(o, lo, hi, s[k])
    {
      var m1: int := k;
      if i <= k {
        m1 :| i <= m1 <= hi && 0 <= m1 < |l| && s[k] == l[m1];
      }
      var m2: int := m1;
      if m1 <= j {
        m2 :| lo <= m2 <= j && 0 <= m2 < |p| && l[m1] == p[m2];
      }
      assert s[k] == p[m2];
      var m3 :| lo <= m3 <= hi && 0 <= m3 < |o| && p[m2] == o[m3];
      assert lo <= m3 <= hi && 0 <= m3 < |o| && s[k] == o[m3];
    }
  }

  /**
   * `_quick(a, lo, hi)`: partition `a[lo..hi]`, then sort `a[lo..j]` when
   * `lo < j` and `a[i..hi]` when `i < hi`.  Positions outside `[lo, hi]`
   * never move.
   */
  method Quick(a: array<int>, lo: nat, hi: int)
    requires hi < a.Length
    modifies a
    ensures SortedRange(a[..], lo, hi + 1)
    ensures multiset(a[..]) == old(multiset(a[..]))
    ensures forall k :: 0 <= k < a.Length && (k < lo || hi < k) ==> a[k] == old(a[k])
    ensures Within(a[..], old(a[..]), lo, hi)
    decreases hi - lo
  {
    if lo >= hi {
      WithinRefl(a[..], lo, hi);
      return;
    }
    var i, j, pivot := Partition(a, lo, hi);
    ghost var parted := a[..];
    if lo < j {
      Quick(a, lo, j);
    } else {
      WithinRefl(a[..], lo, j);
    }
    ghost var leftDone := a[..];
    if i < hi {
      Quick(a, i, hi);
    } else {
      WithinRefl(a[..], i, hi);
    }
    QuickCombine(old(a[..]), parted, leftDone, a[..], lo, hi, i, j, pivot);
  }

  /** `quick_sort(arr)`: `_quick(a, 0, len(a) - 1)` on a copy. */
  method QuickSort(arr: seq<int>) returns (r: seq<int>)
    ensures Sorted(r) && multiset(r) == multiset(arr)
  {
    var a := Copy(arr);
    Quick(a, 0, a.Length - 1);
    r := a[..];
  }

  // -----------------------------------------------------------------------
  // heap_sort and the agreement of all five

  /**
   * `heap_sort(arr)`: heapify a copy and pop it empty.  The library heap is
   * replaced by `SmallHeap`, which is what `heapsort_using_smallheap` does.
   */
  method HeapSort(arr: seq<int>) returns (r: seq<int>)
    ensures Sorted(r) && multiset(r) == multiset(arr)
  {
    r := Heapsorts.HeapsortUsingSmallHeap(arr);
  }

  /** Sorting by the key `Id` is sorting the integers. */
  lemma SortedById(s: seq<int>)
    requires SortedBy(s, Id)
    ensures Sorted(s)
  {
    forall p, q | 0 <= p < q < |s| ensures s[p] <= s[q] {
      assert Id(s[p]) <= Id(s[q]);
    }
  }

  /** All five sorts return the same list on every input. */
  method AllSortsAgree(arr: seq<int>) returns (b: seq<int>, i: seq<int>, m: seq<int>, q: seq<int>, h: seq<int>)
    ensures Sorted(b) && multiset(b) == multiset(arr)
    ensures b == i == m == q == h
  {
    b := BubbleSort(arr);
    i := InsertionSort(arr);
    m := MergeSort(arr, Id);
    q := QuickSort(arr);
    h := HeapSort(arr);
    SortedById(m);
    SortedPermutationUnique(b, i);
    SortedPermutationUnique(b, m);
    SortedPermutationUnique(b, q);
    SortedPermutationUnique(b, h);
  }
}
