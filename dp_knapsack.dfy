/**
 * lab09 `Knapsack01`: the 0-1 knapsack by a full `(n+1) x (capacity+1)`
 * table, by one row updated from the right, and with the chosen items
 * recovered from the table.  `Best(i, w)` is the table's recurrence; it is
 * proved to be the largest value of any set of the first `i` items that
 * fits in `w`, and every method is proved against it.
 */
module Knapsack {
  import opened Ordering

  /** What the callers supply: a value per item, no negative weight, room of at least 0. */
  ghost predicate Instance(weights: seq<int>, values: seq<int>, capacity: int)
  {
    |weights| <= |values| && capacity >= 0 &&
    forall k :: 0 <= k < |weights| ==> weights[k] >= 0
  }

  /**
   * `dp[i][w]`: item `i - 1` is taken when it fits and taking it is worth
   * more than leaving it.
   */
  function Best(weights: seq<int>, values: seq<int>, i: nat, w: int): int
    requires i <= |weights| <= |values|
  {
    if i == 0 then 0
    else if weights[i - 1] <= w then
      Max(values[i - 1] + Best(weights, values, i - 1, w - weights[i - 1]), Best(weights, values, i - 1, w))
    else Best(weights, values, i - 1, w)
  }

  function Max(a: int, b: int): int { if a >= b then a else b }

  /** The sum of `vals` at the positions `idx`. */
  function SumAt(vals: seq<int>, idx: seq<nat>): int
    requires forall k :: 0 <= k < |idx| ==> idx[k] < |vals|
  {
    if idx == [] then 0 else vals[idx[0]] + SumAt(vals, idx[1..])
  }

  lemma {:induction false} SumAtSnoc(vals: seq<int>, idx: seq<nat>, x: nat)
    requires forall k :: 0 <= k < |idx| ==> idx[k] < |vals|
    requires x < |vals|
    ensures SumAt(vals, idx + [x]) == SumAt(vals, idx) + vals[x]
  {
    if idx != [] {
      assert (idx + [x])[1..] == idx[1..] + [x];
      SumAtSnoc(vals, idx[1..], x);
    }
  }

  /** Strictly increasing positions below `i`: a set of the first `i` items. */
  ghost predicate Choice(idx: seq<nat>, i: nat)
  {
    (forall k :: 0 <= k < |idx| ==> idx[k] < i) &&
    (forall k, l :: 0 <= k < l < |idx| ==> idx[k] < idx[l])
  }

  /** Taking nothing is always possible, so the optimum is never negative. */
  lemma {:induction false} BestNonnegative(weights: seq<int>, values: seq<int>, i: nat, w: int)
    requires i <= |weights| <= |values|
    ensures Best(weights, values, i, w) >= 0
  {
    if i > 0 {
      BestNonnegative(weights, values, i - 1, w);
    }
  }

  /** No set of the first `i` items within `w` is worth more than `Best(i, w)`. */
  lemma {:induction false} BestIsOptimal(weights: seq<int>, values: seq<int>, i: nat, w: int, idx: seq<nat>)
    requires Instance(weights, values, w) && i <= |weights|
    requires Choice(idx, i) && SumAt(weights, idx) <= w
    ensures SumAt(values, idx) <= Best(weights, values, i, w)
  {
    if idx == [] {
      BestNonnegative(weights, values, i, w);
    } else {
      var init, last := idx[..|idx| - 1], idx[|idx| - 1];
      assert idx == init + [last];
      SumAtSnoc(weights, init, last);
      SumAtSnoc(values, init, last);
      ChoiceSplit(idx, i);
      ChoiceWeightNonnegative(weights, init, i);
      if last == i - 1 {
        BestIsOptimal(weights, values, i - 1, w - weights[i - 1], init);
      } else {
        BestIsOptimal(weights, values, i - 1, w, idx);
      }
    }
  }

  /**
   * A non-empty choice of the first `i` items either ends with item
   * `i - 1`, the rest choosing among the first `i - 1`, or chooses among
   * the first `i - 1` altogether.
   */
  lemma ChoiceSplit(idx: seq<nat>, i: nat)
    requires Choice(idx, i) && idx != []
    ensures 0 < i
    ensures Choice(idx[..|idx| - 1], i) && Choice(idx[..|idx| - 1], i - 1)
    ensures idx[|idx| - 1] != i - 1 ==> Choice(idx, i - 1)
  {
    var last := idx[|idx| - 1];
    forall k | 0 <= k < |idx| - 1 ensures idx[k] < i - 1 {
      assert idx[k] < last;
    }
  }

  lemma {:induction false} ChoiceWeightNonnegative(weights: seq<int>, idx: seq<nat>, i: nat)
    requires i <= |weights| && Choice(idx, i)
    requires forall k :: 0 <= k < |weights| ==> weights[k] >= 0
    ensures SumAt(weights, idx) >= 0
  {
    if idx != [] {
      ChoiceWeightNonnegative(weights, idx[1..], i);
    }
  }

  /** The table shared by `compute`, `compute_with_items` and `compute_optimized_with_items`. */
  method Table(weights: seq<int>, values: seq<int>, capacity: int) returns (dp: array2<int>)
    requires Instance(weights, values, capacity)
    ensures dp.Length0 == |weights| + 1 && dp.Length1 == capacity + 1
    ensures forall i, w {:trigger dp[i, w]} :: 0 <= i <= |weights| && 0 <= w <= capacity ==> dp[i, w] == Best(weights, values, i, w)
  {
    var n := |weights|;
    dp := new int[n + 1, capacity + 1]((i, w) => 0);
    for i := 1 to n + 1
      invariant forall i', w {:trigger dp[i', w]} :: 0 <= i' < i && 0 <= w <= capacity ==> dp[i', w] == Best(weights, values, i', w)
    {
      for w := 0 to capacity + 1
        invariant forall i', w' {:trigger dp[i', w']} :: 0 <= i' < i && 0 <= w' <= capacity ==> dp[i', w'] == Best(weights, values, i', w')
        invariant forall w' {:trigger dp[i, w']} :: 0 <= w' < w ==> dp[i, w'] == Best(weights, values, i, w')
      {
        if weights[i - 1] <= w {
          dp[i, w] := Max(values[i - 1] + dp[i - 1, w - weights[i - 1]], dp[i - 1, w]);
        } else {
          dp[i, w] := dp[i - 1, w];
        }
      }
    }
  }

  /** `compute(weights, values, capacity)`: `dp[n][capacity]`. */
  method Compute(weights: seq<int>, values: seq<int>, capacity: int) returns (best: int)
    requires Instance(weights, values, capacity)
    ensures best == Best(weights, values, |weights|, capacity)
  {
    var dp := Table(weights, values, capacity);
    best := dp[|weights|, capacity];
  }

  /**
   * `compute_with_items`: the optimum and, walking the table back from
   * `(n, capacity)`, the items whose row changed the value, in increasing
   * order.  They fit and are worth exactly the optimum.
   */
  method ComputeWithItems(weights: seq<int>, values: seq<int>, capacity: int) returns (best: int, items: seq<nat>)
    requires Instance(weights, values, capacity)
    ensures best == Best(weights, values, |weights|, capacity)
    ensures Choice(items, |weights|)
    ensures SumAt(weights, items) <= capacity && SumAt(values, items) == best
  {
    var n := |weights|;
    var dp := Table(weights, values, capacity);
    var picked: seq<nat> := [];
    var w := capacity;
    var i := n;
    while i > 0
      invariant 0 <= i <= n && 0 <= w <= capacity
      invariant forall a, b {:trigger dp[a, b]} :: 0 <= a <= n && 0 <= b <= capacity ==> dp[a, b] == Best(weights, values, a, b)
      invariant Walked(weights, values, capacity, picked, i, w)
    {
      if dp[i, w] != dp[i - 1, w] {
        WalkTake(weights, values, capacity, picked, i, w);
        picked := picked + [i - 1];
        w := w - weights[i - 1];
      } else {
        WalkSkip(weights, values, capacity, picked, i, w);
      }
      i := i - 1;
    }
    items := Reverse(picked);
    best := dp[n, capacity];
  }

  /**
   * The walk back from `dp[n][capacity]` has reached row `i` and column
   * `w`: the items `picked` so far (from the last down) use up
   * `capacity - w` and are worth what `Best(i, w)` leaves to reach the
   * optimum.
   */
  ghost predicate Walked(weights: seq<int>, values: seq<int>, capacity: int, picked: seq<nat>, i: nat, w: int)
    requires i <= |weights| <= |values|
  {
    Choice(Reverse(picked), |weights|) &&
    (forall k :: 0 <= k < |picked| ==> i <= picked[k]) &&
    SumAt(weights, Reverse(picked)) + w == capacity &&
    SumAt(values, Reverse(picked)) + Best(weights, values, i, w) == Best(weights, values, |weights|, capacity)
  }

  /** Passing over item `i - 1` when the table says it was left keeps the walk on track. */
  lemma WalkSkip(weights: seq<int>, values: seq<int>, capacity: int, picked: seq<nat>, i: nat, w: int)
    requires 0 < i <= |weights| <= |values|
    requires Walked(weights, values, capacity, picked, i, w)
    requires Best(weights, values, i, w) == Best(weights, values, i - 1, w)
    ensures Walked(weights, values, capacity, picked, i - 1, w)
  {
  }

  /** Taking item `i - 1` when the table says it was taken keeps the walk on track. */
  lemma WalkTake(weights: seq<int>, values: seq<int>, capacity: int, picked: seq<nat>, i: nat, w: int)
    requires Instance(weights, values, capacity) && 0 < i <= |weights| && 0 <= w
    requires Walked(weights, values, capacity, picked, i, w)
    requires Best(weights, values, i, w) != Best(weights, values, i - 1, w)
    ensures weights[i - 1] <= w
    ensures Walked(weights, values, capacity, picked + [i - 1], i - 1, w - weights[i - 1])
  {
    BestTaken(weights, values, i, w);
    var rest := Reverse(picked);
    ReverseSnoc(picked, i - 1);
    ReverseAt(picked);
    assert forall k :: 0 <= k < |rest| ==> i <= rest[k];
    ChoiceCons(rest, i - 1, |weights|);
    SumAtCons(weights, rest, i - 1);
    SumAtCons(values, rest, i - 1);
  }

  /** Where the table changes from row `i - 1` to row `i`, item `i - 1` was taken. */
  lemma BestTaken(weights: seq<int>, values: seq<int>, i: nat, w: int)
    requires 0 < i <= |weights| <= |values|
    requires Best(weights, values, i, w) != Best(weights, values, i - 1, w)
    ensures weights[i - 1] <= w
    ensures Best(weights, values, i, w) == values[i - 1] + Best(weights, values, i - 1, w - weights[i - 1])
  {
  }

  /** An item below every chosen one can be put in front of the choice. */
  lemma ChoiceCons(idx: seq<nat>, x: nat, n: nat)
    requires Choice(idx, n) && x < n
    requires forall k :: 0 <= k < |idx| ==> x < idx[k]
    ensures Choice([x] + idx, n)
  {
    var c := [x] + idx;
    forall k | 0 < k < |c| ensures c[k] == idx[k - 1] {
    }
  }

  /** The sum over a choice that starts with `x`. */
  lemma SumAtCons(vals: seq<int>, idx: seq<nat>, x: nat)
    requires forall k :: 0 <= k < |idx| ==> idx[k] < |vals|
    requires x < |vals|
    ensures SumAt(vals, [x] + idx) == vals[x] + SumAt(vals, idx)
  {
    assert ([x] + idx)[1..] == idx;
  }

  /**
   * `compute_optimized`: one row, each item folded in from `capacity` down
   * to its weight so that `dp[w - weight]` still holds the previous row.
   */
  method ComputeOptimized(weights: seq<int>, values: seq<int>, capacity: int) returns (best: int)
    requires Instance(weights, values, capacity)
    ensures best == Best(weights, values, |weights|, capacity)
  {
    var n := |weights|;
    var dp := new int[capacity + 1](w => 0);
    for i := 0 to n
      invariant forall w {:trigger dp[w]} :: 0 <= w <= capacity ==> dp[w] == Best(weights, values, i, w)
    {
      var w := capacity;
      while w >= weights[i]
        invariant w <= capacity && (weights[i] - 1 <= w || w == capacity)
        invariant forall v {:trigger dp[v]} :: w < v <= capacity ==> dp[v] == Best(weights, values, i + 1, v)
        invariant forall v {:trigger dp[v]} :: 0 <= v <= w ==> dp[v] == Best(weights, values, i, v)
      {
        dp[w] := Max(dp[w], values[i] + dp[w - weights[i]]);
        w := w - 1;
      }
    }
    best := dp[capacity];
  }

  /**
   * `compute_optimized_with_items`: the same table walk as
   * `compute_with_items`.
   */
  method ComputeOptimizedWithItems(weights: seq<int>, values: seq<int>, capacity: int) returns (best: int, items: seq<nat>)
    requires Instance(weights, values, capacity)
    ensures best == Best(weights, values, |weights|, capacity)
    ensures Choice(items, |weights|)
    ensures SumAt(weights, items) <= capacity && SumAt(values, items) == best
  {
    best, items := ComputeWithItems(weights, values, capacity);
  }
}
