/**
 * lab09 `FibSeries`: four ways to compute the Fibonacci numbers, extended
 * to every integer by `F(n) = n` for `n <= 1`.  Each method is proved to
 * return `FibN(n)`, so all four agree, and `FibN` agrees with lab03's `Fib`.
 */
module FibSeries {
  import opened Wrappers
  import Recursion

  /**
   * `naive_recursive(n)`: `n` for `n <= 1`, else `F(n-1) + F(n-2)`.  A
   * negative argument comes back unchanged; from 1 on the numbers are
   * positive.
   */
  function FibN(n: int): (r: int)
    ensures n <= 0 ==> r == n
    ensures n >= 1 ==> r >= 1
    decreases if n < 0 then 0 else n
  {
    if n <= 1 then n else FibN(n - 1) + FibN(n - 2)
  }

  /**
   * On the arguments lab03 accepts, `naive_recursive` is lab03's Fibonacci;
   * below 2 it returns its argument, negative ones included.
   */
  lemma {:induction false} FibNIsFib(n: int)
    ensures n <= 1 ==> FibN(n) == n
    ensures n >= 0 ==> FibN(n) == Recursion.Fib(n)
    ensures n >= 2 ==> FibN(n) == FibN(n - 1) + FibN(n - 2)
    decreases if n < 0 then 0 else n
  {
    if n >= 2 {
      FibNIsFib(n - 1);
      FibNIsFib(n - 2);
    }
  }

  /** A memo table holds only Fibonacci numbers. */
  ghost predicate Sound(memo: map<int, int>)
  {
    forall k {:trigger memo[k]} :: k in memo ==> memo[k] == FibN(k)
  }

  /**
   * `memoized(n, memo)`: the dictionary the recursive calls share is
   * threaded through as `memo` in and `table` out.  An entry for `n` is
   * returned as is; below 2 the answer is `n`; otherwise both smaller
   * values are computed and `n` is recorded.  No entry is ever lost or
   * changed.
   */
  method MemoizedWith(n: int, memo: map<int, int>) returns (r: int, table: map<int, int>)
    requires Sound(memo)
    ensures r == FibN(n) && Sound(table)
    ensures forall k :: k in memo ==> k in table && table[k] == memo[k]
    ensures n >= 2 ==> n in table
    ensures n in memo ==> table == memo
    decreases if n < 0 then 0 else n
  {
    if n in memo {
      return memo[n], memo;
    }
    if n <= 1 {
      return n, memo;
    }
    var a, t1 := MemoizedWith(n - 1, memo);
    var b, t2 := MemoizedWith(n - 2, t1);
    table := t2[n := a + b];
    r := table[n];
  }

  /** `memoized(n, memo=None)`: `None` starts from an empty dictionary. */
  method Memoized(n: int, memo: Option<map<int, int>>) returns (r: int, table: map<int, int>)
    requires memo.Some? ==> Sound(memo.value)
    ensures r == FibN(n) && Sound(table)
    ensures memo.Some? ==> forall k :: k in memo.value ==> k in table && table[k] == memo.value[k]
  {
    var m := if memo.Some? then memo.value else map[];
    r, table := MemoizedWith(n, m);
  }

  /** `bottom_up(n)`: fill `dp[0..n]` upwards and return `dp[n]`. */
  method BottomUp(n: int) returns (r: int)
    ensures r == FibN(n)
  {
    if n <= 1 {
      return n;
    }
    var dp := new int[n + 1];
    dp[0], dp[1] := 0, 1;
    for i := 2 to n + 1
      invariant forall k {:trigger dp[k]} :: 0 <= k < i ==> dp[k] == FibN(k)
    {
      dp[i] := dp[i - 1] + dp[i - 2];
    }
    r := dp[n];
  }

  /** `bottom_up_optimized(n)`: keep only the last two values. */
  method BottomUpOptimized(n: int) returns (r: int)
    ensures r == FibN(n)
  {
    if n <= 1 {
      return n;
    }
    var prev, curr := 0, 1;
    for i := 2 to n + 1
      invariant prev == FibN(i - 2) && curr == FibN(i - 1)
    {
      prev, curr := curr, prev + curr;
    }
    r := curr;
  }
}
