/**
 * lab09 `Levenshtein`: the edit distance of two strings by the full
 * `(m+1) x (n+1)` table and by two rows swapped after each step.
 * `Dist(i, j)` is the table's recurrence; the lemmas prove it symmetric,
 * zero exactly between equal prefixes and bounded by the lengths, and both
 * methods are proved to return it.
 */
module Levenshtein {

  /** `dp[i][j]` for the prefixes `a[..i]` and `b[..j]`. */
  function Dist(a: string, b: string, i: nat, j: nat): nat
    requires i <= |a| && j <= |b|
  {
    if i == 0 then j
    else if j == 0 then i
    else if a[i - 1] == b[j - 1] then Dist(a, b, i - 1, j - 1)
    else 1 + Min3(Dist(a, b, i - 1, j), Dist(a, b, i, j - 1), Dist(a, b, i - 1, j - 1))
  }

  function Min3(x: nat, y: nat, z: nat): nat
  {
    if x <= y && x <= z then x else if y <= z then y else z
  }

  /** Swapping the two words does not change the distance. */
  lemma {:induction false} DistSymmetric(a: string, b: string, i: nat, j: nat)
    requires i <= |a| && j <= |b|
    ensures Dist(a, b, i, j) == Dist(b, a, j, i)
    decreases i + j
  {
    if i > 0 && j > 0 {
      DistSymmetric(a, b, i - 1, j - 1);
      if a[i - 1] != b[j - 1] {
        DistSymmetric(a, b, i - 1, j);
        DistSymmetric(a, b, i, j - 1);
      }
    }
  }

  /** The distance is zero exactly when the two prefixes are equal. */
  lemma {:induction false} DistZeroIffEqual(a: string, b: string, i: nat, j: nat)
    requires i <= |a| && j <= |b|
    ensures Dist(a, b, i, j) == 0 <==> a[..i] == b[..j]
    decreases i + j
  {
    if i > 0 && j > 0 {
      DistZeroIffEqual(a, b, i - 1, j - 1);
      assert a[..i] == a[..i - 1] + [a[i - 1]];
      assert b[..j] == b[..j - 1] + [b[j - 1]];
      if a[..i] == b[..j] {
        assert a[..i][i - 1] == b[..j][j - 1];
        assert a[..i - 1] == a[..i][..i - 1];
        assert b[..j - 1] == b[..j][..j - 1];
      }
    } else if a[..i] == b[..j] {
      assert |a[..i]| == i && |b[..j]| == j;
    }
  }

  /** At least the difference of the lengths: that many insertions are needed. */
  lemma {:induction false} DistAtLeastLengthGap(a: string, b: string, i: nat, j: nat)
    requires i <= |a| && j <= |b|
    ensures Dist(a, b, i, j) >= i - j && Dist(a, b, i, j) >= j - i
    decreases i + j
  {
    if i > 0 && j > 0 {
      DistAtLeastLengthGap(a, b, i - 1, j - 1);
      if a[i - 1] != b[j - 1] {
        DistAtLeastLengthGap(a, b, i - 1, j);
        DistAtLeastLengthGap(a, b, i, j - 1);
      }
    }
  }

  /** At most the longer length: replace along the shorter word, insert the rest. */
  lemma {:induction false} DistAtMostLonger(a: string, b: string, i: nat, j: nat)
    requires i <= |a| && j <= |b|
    ensures Dist(a, b, i, j) <= if i >= j then i else j
    decreases i + j
  {
    if i > 0 && j > 0 {
      DistAtMostLonger(a, b, i - 1, j - 1);
    }
  }

  /** `get_matrix(word1, word2)`: the whole table, which `compute_distance` reads at `(m, n)`. */
  method GetMatrix(a: string, b: string) returns (dp: array2<nat>)
    ensures dp.Length0 == |a| + 1 && dp.Length1 == |b| + 1
    ensures forall i, j {:trigger dp[i, j]} :: 0 <= i <= |a| && 0 <= j <= |b| ==> dp[i, j] == Dist(a, b, i, j)
  {
    var m, n := |a|, |b|;
    dp := new nat[m + 1, n + 1]((i, j) => 0);
    for i := 0 to m + 1
      invariant forall i' {:trigger dp[i', 0]} :: 0 <= i' < i ==> dp[i', 0] == i'
    {
      dp[i, 0] := i;
    }
    for j := 0 to n + 1
      invariant forall i' {:trigger dp[i', 0]} :: 1 <= i' <= m ==> dp[i', 0] == i'
      invariant forall j' {:trigger dp[0, j']} :: 0 <= j' < j ==> dp[0, j'] == j'
    {
      dp[0, j] := j;
    }
    for i := 1 to m + 1
      invariant forall i', j {:trigger dp[i', j]} :: 0 <= i' < i && 0 <= j <= n ==> dp[i', j] == Dist(a, b, i', j)
      invariant forall i' {:trigger dp[i', 0]} :: i <= i' <= m ==> dp[i', 0] == i'
    {
      for j := 1 to n + 1
        invariant forall i', j' {:trigger dp[i', j']} :: 0 <= i' < i && 0 <= j' <= n ==> dp[i', j'] == Dist(a, b, i', j')
        invariant forall j' {:trigger dp[i, j']} :: 0 <= j' < j ==> dp[i, j'] == Dist(a, b, i, j')
        invariant forall i' {:trigger dp[i', 0]} :: i < i' <= m ==> dp[i', 0] == i'
      {
        if a[i - 1] == b[j - 1] {
          dp[i, j] := dp[i - 1, j - 1];
        } else {
          dp[i, j] := 1 + Min3(dp[i - 1, j], dp[i, j - 1], dp[i - 1, j - 1]);
        }
      }
    }
  }

  /** `compute_distance(word1, word2)`: `dp[m][n]`. */
  method ComputeDistance(a: string, b: string) returns (d: nat)
    ensures d == Dist(a, b, |a|, |b|)
    ensures |b| == 0 ==> d == |a|
    ensures |a| == 0 ==> d == |b|
  {
    var dp := GetMatrix(a, b);
    d := dp[|a|, |b|];
  }

  /**
   * `compute_distance_optimized(word1, word2)`: the longer word indexes the
   * rows; `prev` starts as `0..n`, each row is built in `curr` from `prev`,
   * and the two arrays are swapped so that `prev` holds the row just built.
   */
  method ComputeDistanceOptimized(a: string, b: string) returns (d: nat)
    ensures d == Dist(a, b, |a|, |b|)
  {
    var w1, w2 := a, b;
    var m, n := |a|, |b|;
    if m < n {
      w1, w2 := b, a;
      m, n := n, m;
    }
    var prev := new nat[n + 1](k => k);
    var curr := new nat[n + 1](k => 0);
    for i := 1 to m + 1
      invariant fresh(prev) && fresh(curr)
      invariant prev != curr && prev.Length == n + 1 && curr.Length == n + 1
      invariant forall j {:trigger prev[j]} :: 0 <= j <= n ==> prev[j] == Dist(w1, w2, i - 1, j)
    {
      NextRow(w1, w2, prev, curr, i);
      prev, curr := curr, prev;
    }
    d := prev[n];
    if |a| < |b| {
      DistSymmetric(a, b, |a|, |b|);
    }
  }

  /** Row `i` of the table built in `curr` from row `i - 1` in `prev`. */
  method NextRow(a: string, b: string, prev: array<nat>, curr: array<nat>, i: nat)
    requires prev != curr && prev.Length == curr.Length == |b| + 1 && 0 < i <= |a|
    requires forall j {:trigger prev[j]} :: 0 <= j <= |b| ==> prev[j] == Dist(a, b, i - 1, j)
    modifies curr
    ensures forall j {:trigger curr[j]} :: 0 <= j <= |b| ==> curr[j] == Dist(a, b, i, j)
  {
    curr[0] := i;
    for j := 1 to |b| + 1
      invariant forall j' {:trigger curr[j']} :: 0 <= j' < j ==> curr[j'] == Dist(a, b, i, j')
    {
      if a[i - 1] == b[j - 1] {
        curr[j] := prev[j - 1];
      } else {
        curr[j] := 1 + Min3(prev[j], curr[j - 1], prev[j - 1]);
      }
    }
  }
}
