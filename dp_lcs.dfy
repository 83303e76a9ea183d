/**
 * lab09 `LCS`: the longest common subsequence of two strings by the
 * `(m+1) x (n+1)` table, its length, and one such subsequence recovered by
 * walking the table back from the corner.  `Lcs(i, j)` is the table's
 * recurrence; it is proved to bound every common subsequence of the
 * prefixes, and `LcsFind` returns a common subsequence of that length.
 */
module LongestCommonSubsequence {
  import opened Ordering

  /** `dp[i][j]` for the prefixes `a[..i]` and `b[..j]`. */
  function Lcs(a: string, b: string, i: nat, j: nat): nat
    requires i <= |a| && j <= |b|
  {
    if i == 0 || j == 0 then 0
    else if a[i - 1] == b[j - 1] then Lcs(a, b, i - 1, j - 1) + 1
    else Larger(Lcs(a, b, i - 1, j), Lcs(a, b, i, j - 1))
  }

  function Larger(x: nat, y: nat): nat { if x >= y then x else y }

  /** `s` is a subsequence of both strings. */
  ghost predicate Common(s: string, a: string, b: string)
  {
    IsSubseq(s, a) && IsSubseq(s, b)
  }

  /** No common subsequence of `a[..i]` and `b[..j]` is longer than `Lcs(i, j)`. */
  lemma {:induction false} LcsIsUpperBound(a: string, b: string, i: nat, j: nat, s: string)
    requires i <= |a| && j <= |b| && Common(s, a[..i], b[..j])
    ensures |s| <= Lcs(a, b, i, j)
    decreases i + j
  {
    if s == [] {
    } else if i == 0 || j == 0 {
    } else {
      assert a[..i] == a[..i - 1] + [a[i - 1]];
      assert b[..j] == b[..j - 1] + [b[j - 1]];
      var last := s[|s| - 1];
      if a[i - 1] == b[j - 1] {
        SubseqDropLast(s, a[..i - 1], a[i - 1]);
        SubseqDropLast(s, b[..j - 1], b[j - 1]);
        LcsIsUpperBound(a, b, i - 1, j - 1, s[..|s| - 1]);
      } else if last != a[i - 1] {
        SubseqPastLast(s, a[..i - 1], a[i - 1]);
        LcsIsUpperBound(a, b, i - 1, j, s);
      } else {
        SubseqPastLast(s, b[..j - 1], b[j - 1]);
        LcsIsUpperBound(a, b, i, j - 1, s);
      }
    }
  }

  /** The table does not depend on which string is the row. */
  lemma {:induction false} LcsSymmetric(a: string, b: string, i: nat, j: nat)
    requires i <= |a| && j <= |b|
    ensures Lcs(a, b, i, j) == Lcs(b, a, j, i)
    decreases i + j
  {
    if i > 0 && j > 0 {
      LcsSymmetric(a, b, i - 1, j - 1);
      LcsSymmetric(a, b, i - 1, j);
      LcsSymmetric(a, b, i, j - 1);
    }
  }

  /** A common subsequence is no longer than either prefix. */
  lemma {:induction false} LcsAtMostPrefixes(a: string, b: string, i: nat, j: nat)
    requires i <= |a| && j <= |b|
    ensures Lcs(a, b, i, j) <= i && Lcs(a, b, i, j) <= j
    decreases i + j
  {
    if i > 0 && j > 0 {
      LcsAtMostPrefixes(a, b, i - 1, j - 1);
      LcsAtMostPrefixes(a, b, i - 1, j);
      LcsAtMostPrefixes(a, b, i, j - 1);
    }
  }

  /** `get_matrix(text1, text2)`: the whole table, shared by the other two operations. */
  method GetMatrix(a: string, b: string) returns (dp: array2<nat>)
    ensures dp.Length0 == |a| + 1 && dp.Length1 == |b| + 1
    ensures forall i, j {:trigger dp[i, j]} :: 0 <= i <= |a| && 0 <= j <= |b| ==> dp[i, j] == Lcs(a, b, i, j)
  {
    var m, n := |a|, |b|;
    dp := new nat[m + 1, n + 1]((i, j) => 0);
    for i := 1 to m + 1
      invariant forall i', j {:trigger dp[i', j]} :: 0 <= i' < i && 0 <= j <= n ==> dp[i', j] == Lcs(a, b, i', j)
      invariant forall i' :: i <= i' <= m ==> dp[i', 0] == 0
    {
      FillRow(a, b, dp, i);
    }
  }

  /** Row `i` of `get_matrix`, from the row above and the entry to the left. */
  method FillRow(a: string, b: string, dp: array2<nat>, i: nat)
    requires dp.Length0 == |a| + 1 && dp.Length1 == |b| + 1 && 0 < i <= |a|
    requires forall i', j {:trigger dp[i', j]} :: 0 <= i' < i && 0 <= j <= |b| ==> dp[i', j] == Lcs(a, b, i', j)
    requires dp[i, 0] == 0
    modifies dp
    ensures forall j {:trigger dp[i, j]} :: 0 <= j <= |b| ==> dp[i, j] == Lcs(a, b, i, j)
    ensures forall i', j {:trigger dp[i', j]} :: 0 <= i' <= |a| && i' != i && 0 <= j <= |b| ==> dp[i', j] == old(dp[i', j])
  {
    for j := 1 to |b| + 1
      invariant forall i', j' {:trigger dp[i', j']} :: 0 <= i' <= |a| && i' != i && 0 <= j' <= |b| ==> dp[i', j'] == old(dp[i', j'])
      invariant forall j' {:trigger dp[i, j']} :: 0 <= j' < j ==> dp[i, j'] == Lcs(a, b, i, j')
    {
      if a[i - 1] == b[j - 1] {
        dp[i, j] := dp[i - 1, j - 1] + 1;
      } else {
        dp[i, j] := Larger(dp[i - 1, j], dp[i, j - 1]);
      }
    }
  }

  /** `lcs_length(text1, text2)`: `dp[m][n]`. */
  method LcsLength(a: string, b: string) returns (len: nat)
    ensures len == Lcs(a, b, |a|, |b|)
  {
    var dp := GetMatrix(a, b);
    len := dp[|a|, |b|];
  }

  /**
   * The walk of `lcs_find` has reached `(i, j)`: read backwards, what it
   * collected is a common subsequence of the suffixes `a[i..]` and
   * `b[j..]`, and `Lcs(i, j)` is what is still to come.
   */
  ghost predicate Walked(a: string, b: string, i: nat, j: nat, lcs: string)
  {
    i <= |a| && j <= |b| &&
    Common(Reverse(lcs), a[i..], b[j..]) &&
    |lcs| + Lcs(a, b, i, j) == Lcs(a, b, |a|, |b|)
  }

  /** A match is collected and both indices step back. */
  lemma WalkMatch(a: string, b: string, i: nat, j: nat, lcs: string)
    requires Walked(a, b, i, j, lcs) && 0 < i && 0 < j && a[i - 1] == b[j - 1]
    ensures Walked(a, b, i - 1, j - 1, lcs + [a[i - 1]])
  {
    var r := Reverse(lcs);
    ReverseSnoc(lcs, a[i - 1]);
    SubseqPrepend(r, a, i);
    SubseqPrepend(r, b, j);
  }

  /** No match, and the row above holds more: `i` steps back. */
  lemma WalkUp(a: string, b: string, i: nat, j: nat, lcs: string)
    requires Walked(a, b, i, j, lcs) && 0 < i && 0 < j && a[i - 1] != b[j - 1]
    requires Lcs(a, b, i - 1, j) > Lcs(a, b, i, j - 1)
    ensures Walked(a, b, i - 1, j, lcs)
  {
    SubseqWiden(Reverse(lcs), a, i - 1, i);
  }

  /** No match, and the column to the left holds as much: `j` steps back. */
  lemma WalkLeft(a: string, b: string, i: nat, j: nat, lcs: string)
    requires Walked(a, b, i, j, lcs) && 0 < i && 0 < j && a[i - 1] != b[j - 1]
    requires Lcs(a, b, i - 1, j) <= Lcs(a, b, i, j - 1)
    ensures Walked(a, b, i, j - 1, lcs)
  {
    SubseqWiden(Reverse(lcs), b, j - 1, j);
  }

  /** Once a string is used up, the collected characters fit the whole strings. */
  lemma WalkDone(a: string, b: string, i: nat, j: nat, lcs: string)
    requires Walked(a, b, i, j, lcs) && (i == 0 || j == 0)
    ensures Common(Reverse(lcs), a, b)
    ensures |lcs| == Lcs(a, b, |a|, |b|)
  {
    SubseqWiden(Reverse(lcs), a, 0, i);
    SubseqWiden(Reverse(lcs), b, 0, j);
    assert a[0..] == a && b[0..] == b;
  }

  /**
   * The walk of `lcs_find` from `(m, n)`: a match is collected and both
   * indices step back; otherwise the index whose step keeps the larger
   * table value steps back, `j` on a tie.  Read backwards, the collected
   * characters are a common subsequence as long as the table says.
   */
  method WalkBack(a: string, b: string, dp: array2<nat>) returns (lcs: string)
    requires dp.Length0 == |a| + 1 && dp.Length1 == |b| + 1
    requires forall i, j {:trigger dp[i, j]} :: 0 <= i <= |a| && 0 <= j <= |b| ==> dp[i, j] == Lcs(a, b, i, j)
    ensures Common(Reverse(lcs), a, b)
    ensures |lcs| == Lcs(a, b, |a|, |b|)
  {
    lcs := [];
    var i, j := |a|, |b|;
    assert a[i..] == [] && b[j..] == [];
    while i > 0 && j > 0
      invariant 0 <= i && 0 <= j && Walked(a, b, i, j, lcs)
      decreases i + j
    {
      if a[i - 1] == b[j - 1] {
        WalkMatch(a, b, i, j, lcs);
        lcs := lcs + [a[i - 1]];
        i, j := i - 1, j - 1;
      } else if dp[i - 1, j] > dp[i, j - 1] {
        WalkUp(a, b, i, j, lcs);
        i := i - 1;
      } else {
        WalkLeft(a, b, i, j, lcs);
        j := j - 1;
      }
    }
    WalkDone(a, b, i, j, lcs);
  }

  /**
   * `lcs_find(text1, text2)`: the table, the walk back, and the collected
   * characters reversed.  The result is a common subsequence no shorter
   * than any other.
   */
  method LcsFind(a: string, b: string) returns (s: string)
    ensures Common(s, a, b)
    ensures |s| == Lcs(a, b, |a|, |b|)
    ensures forall t :: Common(t, a, b) ==> |t| <= |s|
  {
    var dp := GetMatrix(a, b);
    var lcs := WalkBack(a, b, dp);
    s := Reverse(lcs);
    assert a[..|a|] == a && b[..|b|] == b;
    forall t | Common(t, a, b) ensures |t| <= |s| {
      LcsIsUpperBound(a, b, |a|, |b|, t);
    }
  }
}
