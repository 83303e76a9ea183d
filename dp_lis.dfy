/**
 * lab09 `LIS`: the longest strictly increasing subsequence of a list of
 * integers, by the quadratic table of lengths ending at each position, one
 * such subsequence recovered through `parent` links, and the length again
 * by the `tails` list kept with `bisect_left`.  `EndLen(i)` is the
 * table's recurrence and `Longest(n)` its maximum; the lemmas prove that
 * no increasing subsequence is longer, and every method is proved to
 * return `Longest`.
 */
module IncreasingSubsequence {
  import opened Wrappers
  import opened Ordering

  /** Strictly increasing. */
  ghost predicate Increasing(s: seq<int>)
  {
    forall a, b :: 0 <= a < b < |s| ==> s[a] < s[b]
  }

  function Larger(x: nat, y: nat): nat { if x >= y then x else y }

  /** `dp[i]`: the longest increasing subsequence that ends at position `i`. */
  function EndLen(arr: seq<int>, i: nat): nat
    requires i < |arr|
    decreases i, i + 1
  {
    EndFold(arr, i, i)
  }

  /** `dp[i]` after the inner loop has looked at the positions below `j`. */
  function EndFold(arr: seq<int>, i: nat, j: nat): nat
    requires j <= i < |arr|
    decreases i, j
  {
    if j == 0 then 1
    else if arr[j - 1] < arr[i] then Larger(EndFold(arr, i, j - 1), EndLen(arr, j - 1) + 1)
    else EndFold(arr, i, j - 1)
  }

  /** `max(dp[..i])`, `0` for no positions. */
  function Longest(arr: seq<int>, i: nat): nat
    requires i <= |arr|
  {
    if i == 0 then 0 else Larger(Longest(arr, i - 1), EndLen(arr, i - 1))
  }

  // -----------------------------------------------------------------------
  // What `Longest` means

  lemma {:induction false} EndFoldAtLeastOne(arr: seq<int>, i: nat, j: nat)
    requires j <= i < |arr|
    ensures EndFold(arr, i, j) >= 1
  {
    if j > 0 {
      EndFoldAtLeastOne(arr, i, j - 1);
    }
  }

  /** An earlier smaller element `arr[j0]` extends its own best by one. */
  lemma {:induction false} EndFoldLower(arr: seq<int>, i: nat, j: nat, j0: nat)
    requires j0 < j <= i < |arr| && arr[j0] < arr[i]
    ensures EndFold(arr, i, j) >= EndLen(arr, j0) + 1
  {
    if j0 < j - 1 {
      EndFoldLower(arr, i, j - 1, j0);
    }
  }

  /** Every position below `i` is counted in `Longest(i)`. */
  lemma {:induction false} LongestAtLeast(arr: seq<int>, i: nat, j: nat)
    requires j < i <= |arr|
    ensures EndLen(arr, j) <= Longest(arr, i)
  {
    if j < i - 1 {
      LongestAtLeast(arr, i - 1, j);
    }
  }

  /** Positions `idx` of an increasing subsequence ending at `idx[|idx| - 1]`. */
  ghost predicate Chain(arr: seq<int>, idx: seq<nat>)
  {
    (forall k :: 0 <= k < |idx| ==> idx[k] < |arr|) &&
    (forall k, l :: 0 <= k < l < |idx| ==> idx[k] < idx[l] && arr[idx[k]] < arr[idx[l]])
  }

  /** An increasing subsequence ending at position `i` is at most `EndLen(i)` long. */
  lemma {:induction false} ChainBound(arr: seq<int>, idx: seq<nat>)
    requires Chain(arr, idx) && idx != []
    ensures |idx| <= EndLen(arr, idx[|idx| - 1])
  {
    var i := idx[|idx| - 1];
    EndFoldAtLeastOne(arr, i, i);
    if |idx| > 1 {
      var init := idx[..|idx| - 1];
      assert Chain(arr, init);
      ChainBound(arr, init);
      EndFoldLower(arr, i, i, init[|init| - 1]);
    }
  }

  /** No increasing subsequence of `arr` is longer than `Longest`. */
  lemma LongestIsUpperBound(arr: seq<int>, s: seq<int>)
    requires IsSubseq(s, arr) && Increasing(s)
    ensures |s| <= Longest(arr, |arr|)
  {
    if s != [] {
      var idx := SubseqIndices(s, arr);
      assert Chain(arr, idx);
      ChainBound(arr, idx);
      LongestAtLeast(arr, |arr|, idx[|idx| - 1]);
    }
  }

  // -----------------------------------------------------------------------
  // The quadratic table

  /** `dp` of `lis_length`. */
  method EndTable(arr: seq<int>) returns (dp: array<nat>)
    ensures dp.Length == |arr|
    ensures forall k {:trigger dp[k]} :: 0 <= k < |arr| ==> dp[k] == EndLen(arr, k)
  {
    var n := |arr|;
    dp := new nat[n](k => 1);
    for i := 0 to n
      invariant forall k {:trigger dp[k]} :: 0 <= k < i ==> dp[k] == EndLen(arr, k)
      invariant forall k :: i <= k < n ==> dp[k] == 1
    {
      for j := 0 to i
        invariant forall k {:trigger dp[k]} :: 0 <= k < i ==> dp[k] == EndLen(arr, k)
        invariant forall k :: i < k < n ==> dp[k] == 1
        invariant dp[i] == EndFold(arr, i, j)
      {
        if arr[j] < arr[i] {
          dp[i] := Larger(dp[i], dp[j] + 1);
        }
      }
    }
  }

  /** `lis_length(arr)`: `0` for an empty list, else `max(dp)`. */
  method LisLength(arr: seq<int>) returns (r: nat)
    ensures r == Longest(arr, |arr|)
  {
    var n := |arr|;
    if n == 0 {
      return 0;
    }
    var dp := EndTable(arr);
    r := dp[0];
    for k := 1 to n
      invariant r == Longest(arr, k)
    {
      r := Larger(r, dp[k]);
    }
  }

  /** `parent[i] = p` is right for `dp[i] = v`. */
  ghost predicate Linked(arr: seq<int>, i: nat, p: int, v: nat)
    requires i < |arr|
  {
    if p == -1 then v == 1 else 0 <= p < i && arr[p] < arr[i] && v == EndLen(arr, p) + 1
  }

  /**
   * The tables of `reconstruct`: `dp` as in `lis_length`, updated only on a
   * strict improvement, which also records the predecessor in `parent`.
   */
  method ParentTable(arr: seq<int>) returns (dp: array<nat>, parent: array<int>)
    ensures dp.Length == parent.Length == |arr|
    ensures forall k {:trigger dp[k]} :: 0 <= k < |arr| ==> dp[k] == EndLen(arr, k)
    ensures forall k :: 0 <= k < |arr| ==> Linked(arr, k, parent[k], dp[k])
  {
    var n := |arr|;
    dp := new nat[n](k => 1);
    parent := new int[n](k => -1);
    for i := 0 to n
      invariant forall k {:trigger dp[k]} :: 0 <= k < i ==> dp[k] == EndLen(arr, k) && Linked(arr, k, parent[k], dp[k])
      invariant forall k :: i <= k < n ==> dp[k] == 1 && parent[k] == -1
    {
      ParentRow(arr, dp, parent, i);
    }
  }

  /** The inner loop of `reconstruct` for position `i`. */
  method ParentRow(arr: seq<int>, dp: array<nat>, parent: array<int>, i: nat)
    requires dp.Length == parent.Length == |arr| && i < |arr|
    requires forall k {:trigger dp[k]} :: 0 <= k < i ==> dp[k] == EndLen(arr, k)
    requires dp[i] == 1 && parent[i] == -1
    modifies dp, parent
    ensures dp[i] == EndLen(arr, i) && Linked(arr, i, parent[i], dp[i])
    ensures forall k :: 0 <= k < |arr| && k != i ==> dp[k] == old(dp[k]) && parent[k] == old(parent[k])
  {
    for j := 0 to i
      invariant forall k :: 0 <= k < |arr| && k != i ==> dp[k] == old(dp[k]) && parent[k] == old(parent[k])
      invariant dp[i] == EndFold(arr, i, j) && Linked(arr, i, parent[i], dp[i])
    {
      LinkStep(arr, i, j);
      if arr[j] < arr[i] && dp[j] + 1 > dp[i] {
        dp[i] := dp[j] + 1;
        parent[i] := j;
      }
    }
  }

  /**
   * One step of the inner loop of `reconstruct`: a strict improvement
   * through `j` is the next fold and links `i` to `j`; anything else leaves
   * the fold as it was.
   */
  lemma LinkStep(arr: seq<int>, i: nat, j: nat)
    requires j < i < |arr|
    ensures arr[j] < arr[i] && EndLen(arr, j) + 1 > EndFold(arr, i, j) ==>
      EndFold(arr, i, j + 1) == EndLen(arr, j) + 1 && Linked(arr, i, j, EndFold(arr, i, j + 1))
    ensures !(arr[j] < arr[i] && EndLen(arr, j) + 1 > EndFold(arr, i, j)) ==>
      EndFold(arr, i, j + 1) == EndFold(arr, i, j)
  {
  }

  /** `max(dp)` and `dp.index(max(dp))`: the largest length and the first position holding it. */
  method FirstMax(arr: seq<int>, dp: array<nat>) returns (maxLength: nat, maxIdx: nat)
    requires |arr| > 0 && dp.Length == |arr|
    requires forall k {:trigger dp[k]} :: 0 <= k < |arr| ==> dp[k] == EndLen(arr, k)
    ensures maxLength == Longest(arr, |arr|)
    ensures maxIdx < |arr| && EndLen(arr, maxIdx) == maxLength
    ensures forall k :: 0 <= k < maxIdx ==> EndLen(arr, k) < maxLength
  {
    maxLength, maxIdx := dp[0], 0;
    for k := 1 to |arr|
      invariant maxLength == Longest(arr, k) && maxIdx < k && dp[maxIdx] == maxLength
      invariant forall k' :: 0 <= k' < maxIdx ==> EndLen(arr, k') < maxLength
    {
      if dp[k] > maxLength {
        forall k' | 0 <= k' < k ensures EndLen(arr, k') < dp[k] {
          LongestAtLeast(arr, k, k');
        }
        maxLength, maxIdx := dp[k], k;
      }
    }
  }

  /** One step of the walk: `arr[idx]` goes in front and `idx` moves to its predecessor `p`. */
  lemma ParentStep(arr: seq<int>, r: seq<int>, idx: nat, p: int)
    requires idx < |arr| && IsSubseq(r, arr[idx + 1..]) && Increasing(r)
    requires r != [] ==> arr[idx] < r[0]
    requires p == -1 || (0 <= p < idx && arr[p] < arr[idx])
    ensures IsSubseq([arr[idx]] + r, arr[p + 1..]) && Increasing([arr[idx]] + r)
    ensures 0 <= p ==> arr[p] < arr[idx]
  {
    SubseqPrepend(r, arr, idx + 1);
    SubseqWiden([arr[idx]] + r, arr, p + 1, idx);
    IncreasingCons(arr[idx], r);
  }

  /** A value below the head of an increasing sequence extends it. */
  lemma IncreasingCons(x: int, r: seq<int>)
    requires Increasing(r) && (r != [] ==> x < r[0])
    ensures Increasing([x] + r)
  {
    var s := [x] + r;
    forall a, b | 0 <= a < b < |s| ensures s[a] < s[b] {
      if a == 0 {
        assert s[b] == r[b - 1];
        if b > 1 {
          assert r[0] < r[b - 1];
        }
      } else {
        assert s[a] == r[a - 1] && s[b] == r[b - 1];
      }
    }
  }

  /**
   * The walk of `reconstruct` from `start` along `parent`: read backwards,
   * the values collected are an increasing subsequence of `arr` of length
   * `EndLen(start)`.
   */
  method FollowParents(arr: seq<int>, dp: array<nat>, parent: array<int>, start: nat) returns (collected: seq<int>)
    requires dp.Length == parent.Length == |arr| && start < |arr|
    requires forall k {:trigger dp[k]} :: 0 <= k < |arr| ==> dp[k] == EndLen(arr, k) && Linked(arr, k, parent[k], dp[k])
    ensures IsSubseq(Reverse(collected), arr) && Increasing(Reverse(collected))
    ensures |collected| == EndLen(arr, start)
  {
    collected := [];
    ghost var r: seq<int> := [];
    var idx: int := start;
    while idx != -1
      invariant -1 <= idx < |arr|
      invariant r == Reverse(collected)
      invariant IsSubseq(r, arr[idx + 1..]) && Increasing(r)
      invariant 0 <= idx && r != [] ==> arr[idx] < r[0]
      invariant 0 <= idx ==> |collected| + EndLen(arr, idx) == EndLen(arr, start)
      invariant idx == -1 ==> |collected| == EndLen(arr, start)
      decreases idx + 1
    {
      assert Linked(arr, idx, parent[idx], dp[idx]);
      var p := parent[idx];
      ParentStep(arr, r, idx, p);
      ReverseSnoc(collected, arr[idx]);
      collected := collected + [arr[idx]];
      r := [arr[idx]] + r;
      idx := p;
    }
    assert arr[0..] == arr;
  }

  /**
   * `reconstruct(arr)`: from the first position holding `max(dp)`, the
   * values along `parent` are collected and reversed.  The result is an
   * increasing subsequence of `arr` of the largest length.
   */
  method Reconstruct(arr: seq<int>) returns (lis: seq<int>)
    ensures IsSubseq(lis, arr) && Increasing(lis)
    ensures |lis| == Longest(arr, |arr|)
  {
    if |arr| == 0 {
      return [];
    }
    var dp, parent := ParentTable(arr);
    var maxLength, maxIdx := FirstMax(arr, dp);
    var collected := FollowParents(arr, dp, parent, maxIdx);
    lis := Reverse(collected);
  }

  // -----------------------------------------------------------------------
  // The `tails` list

  /**
   * `bisect.bisect_left(a, x)` on a sorted list: the position before which
   * every element is smaller than `x` and from which none is.
   */
  method BisectLeft(a: seq<int>, x: int) returns (pos: nat)
    requires Sorted(a)
    ensures pos <= |a|
    ensures forall k :: 0 <= k < pos ==> a[k] < x
    ensures forall k :: pos <= k < |a| ==> a[k] >= x
  {
    var lo, hi := 0, |a|;
    while lo < hi
      invariant 0 <= lo <= hi <= |a|
      invariant forall k :: 0 <= k < lo ==> a[k] < x
      invariant forall k :: hi <= k < |a| ==> a[k] >= x
    {
      var mid := (lo + hi) / 2;
      if a[mid] < x {
        lo := mid + 1;
      } else {
        hi := mid;
      }
    }
    pos := lo;
  }

  /** The least last element of an increasing subsequence of length `len` among the first `i` positions. */
  function MinEnd(arr: seq<int>, i: nat, len: nat): Option<int>
    requires i <= |arr|
  {
    if i == 0 then None
    else
      var m := MinEnd(arr, i - 1, len);
      if EndLen(arr, i - 1) >= len && (m.None? || arr[i - 1] < m.value) then Some(arr[i - 1]) else m
  }

  /** Some subsequence of length `len` exists exactly up to `Longest(i)`. */
  lemma {:induction false} MinEndExists(arr: seq<int>, i: nat, len: nat)
    requires i <= |arr| && len >= 1
    ensures MinEnd(arr, i, len).Some? <==> len <= Longest(arr, i)
  {
    if i > 0 {
      MinEndExists(arr, i - 1, len);
    }
  }

  /** `MinEnd` is no larger than any candidate ... */
  lemma {:induction false} MinEndBelow(arr: seq<int>, i: nat, len: nat, j: nat)
    requires j < i <= |arr| && EndLen(arr, j) >= len
    ensures MinEnd(arr, i, len).Some? && MinEnd(arr, i, len).value <= arr[j]
  {
    if j < i - 1 {
      MinEndBelow(arr, i - 1, len, j);
    }
  }

  /** ... and is one of them. */
  lemma {:induction false} MinEndWitness(arr: seq<int>, i: nat, len: nat) returns (j: nat)
    requires i <= |arr| && MinEnd(arr, i, len).Some?
    ensures j < i && EndLen(arr, j) >= len && arr[j] == MinEnd(arr, i, len).value
  {
    var m := MinEnd(arr, i - 1, len);
    if EndLen(arr, i - 1) >= len && (m.None? || arr[i - 1] < m.value) {
      j := i - 1;
    } else {
      j := MinEndWitness(arr, i - 1, len);
    }
  }

  /** What `tails` holds after the first `i` elements. */
  ghost predicate Tails(arr: seq<int>, i: nat, tails: seq<int>)
    requires i <= |arr|
  {
    |tails| == Longest(arr, i) &&
    (forall k :: 0 <= k < |tails| ==> MinEnd(arr, i, k + 1) == Some(tails[k])) &&
    Increasing(tails)
  }

  /** When no smaller earlier element has a best above `p`, the fold stays at most `p + 1`. */
  lemma {:induction false} EndFoldUpper(arr: seq<int>, i: nat, j: nat, p: nat)
    requires j <= i < |arr|
    requires forall j' {:trigger arr[j']} :: 0 <= j' < j && arr[j'] < arr[i] ==> EndLen(arr, j') <= p
    ensures EndFold(arr, i, j) <= p + 1
  {
    if j > 0 {
      EndFoldUpper(arr, i, j - 1, p);
      if arr[j - 1] < arr[i] {
        assert EndLen(arr, j - 1) <= p;
      }
    }
  }

  /** A subsequence of length `pos` ending below `arr[i]` makes `EndLen(i)` at least `pos + 1`. */
  lemma EndLenAtLeast(arr: seq<int>, i: nat, pos: nat)
    requires i < |arr|
    requires pos > 0 ==> MinEnd(arr, i, pos).Some? && MinEnd(arr, i, pos).value < arr[i]
    ensures EndLen(arr, i) >= pos + 1
  {
    EndFoldAtLeastOne(arr, i, i);
    if pos > 0 {
      var j := MinEndWitness(arr, i, pos);
      EndFoldLower(arr, i, i, j);
    }
  }

  /** When no subsequence of length `pos + 1` ends below `arr[i]`, `EndLen(i)` is at most `pos + 1`. */
  lemma EndLenAtMost(arr: seq<int>, i: nat, pos: nat)
    requires i < |arr|
    requires MinEnd(arr, i, pos + 1).None? || MinEnd(arr, i, pos + 1).value >= arr[i]
    ensures EndLen(arr, i) <= pos + 1
  {
    forall j' | 0 <= j' < i && arr[j'] < arr[i] ensures EndLen(arr, j') <= pos {
      if EndLen(arr, j') > pos {
        MinEndBelow(arr, i, pos + 1, j');
      }
    }
    EndFoldUpper(arr, i, i, pos);
  }

  /** `arr[i]` lands at `bisect_left(tails, arr[i])`, which is one less than its `EndLen`. */
  lemma EndLenIsPosition(arr: seq<int>, i: nat, tails: seq<int>, pos: nat)
    requires i < |arr| && Tails(arr, i, tails) && pos <= |tails|
    requires forall k :: 0 <= k < pos ==> tails[k] < arr[i]
    requires forall k :: pos <= k < |tails| ==> tails[k] >= arr[i]
    ensures EndLen(arr, i) == pos + 1
  {
    if pos > 0 {
      assert MinEnd(arr, i, pos) == Some(tails[pos - 1]);
    }
    EndLenAtLeast(arr, i, pos);
    if pos < |tails| {
      assert MinEnd(arr, i, pos + 1) == Some(tails[pos]);
    } else {
      MinEndExists(arr, i, pos + 1);
    }
    EndLenAtMost(arr, i, pos);
  }

  /**
   * `length_optimized(arr)`: each element replaces the first tail that is
   * not smaller than it, or is appended; the answer is the number of tails.
   */
  method LengthOptimized(arr: seq<int>) returns (r: nat)
    ensures r == Longest(arr, |arr|)
  {
    var tails: seq<int> := [];
    for i := 0 to |arr|
      invariant Tails(arr, i, tails)
    {
      var num := arr[i];
      var pos := BisectLeft(tails, num);
      EndLenIsPosition(arr, i, tails, pos);
      if pos == |tails| {
        MinEndExists(arr, i, pos + 1);
        tails := tails + [num];
      } else {
        tails := tails[pos := num];
      }
    }
    r := |tails|;
  }
}
