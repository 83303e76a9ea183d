/**
 * Orderings shared by the sorts and heaps: ascending order of a sequence by
 * an integer key, plain ascending order of integers, and the exchange of
 * two positions that the in-place algorithms are built from.
 */
module Ordering {
  /** The key of a plain number: the number itself. */
  function Id(x: int): int { x }

  /** `s` is in non-decreasing order of `key`. */
  ghost predicate SortedBy<T>(s: seq<T>, key: T -> int)
  {
    forall i, j :: 0 <= i < j < |s| ==> key(s[i]) <= key(s[j])
  }

  /** `s` is in non-decreasing order. */
  ghost predicate Sorted(s: seq<int>)
  {
    forall i, j :: 0 <= i < j < |s| ==> s[i] <= s[j]
  }

  /** `s` with positions `i` and `j` exchanged. */
  function Swap<T>(s: seq<T>, i: nat, j: nat): (r: seq<T>)
    requires i < |s| && j < |s|
    ensures |r| == |s| && r[i] == s[j] && r[j] == s[i]
    ensures forall k :: 0 <= k < |s| && k != i && k != j ==> r[k] == s[k]
    ensures multiset(r) == multiset(s)
  {
    s[i := s[j]][j := s[i]]
  }

  /** The first element of a non-empty sorted sequence is its least. */
  lemma SortedHeadLeast(a: seq<int>, x: int)
    requires Sorted(a) && x in a
    ensures a[0] <= x
  {
    var j :| 0 <= j < |a| && a[j] == x;
    if j > 0 {
      assert a[0] <= a[j];
    }
  }

  /**
   * A sorted permutation is unique: two sorted sequences with the same
   * elements are equal.  This is why every correct sort returns the same
   * list.
   */
  lemma {:induction false} SortedPermutationUnique(a: seq<int>, b: seq<int>)
    requires Sorted(a) && Sorted(b) && multiset(a) == multiset(b)
    ensures a == b
    decreases |a|
  {
    assert |a| == |multiset(a)| == |multiset(b)| == |b|;
    if a != [] {
      SortedSameHead(a, b);
      MultisetHead(a);
      MultisetHead(b);
      SortedTail(a);
      SortedTail(b);
      assert multiset(a[1..]) == multiset(a) - multiset{a[0]};
      assert multiset(b[1..]) == multiset(b) - multiset{b[0]};
      SortedPermutationUnique(a[1..], b[1..]);
      SameHeadSameTail(a, b);
    }
  }

  /** Two non-empty sorted sequences with the same elements start alike. */
  lemma SortedSameHead(a: seq<int>, b: seq<int>)
    requires Sorted(a) && Sorted(b) && multiset(a) == multiset(b) && a != []
    ensures b != [] && a[0] == b[0]
  {
    assert a[0] in multiset(b);
    assert b != [];
    assert b[0] in multiset(a);
    SortedHeadLeast(a, b[0]);
    SortedHeadLeast(b, a[0]);
  }

  /** The elements of a non-empty sequence are its head and those of its tail. */
  lemma MultisetHead<T>(s: seq<T>)
    requires s != []
    ensures multiset(s) == multiset{s[0]} + multiset(s[1..])
  {
    assert s == [s[0]] + s[1..];
  }

  /** The tail of a sorted sequence is sorted. */
  lemma SortedTail(s: seq<int>)
    requires Sorted(s) && s != []
    ensures Sorted(s[1..])
  {
    forall i, j | 0 <= i < j < |s[1..]| ensures s[1..][i] <= s[1..][j] {
      assert s[1..][i] == s[i + 1] && s[1..][j] == s[j + 1];
    }
  }

  /** Sequences with the same head and the same tail are equal. */
  lemma SameHeadSameTail<T>(a: seq<T>, b: seq<T>)
    requires a != [] && b != [] && a[0] == b[0] && a[1..] == b[1..]
    ensures a == b
  {
    assert a == [a[0]] + a[1..];
    assert b == [b[0]] + b[1..];
  }

  /** `a` is `b` with some elements left out and the rest kept in order. */
  ghost predicate IsSubseq<T>(a: seq<T>, b: seq<T>)
    decreases |b|
  {
    a == [] || (b != [] && ((a[0] == b[0] && IsSubseq(a[1..], b[1..])) || IsSubseq(a, b[1..])))
  }

  /** A subsequence is no longer than, and takes its elements from, the whole. */
  lemma {:induction false} SubseqMembers<T>(a: seq<T>, b: seq<T>)
    requires IsSubseq(a, b)
    ensures |a| <= |b|
    ensures multiset(a) <= multiset(b)
    decreases |b|
  {
    if a != [] {
      assert b == [b[0]] + b[1..];
      if a[0] == b[0] && IsSubseq(a[1..], b[1..]) {
        SubseqMembers(a[1..], b[1..]);
        assert a == [a[0]] + a[1..];
      } else {
        SubseqMembers(a, b[1..]);
      }
    }
  }

  /** Leaving out the first element of a subsequence keeps it a subsequence. */
  lemma {:induction false} SubseqTail<T>(a: seq<T>, b: seq<T>)
    requires IsSubseq(a, b) && a != []
    ensures IsSubseq(a[1..], b)
    decreases |b|
  {
    if a[0] == b[0] && IsSubseq(a[1..], b[1..]) {
    } else {
      SubseqTail(a, b[1..]);
    }
  }

  /** A subsequence of a sequence sorted by `key` is sorted by `key`. */
  lemma {:induction false} SubseqSorted<T>(a: seq<T>, b: seq<T>, key: T -> int)
    requires IsSubseq(a, b) && SortedBy(b, key)
    ensures SortedBy(a, key)
    decreases |b|
  {
    if a != [] {
      if a[0] == b[0] && IsSubseq(a[1..], b[1..]) {
        SubseqSorted(a[1..], b[1..], key);
        SubseqMembers(a[1..], b[1..]);
        forall j | 0 < j < |a| ensures key(a[0]) <= key(a[j]) {
          assert a[j] in multiset(a[1..]);
          var k :| 0 <= k < |b[1..]| && b[1..][k] == a[j];
          assert b[k + 1] == a[j];
        }
      } else {
        SubseqSorted(a, b[1..], key);
      }
    }
  }

  /** A subsequence of `b[k..]` is a subsequence of every longer suffix `b[p..]`. */
  lemma {:induction false} SubseqWiden<T>(a: seq<T>, b: seq<T>, p: nat, k: nat)
    requires p <= k <= |b| && IsSubseq(a, b[k..])
    ensures IsSubseq(a, b[p..])
    decreases k - p
  {
    if p < k {
      assert b[k - 1..][1..] == b[k..];
      SubseqWiden(a, b, p, k - 1);
    }
  }

  /** `b[k - 1]` put in front of a subsequence of `b[k..]` gives a subsequence of `b[k - 1..]`. */
  lemma SubseqPrepend<T>(a: seq<T>, b: seq<T>, k: nat)
    requires 0 < k <= |b| && IsSubseq(a, b[k..])
    ensures IsSubseq([b[k - 1]] + a, b[k - 1..])
  {
    assert ([b[k - 1]] + a)[1..] == a;
    assert b[k - 1..][1..] == b[k..];
  }

  /**
   * Matching `a` into `b + [d]` matches all but the last element of `a`
   * into `b`.
   */
  lemma {:induction false} SubseqDropLast<T>(a: seq<T>, b: seq<T>, d: T)
    requires a != [] && IsSubseq(a, b + [d])
    ensures IsSubseq(a[..|a| - 1], b)
    decreases |b|
  {
    var front := a[..|a| - 1];
    if b == [] {
      assert (b + [d])[1..] == [];
      assert !IsSubseq(a, []);
      assert |a| == 1 && front == [];
    } else {
      assert (b + [d])[0] == b[0];
      assert (b + [d])[1..] == b[1..] + [d];
      if a[0] == b[0] && IsSubseq(a[1..], b[1..] + [d]) {
        if a[1..] != [] {
          SubseqDropLast(a[1..], b[1..], d);
          assert front[0] == b[0];
          assert front[1..] == a[1..][..|a[1..]| - 1];
        } else {
          assert front == [];
        }
      } else {
        assert IsSubseq(a, b[1..] + [d]);
        SubseqDropLast(a, b[1..], d);
        assert IsSubseq(front, b[1..]);
      }
    }
  }

  /**
   * When the last element of `a` is not `d`, a match of `a` into `b + [d]`
   * does not use `d`.
   */
  lemma {:induction false} SubseqPastLast<T>(a: seq<T>, b: seq<T>, d: T)
    requires a != [] && a[|a| - 1] != d && IsSubseq(a, b + [d])
    ensures IsSubseq(a, b)
    decreases |b|
  {
    if b == [] {
      assert (b + [d])[1..] == [];
      assert !IsSubseq(a, []);
      assert false;
    } else {
      assert (b + [d])[0] == b[0];
      assert (b + [d])[1..] == b[1..] + [d];
      if a[0] == b[0] && IsSubseq(a[1..], b[1..] + [d]) {
        if a[1..] != [] {
          SubseqPastLast(a[1..], b[1..], d);
        } else {
          assert IsSubseq(a[1..], b[1..]);
        }
      } else {
        assert IsSubseq(a, b[1..] + [d]);
        SubseqPastLast(a, b[1..], d);
      }
    }
  }

  /** `s` back to front. */
  function Reverse<T>(s: seq<T>): (r: seq<T>)
    ensures |r| == |s|
  {
    if s == [] then [] else [s[|s| - 1]] + Reverse(s[..|s| - 1])
  }

  /** Appending to a sequence prepends to its reversal. */
  lemma ReverseSnoc<T>(s: seq<T>, x: T)
    ensures Reverse(s + [x]) == [x] + Reverse(s)
  {
    assert (s + [x])[..|s|] == s;
  }

  /** Position `k` of the reversal is position `|s| - 1 - k` of `s`. */
  lemma {:induction false} ReverseAt<T>(s: seq<T>)
    ensures forall k :: 0 <= k < |s| ==> Reverse(s)[k] == s[|s| - 1 - k]
  {
    if s != [] {
      ReverseAt(s[..|s| - 1]);
    }
  }

  /**
   * The positions a subsequence is taken from: strictly increasing indices
   * of `b` holding the elements of `a` in order.
   */
  lemma {:induction false} SubseqIndices<T>(a: seq<T>, b: seq<T>) returns (idx: seq<nat>)
    requires IsSubseq(a, b)
    ensures |idx| == |a|
    ensures forall k :: 0 <= k < |idx| ==> idx[k] < |b| && b[idx[k]] == a[k]
    ensures forall k, l :: 0 <= k < l < |idx| ==> idx[k] < idx[l]
    decreases |b|
  {
    if a == [] {
      idx := [];
    } else if a[0] == b[0] && IsSubseq(a[1..], b[1..]) {
      var sub := SubseqIndices(a[1..], b[1..]);
      idx := [0] + seq(|sub|, k requires 0 <= k < |sub| => sub[k] + 1);
    } else {
      var sub := SubseqIndices(a, b[1..]);
      idx := seq(|sub|, k requires 0 <= k < |sub| => sub[k] + 1);
    }
  }
}
