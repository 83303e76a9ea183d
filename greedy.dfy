/**
 * lab08 `greedy_algorithms.py`: interval scheduling, greedy change-making,
 * the brute-force 0-1 knapsack over bit masks, and the empty and
 * single-symbol cases of Huffman coding.  The sorts the source delegates to
 * Python's `sorted` are `Sorts.MergeSort`, which is stable as `sorted` is.
 */
module Greedy {
  import opened Wrappers
  import opened Ordering
  import Sorts

  // -----------------------------------------------------------------------
  // schedule_intervals

  /** `TimeInterval(start, end, name)`. */
  datatype TimeInterval = TimeInterval(start: int, end: int, name: string)

  /** The sort key of `schedule_intervals`. */
  function End(t: TimeInterval): int { t.end }

  /** The decimal digits of `n`, as `str(n)` writes them. */
  function Decimal(n: nat): (s: string)
    ensures |s| >= 1
    ensures forall i :: 0 <= i < |s| ==> '0' <= s[i] <= '9'
  {
    if n < 10 then ["0123456789"[n]] else Decimal(n / 10) + ["0123456789"[n % 10]]
  }

  /** `f"Task_{i}"`. */
  function TaskName(i: nat): (s: string)
    ensures |s| > 5 && s[..5] == "Task_"
  {
    "Task_" + Decimal(i)
  }

  /** Plain `(start, end)` pairs become intervals named after their position. */
  function AsIntervals(pairs: seq<(int, int)>): (r: seq<TimeInterval>)
    ensures |r| == |pairs|
    ensures forall i :: 0 <= i < |r| ==>
              r[i].start == pairs[i].0 && r[i].end == pairs[i].1 && r[i].name == TaskName(i)
  {
    seq(|pairs|, i requires 0 <= i < |pairs| => TimeInterval(pairs[i].0, pairs[i].1, TaskName(i)))
  }

  /** `inter.start >= last_end`, where `None` stands for `-float('inf')`. */
  predicate Fits(t: TimeInterval, last: Option<int>)
  {
    last.None? || t.start >= last.value
  }

  /** Every interval starts no earlier than the previous one ends. */
  ghost predicate Compatible(s: seq<TimeInterval>)
  {
    forall k :: 0 < k < |s| ==> s[k].start >= s[k - 1].end
  }

  /**
   * The selection loop of `schedule_intervals` on `s` (in end order),
   * starting from `last_end = last`.
   */
  function Select(s: seq<TimeInterval>, last: Option<int>): (r: seq<TimeInterval>)
    ensures IsSubseq(r, s)
    ensures Compatible(r)
    ensures r != [] ==> Fits(r[0], last)
    ensures s != [] && Fits(s[0], last) ==> r != [] && r[0] == s[0]
  {
    if s == [] then []
    else if Fits(s[0], last) then [s[0]] + Select(s[1..], Some(s[0].end))
    else Select(s[1..], last)
  }

  /**
   * Greedy stays ahead: no compatible subsequence of the end-ordered `s`
   * that could follow `last` is longer than what the loop selects.
   */
  lemma {:induction false} SelectOptimal(s: seq<TimeInterval>, last: Option<int>, c: seq<TimeInterval>)
    requires SortedBy(s, End)
    requires IsSubseq(c, s) && Compatible(c)
    requires c != [] ==> Fits(c[0], last)
    ensures |c| <= |Select(s, last)|
    decreases |s|
  {
    if c != [] {
      var x := s[0];
      if Fits(x, last) {
        if c[0] == x && IsSubseq(c[1..], s[1..]) {
          assert |c| > 1 ==> c[1..][0] == c[1];
          SelectOptimal(s[1..], Some(x.end), c[1..]);
        } else {
          SubseqTail(c, s[1..]);
          SubseqMembers(c, s[1..]);
          assert c[0] in multiset(s[1..]);
          var k :| 0 <= k < |s[1..]| && s[1..][k] == c[0];
          assert s[k + 1] == c[0];
          assert |c| > 1 ==> c[1..][0] == c[1];
          SelectOptimal(s[1..], Some(x.end), c[1..]);
        }
      } else {
        SelectOptimal(s[1..], last, c);
      }
    }
  }

  /** A compatible chain of intervals of positive length drawn from `pool`. */
  ghost predicate ProperChain(c: seq<TimeInterval>, pool: seq<TimeInterval>)
  {
    Compatible(c) && multiset(c) <= multiset(pool) &&
    forall k :: 0 <= k < |c| ==> c[k].start < c[k].end
  }

  /** In such a chain the ends strictly increase. */
  lemma {:induction false} ChainEndsIncrease(c: seq<TimeInterval>, pool: seq<TimeInterval>, i: nat, j: nat)
    requires ProperChain(c, pool) && i < j < |c|
    ensures c[i].end < c[j].end
    decreases j
  {
    if i < j - 1 {
      ChainEndsIncrease(c, pool, i, j - 1);
    }
  }

  lemma DropCommonHead<T>(c: seq<T>, s: seq<T>)
    requires c != [] && s != [] && c[0] == s[0] && multiset(c) <= multiset(s)
    ensures multiset(c[1..]) <= multiset(s[1..])
  {
    assert c == [c[0]] + c[1..] && s == [s[0]] + s[1..];
    assert multiset(c) == multiset{c[0]} + multiset(c[1..]);
    assert multiset(s) == multiset{s[0]} + multiset(s[1..]);
    forall x ensures multiset(c[1..])[x] <= multiset(s[1..])[x] {
      assert multiset(c)[x] <= multiset(s)[x];
    }
  }

  lemma DropUnusedHead<T>(c: seq<T>, s: seq<T>)
    requires s != [] && s[0] !in c && multiset(c) <= multiset(s)
    ensures multiset(c) <= multiset(s[1..])
  {
    assert s == [s[0]] + s[1..];
    assert multiset(s) == multiset{s[0]} + multiset(s[1..]);
    assert multiset(c)[s[0]] == 0;
  }

  /** A proper chain drawn from an end-ordered `s` is a subsequence of it. */
  lemma {:induction false} ChainInSorted(c: seq<TimeInterval>, s: seq<TimeInterval>)
    requires SortedBy(s, End) && ProperChain(c, s)
    ensures IsSubseq(c, s)
    decreases |s|
  {
    if c != [] {
      assert c[0] in multiset(s);
      assert s != [];
      EndSortedTail(s);
      if c[0] == s[0] {
        ChainTakesHead(c, s);
        ChainInSorted(c[1..], s[1..]);
      } else {
        ChainSkipsHead(c, s);
        ChainInSorted(c, s[1..]);
      }
    }
  }

  /** The tail of an end-ordered sequence is end-ordered. */
  lemma EndSortedTail(s: seq<TimeInterval>)
    requires SortedBy(s, End) && s != []
    ensures SortedBy(s[1..], End)
  {
    forall i, j | 0 <= i < j < |s[1..]| ensures End(s[1..][i]) <= End(s[1..][j]) {
      assert s[1..][i] == s[i + 1] && s[1..][j] == s[j + 1];
    }
  }

  /** A chain that starts with the head of the pool goes on as a chain of the pool's tail. */
  lemma ChainTakesHead(c: seq<TimeInterval>, s: seq<TimeInterval>)
    requires ProperChain(c, s) && c != [] && s != [] && c[0] == s[0]
    ensures ProperChain(c[1..], s[1..])
  {
    DropCommonHead(c, s);
    forall k | 0 < k < |c[1..]| ensures c[1..][k].start >= c[1..][k - 1].end {
      assert c[1..][k] == c[k + 1] && c[1..][k - 1] == c[k];
    }
    forall k | 0 <= k < |c[1..]| ensures c[1..][k].start < c[1..][k].end {
      assert c[1..][k] == c[k + 1];
    }
  }

  /**
   * A chain from an end-ordered pool that does not start with the pool's
   * head does not use it at all: every element of the chain ends after the
   * head does.
   */
  lemma ChainSkipsHead(c: seq<TimeInterval>, s: seq<TimeInterval>)
    requires SortedBy(s, End) && ProperChain(c, s) && c != [] && s != [] && c[0] != s[0]
    ensures ProperChain(c, s[1..])
  {
    assert c[0] in multiset(s);
    var k :| 0 <= k < |s| && s[k] == c[0];
    assert s[0].end <= c[0].end;
    forall j | 0 <= j < |c| ensures c[j] != s[0] {
      if j > 0 {
        ChainEndsIncrease(c, s, 0, j);
      }
    }
    DropUnusedHead(c, s);
  }

  /**
   * The pass of `schedule_intervals` over the sorted intervals, with
   * `last_end` starting at minus infinity (`None`): it keeps exactly the
   * intervals `Select` keeps, so its result is compatible and as long as any
   * chain (`SelectOptimal`).
   */
  method FirstFit(sorted: seq<TimeInterval>) returns (selected: seq<TimeInterval>)
    ensures selected == Select(sorted, None)
  {
    selected := [];
    var last: Option<int> := None;
    for i := 0 to |sorted|
      invariant selected + Select(sorted[i..], last) == Select(sorted, None)
    {
      assert sorted[i..][1..] == sorted[i + 1..];
      if Fits(sorted[i], last) {
        selected := selected + [sorted[i]];
        last := Some(sorted[i].end);
      }
    }
    assert sorted[|sorted|..] == [];
  }

  /**
   * `schedule_intervals(intervals)`: `[]` for no intervals; otherwise sort by
   * `end` and keep each interval that starts no earlier than the last kept
   * one ends.  The result is the first-fit selection over the stable sort
   * (so among intervals with equal ends the earlier one in the input is
   * tried first), it is in end order and compatible, the interval that ends
   * first is kept, and no compatible chain of positive-length intervals is
   * longer.
   */
  method ScheduleIntervals(intervals: seq<TimeInterval>) returns (selected: seq<TimeInterval>)
    ensures intervals == [] ==> selected == []
    ensures exists sorted :: Sorts.StableSortOf(sorted, intervals, End) && selected == Select(sorted, None)
    ensures multiset(selected) <= multiset(intervals)
    ensures SortedBy(selected, End) && Compatible(selected)
    ensures intervals != [] ==> selected != [] && forall t :: t in intervals ==> selected[0].end <= t.end
    ensures forall c :: ProperChain(c, intervals) ==> |c| <= |selected|
  {
    if intervals == [] {
      assert Sorts.StableSortOf([], intervals, End);
      return [];
    }
    var sorted := Sorts.MergeSort(intervals, End);
    selected := FirstFit(sorted);
    SubseqMembers(selected, sorted);
    SubseqSorted(selected, sorted, End);
    assert selected[0] == sorted[0];
    forall t | t in intervals ensures selected[0].end <= t.end {
      assert t in multiset(sorted);
      var k :| 0 <= k < |sorted| && sorted[k] == t;
      assert End(sorted[0]) <= End(sorted[k]);
    }
    forall c | ProperChain(c, intervals) ensures |c| <= |selected| {
      ChainInSorted(c, sorted);
      SelectOptimal(sorted, None, c);
    }
    assert Sorts.StableSortOf(sorted, intervals, End);
  }

  /** `schedule_intervals` given plain `(start, end)` pairs. */
  method SchedulePairs(pairs: seq<(int, int)>) returns (selected: seq<TimeInterval>)
    ensures pairs == [] ==> selected == []
    ensures exists sorted :: Sorts.StableSortOf(sorted, AsIntervals(pairs), End) && selected == Select(sorted, None)
    ensures multiset(selected) <= multiset(AsIntervals(pairs))
    ensures SortedBy(selected, End) && Compatible(selected)
    ensures forall c :: ProperChain(c, AsIntervals(pairs)) ==> |c| <= |selected|
  {
    selected := ScheduleIntervals(AsIntervals(pairs));
  }

  // -----------------------------------------------------------------------
  // make_change

  /**
   * What a coin-to-count map pays, adding `coin * count` for each coin of
   * `cs` that is a key; a coin listed twice is counted once.
   */
  function Paid(m: map<int, nat>, cs: seq<int>): int
  {
    if cs == [] then 0
    else (if cs[0] in m then cs[0] * m[cs[0]] else 0) + Paid(m - {cs[0]}, cs[1..])
  }

  /** An empty map pays nothing. */
  lemma {:induction false} PaidNothing(cs: seq<int>)
    ensures Paid(map[], cs) == 0
  {
    if cs != [] {
      var none: map<int, nat> := map[];
      assert none - {cs[0]} == none;
      PaidNothing(cs[1..]);
    }
  }

  /** Paying with a listed coin not used yet adds `coin * count`. */
  lemma {:induction false} PaidAdd(m: map<int, nat>, k: int, n: nat, cs: seq<int>)
    requires k !in m && k in cs
    ensures Paid(m[k := n], cs) == Paid(m, cs) + k * n
  {
    if cs[0] == k {
      assert m[k := n] - {k} == m && m - {k} == m;
    } else {
      assert m[k := n] - {cs[0]} == (m - {cs[0]})[k := n];
      PaidAdd(m - {cs[0]}, k, n, cs[1..]);
    }
  }

  /** `rem // coin` coins fit into a remainder of at least `coin`, leaving `rem % coin`. */
  lemma Quotient(rem: int, coin: int)
    requires coin > 0
    ensures rem / coin > 0 <==> rem >= coin
    ensures rem - coin * (rem / coin) == rem % coin && 0 <= rem % coin < coin
  {
    if rem >= coin {
      assert rem / coin >= 1;
    }
  }

  /** The sort key of `sorted(coins, reverse=True)`. */
  function Negated(c: int): int { -c }

  /**
   * `make_change(amount, coins)`: for each coin, largest first, take as many
   * as fit into the remainder; `ValueError` when something is left.  On
   * success every count is positive, every key is a coin and the coins pay
   * the amount; a zero or negative amount gives `{}`; the error needs a
   * positive amount and no coin of value 1.
   */
  method MakeChange(amount: int, coins: seq<int>) returns (r: Result<map<int, nat>, Error>)
    requires forall c :: c in coins ==> c > 0
    ensures amount <= 0 ==> r == Success(map[])
    ensures r.Success? ==> forall c :: c in r.value ==> c in coins && r.value[c] > 0
    ensures r.Success? && amount >= 0 ==> Paid(r.value, coins) == amount
    ensures r.Failure? ==> amount > 0 && 1 !in coins
  {
    var desc := Sorts.MergeSort(coins, Negated);
    var res: map<int, nat> := map[];
    var rem := amount;
    var i := 0;
    PaidNothing(coins);
    while i < |desc|
      invariant 0 <= i <= |desc|
      invariant forall c :: c in res ==> c in coins && res[c] > 0 && rem < c
      invariant forall j :: 0 <= j < i ==> rem < desc[j]
      invariant amount >= 0 ==> 0 <= rem && Paid(res, coins) + rem == amount
      invariant amount < 0 ==> rem == amount && res == map[]
      invariant amount == 0 ==> res == map[]
    {
      if rem == 0 {
        break;
      }
      var coin := desc[i];
      assert coin in multiset(coins);
      assert coin in coins;
      var cnt := rem / coin;
      Quotient(rem, coin);
      if cnt > 0 {
        PaidAdd(res, coin, cnt, coins);
        res := res[coin := cnt];
        rem := rem - coin * cnt;
      }
      i := i + 1;
    }
    assert 1 in coins ==> 1 in multiset(desc);
    if rem > 0 {
      return Failure(ValueError("the amount cannot be made from these coins"));
    }
    forall j | 0 <= j < |desc| ensures desc[j] > 0 {
      assert desc[j] in multiset(coins);
      assert desc[j] in coins;
    }
    return Success(res);
  }

  // -----------------------------------------------------------------------
  // PackSolver.brute_force_0_1_pack

  /** `PackItem(value, weight, name)`. */
  datatype PackItem = PackItem(value: int, weight: int, name: string)

  /** `1 << n`. */
  function Pow2(n: nat): (p: nat)
    ensures p >= 1
  {
    if n == 0 then 1 else 2 * Pow2(n - 1)
  }

  /**
   * `mask & (1 << j)` is nonzero: bit `j` of `mask` is set, which is the
   * lowest bit of `mask` halved `j` times.
   */
  predicate Bit(mask: nat, j: nat)
  {
    if j == 0 then mask % 2 == 1 else Bit(mask / 2, j - 1)
  }

  /** The items whose bit is set in `mask`, in item order. */
  function Selection(items: seq<PackItem>, mask: nat): (r: seq<PackItem>)
    ensures IsSubseq(r, items)
  {
    if items == [] then []
    else if mask % 2 == 1 then [items[0]] + Selection(items[1..], mask / 2)
    else Selection(items[1..], mask / 2)
  }

  function TotalWeight(s: seq<PackItem>): int
  {
    if s == [] then 0 else TotalWeight(s[..|s| - 1]) + s[|s| - 1].weight
  }

  function TotalValue(s: seq<PackItem>): int
  {
    if s == [] then 0 else TotalValue(s[..|s| - 1]) + s[|s| - 1].value
  }

  /** The inner loop over `j` adds item `j` when bit `j` is set. */
  lemma {:induction false} SelectionSnoc(items: seq<PackItem>, mask: nat, j: nat)
    requires j < |items|
    ensures Selection(items[..j + 1], mask) ==
            Selection(items[..j], mask) + (if Bit(mask, j) then [items[j]] else [])
    decreases j
  {
    if j > 0 {
      assert items[..j + 1][1..] == items[1..][..j];
      assert items[..j][1..] == items[1..][..j - 1];
      SelectionSnoc(items[1..], mask / 2, j - 1);
    }
  }

  /** Every subsequence of the items is the selection of some mask below `1 << n`. */
  lemma {:induction false} EverySubsetHasMask(items: seq<PackItem>, c: seq<PackItem>) returns (mask: nat)
    requires IsSubseq(c, items)
    ensures mask < Pow2(|items|) && Selection(items, mask) == c
    decreases |items|
  {
    if items == [] {
      return 0;
    }
    if c != [] && c[0] == items[0] && IsSubseq(c[1..], items[1..]) {
      var m := EverySubsetHasMask(items[1..], c[1..]);
      mask := 2 * m + 1;
      assert mask / 2 == m && mask % 2 == 1;
      assert c == [c[0]] + c[1..];
    } else {
      var m := EverySubsetHasMask(items[1..], c);
      mask := 2 * m;
      assert mask / 2 == m && mask % 2 == 0;
    }
  }

  /**
   * `brute_force_0_1_pack(capacity, items)`: try every mask below `1 << n`,
   * keeping the first selection within capacity of largest value above 0.
   * The result is within capacity, its value is returned, and no subset of
   * the items within capacity is worth more; nothing of positive value
   * fitting gives `(0, [])`.
   */
  method BruteForcePack(capacity: int, items: seq<PackItem>) returns (maxVal: int, best: seq<PackItem>)
    ensures maxVal >= 0 && TotalValue(best) == maxVal
    ensures best == [] <==> maxVal == 0
    ensures best != [] ==> TotalWeight(best) <= capacity
    ensures IsSubseq(best, items)
    ensures forall mask :: 0 <= mask < Pow2(|items|) && TotalWeight(Selection(items, mask)) <= capacity ==>
              TotalValue(Selection(items, mask)) <= maxVal
    ensures forall c :: IsSubseq(c, items) && TotalWeight(c) <= capacity ==> TotalValue(c) <= maxVal
  {
    var n := |items|;
    maxVal, best := 0, [];
    for mask := 0 to Pow2(n)
      invariant maxVal >= 0 && TotalValue(best) == maxVal
      invariant best == [] <==> maxVal == 0
      invariant best != [] ==> TotalWeight(best) <= capacity
      invariant IsSubseq(best, items)
      invariant forall m :: 0 <= m < mask && TotalWeight(Selection(items, m)) <= capacity ==>
                  TotalValue(Selection(items, m)) <= maxVal
    {
      var curW, curV := 0, 0;
      var sel: seq<PackItem> := [];
      for j := 0 to n
        invariant sel == Selection(items[..j], mask)
        invariant curW == TotalWeight(sel) && curV == TotalValue(sel)
      {
        SelectionSnoc(items, mask, j);
        if Bit(mask, j) {
          curW := curW + items[j].weight;
          curV := curV + items[j].value;
          assert (sel + [items[j]])[..|sel|] == sel;
          sel := sel + [items[j]];
        }
      }
      assert items[..n] == items;
      if curW <= capacity && curV > maxVal {
        maxVal := curV;
        best := sel;
      }
    }
    forall c | IsSubseq(c, items) && TotalWeight(c) <= capacity ensures TotalValue(c) <= maxVal {
      var m := EverySubsetHasMask(items, c);
    }
  }

  // -----------------------------------------------------------------------
  // huffman_encode: the empty and single-symbol texts

  /** `HNode(char, freq, left, right)`; `char` is `symbol` here. */
  datatype HNode = HNode(symbol: Option<char>, freq: nat, left: Option<HNode>, right: Option<HNode>)

  /** `''.join(codes[ch] for ch in text)`. */
  function EncodeWith(codes: map<char, string>, text: string): string
    requires forall i :: 0 <= i < |text| ==> text[i] in codes
  {
    if text == [] then [] else codes[text[0]] + EncodeWith(codes, text[1..])
  }

  /** `'0' * n`. */
  function Zeros(n: nat): (s: string)
    ensures |s| == n && forall i :: 0 <= i < n ==> s[i] == '0'
  {
    if n == 0 then "" else "0" + Zeros(n - 1)
  }

  /** The text has at most one distinct symbol. */
  predicate OneSymbol(text: string)
  {
    forall i :: 0 <= i < |text| ==> text[i] == text[0]
  }

  /** How often `ch` occurs in `text`: `Counter(text)[ch]`. */
  function Count(text: string, ch: char): nat
  {
    if text == [] then 0 else (if text[0] == ch then 1 else 0) + Count(text[1..], ch)
  }

  /**
   * `huffman_encode(text)` for texts of at most one distinct symbol:
   * `({}, "", None)` for the empty text; otherwise the symbol gets code
   * `'0'`, the text is `'0' * len(text)`, and the root is a leaf with the
   * symbol's frequency.
   */
  function HuffmanEncode(text: string): (r: (map<char, string>, string, Option<HNode>))
    requires OneSymbol(text)
    ensures forall ch :: ch in r.0 <==> ch in text
    ensures |r.1| == |text|
    ensures r.2.None? <==> text == []
  {
    if text == [] then (map[], "", None)
    else (map[text[0] := "0"], Zeros(|text|), Some(HNode(Some(text[0]), Count(text, text[0]), None, None)))
  }

  /**
   * The single-symbol answer: the one symbol gets the code `'0'`, the
   * encoding is `'0' * len(text)`, which is also the join of the codes, and
   * the leaf counts every symbol of the text.
   */
  lemma {:induction false} HuffmanSingleSymbol(text: string)
    requires OneSymbol(text)
    ensures text == [] ==> HuffmanEncode(text) == (map[], "", None)
    ensures text != [] ==>
              var (codes, encoded, root) := HuffmanEncode(text);
              codes == map[text[0] := "0"] && encoded == Zeros(|text|) &&
              (forall i :: 0 <= i < |text| ==> text[i] in codes && |codes[text[i]]| == 1) &&
              encoded == EncodeWith(codes, text) &&
              root.Some? && root.value.symbol == Some(text[0]) && root.value.freq == |text|
    decreases |text|
  {
    if text != [] {
      var codes := map[text[0] := "0"];
      if |text| > 1 {
        assert OneSymbol(text[1..]) && text[1..][0] == text[0];
        HuffmanSingleSymbol(text[1..]);
      }
      assert EncodeWith(codes, text) == Zeros(|text|) by {
        SingleEncoding(text, text[0]);
      }
      assert Count(text, text[0]) == |text| by {
        SingleCount(text, text[0]);
      }
    }
  }

  lemma {:induction false} SingleEncoding(text: string, ch: char)
    requires forall i :: 0 <= i < |text| ==> text[i] == ch
    ensures EncodeWith(map[ch := "0"], text) == Zeros(|text|)
    decreases |text|
  {
    if text != [] {
      SingleEncoding(text[1..], ch);
    }
  }

  lemma {:induction false} SingleCount(text: string, ch: char)
    requires forall i :: 0 <= i < |text| ==> text[i] == ch
    ensures Count(text, ch) == |text|
    decreases |text|
  {
    if text != [] {
      SingleCount(text[1..], ch);
    }
  }
}
