/**
 * lab09 `CoinExchange`: the fewest coins that make an amount, the coins
 * themselves recovered through `parent` links, and the number of ways to
 * make the amount.  Denominations may repeat without limit.  `Best(i)` is
 * the minimum table's recurrence (`None` for the table's infinity) and
 * `Ways(k, i)` the counting table's; the lemmas prove `Best` is the least
 * number of coins of any way to pay `i`, `None` exactly when there is no
 * way, and that the count is positive exactly when `Best` is not `None`.
 */
module CoinExchange {
  import opened Wrappers

  /** The denominations the model takes: all positive. */
  ghost predicate Positive(coins: seq<int>)
  {
    forall k :: 0 <= k < |coins| ==> coins[k] > 0
  }

  /** The sum of a list of coins. */
  function Total(s: seq<int>): int
  {
    if s == [] then 0 else Total(s[..|s| - 1]) + s[|s| - 1]
  }

  /** `used` pays `i` with coins from `coins`. */
  ghost predicate Pays(coins: seq<int>, used: seq<int>, i: int)
  {
    Total(used) == i && forall t :: 0 <= t < |used| ==> used[t] in coins
  }

  /** `min(x, y)` where `None` is infinity. */
  function MinOpt(x: Option<nat>, y: Option<nat>): (r: Option<nat>)
    ensures r.Some? <==> x.Some? || y.Some?
    ensures x.Some? ==> r.value <= x.value
    ensures y.Some? ==> r.value <= y.value
    ensures r == x || r == y
  {
    if x.None? then y
    else if y.None? then x
    else if y.value < x.value then y
    else x
  }

  /** `x + 1` where `None` is infinity. */
  function Plus1(x: Option<nat>): Option<nat>
  {
    if x.None? then None else Some(x.value + 1)
  }

  /** `dp[i]`: `0` for `0`, otherwise the fold of all the coins. */
  function Best(coins: seq<int>, i: nat): Option<nat>
    requires Positive(coins)
    decreases i, |coins| + 1
  {
    if i == 0 then Some(0) else Fold(coins, i, |coins|)
  }

  /** `dp[i]` after the first `k` coins of the inner loop, for `i >= 1`. */
  function Fold(coins: seq<int>, i: nat, k: nat): Option<nat>
    requires Positive(coins) && 1 <= i && k <= |coins|
    decreases i, k
  {
    if k == 0 then None
    else if coins[k - 1] <= i then MinOpt(Fold(coins, i, k - 1), Plus1(Best(coins, i - coins[k - 1])))
    else Fold(coins, i, k - 1)
  }

  // -----------------------------------------------------------------------
  // What `Best` means

  lemma {:induction false} TotalNonnegative(coins: seq<int>, used: seq<int>)
    requires Positive(coins) && forall c :: c in used ==> c in coins
    ensures Total(used) >= 0
  {
    if used != [] {
      assert forall c :: c in used[..|used| - 1] ==> c in used;
      TotalNonnegative(coins, used[..|used| - 1]);
      assert used[|used| - 1] in used;
    }
  }

  /** A coin `coins[k0]` with `i - coins[k0]` payable bounds the fold from `k0 + 1` on. */
  lemma {:induction false} FoldBound(coins: seq<int>, i: nat, k: nat, k0: nat)
    requires Positive(coins) && 1 <= i && k0 < k <= |coins| && coins[k0] <= i
    requires Best(coins, i - coins[k0]).Some?
    ensures Fold(coins, i, k).Some? && Fold(coins, i, k).value <= Best(coins, i - coins[k0]).value + 1
  {
    if k0 < k - 1 {
      FoldBound(coins, i, k - 1, k0);
    }
  }

  /** Every way to pay `i` uses at least `Best(i)` coins, so `Best(i)` is not infinity. */
  lemma {:induction false} BestIsOptimal(coins: seq<int>, i: nat, used: seq<int>)
    requires Positive(coins) && Pays(coins, used, i)
    ensures Best(coins, i).Some? && Best(coins, i).value <= |used|
    decreases |used|
  {
    if used != [] {
      var rest, c := used[..|used| - 1], used[|used| - 1];
      assert forall x :: x in rest ==> x in used;
      TotalNonnegative(coins, rest);
      BestIsOptimal(coins, i - c, rest);
      assert c in used;
      var k0 :| 0 <= k0 < |coins| && coins[k0] == c;
      FoldBound(coins, i, |coins|, k0);
    }
  }

  /** A finite fold came from some coin that fits. */
  lemma {:induction false} FoldChoice(coins: seq<int>, i: nat, k: nat) returns (k0: nat)
    requires Positive(coins) && 1 <= i && k <= |coins| && Fold(coins, i, k).Some?
    ensures k0 < k && coins[k0] <= i && Best(coins, i - coins[k0]).Some?
    ensures Fold(coins, i, k).value == Best(coins, i - coins[k0]).value + 1
  {
    if coins[k - 1] <= i && Fold(coins, i, k) == Plus1(Best(coins, i - coins[k - 1])) {
      k0 := k - 1;
    } else {
      k0 := FoldChoice(coins, i, k - 1);
    }
  }

  /** A finite `Best(i)` is the size of some way to pay `i`. */
  lemma {:induction false} BestWitness(coins: seq<int>, i: nat) returns (used: seq<int>)
    requires Positive(coins) && Best(coins, i).Some?
    ensures Pays(coins, used, i) && |used| == Best(coins, i).value
    decreases i
  {
    if i == 0 {
      used := [];
    } else {
      var k0 := FoldChoice(coins, i, |coins|);
      var rest := BestWitness(coins, i - coins[k0]);
      used := rest + [coins[k0]];
      assert used[..|used| - 1] == rest;
    }
  }

  // -----------------------------------------------------------------------
  // Counting

  /**
   * `dp[i]` after the first `k` coins of `count_ways`: the ways without
   * coin `k - 1`, plus those that use it at least once.
   */
  function Ways(coins: seq<int>, k: nat, i: nat): nat
    requires Positive(coins) && k <= |coins|
    decreases k, i
  {
    if k == 0 then (if i == 0 then 1 else 0)
    else Ways(coins, k - 1, i) + (if coins[k - 1] <= i then Ways(coins, k, i - coins[k - 1]) else 0)
  }

  /** A positive count comes with a way to pay `i` from the first `k` coins. */
  lemma {:induction false} WaysWitness(coins: seq<int>, k: nat, i: nat) returns (used: seq<int>)
    requires Positive(coins) && k <= |coins| && Ways(coins, k, i) > 0
    ensures Pays(coins[..k], used, i)
    decreases k, i
  {
    if k == 0 {
      used := [];
    } else if Ways(coins, k - 1, i) > 0 {
      used := WaysWitness(coins, k - 1, i);
      assert forall c :: c in coins[..k - 1] ==> c in coins[..k];
    } else {
      var rest := WaysWitness(coins, k, i - coins[k - 1]);
      used := rest + [coins[k - 1]];
      assert used[..|used| - 1] == rest;
      assert coins[k - 1] == coins[..k][k - 1];
    }
  }

  /** Taking out position `p` takes `s[p]` off the total. */
  lemma {:induction false} TotalRemove(s: seq<int>, p: nat)
    requires p < |s|
    ensures Total(s) == s[p] + Total(s[..p] + s[p + 1..])
  {
    if p == |s| - 1 {
      assert s[..p] + s[p + 1..] == s[..|s| - 1];
    } else {
      var init := s[..|s| - 1];
      TotalRemove(init, p);
      var removed := s[..p] + s[p + 1..];
      assert removed[..|removed| - 1] == init[..p] + init[p + 1..];
      assert removed[|removed| - 1] == s[|s| - 1];
    }
  }

  /** Every way to pay `i` from the first `k` coins is counted, so the count is positive. */
  lemma {:induction false} WaysPositive(coins: seq<int>, k: nat, i: nat, used: seq<int>)
    requires Positive(coins) && k <= |coins| && Pays(coins[..k], used, i)
    ensures Ways(coins, k, i) > 0
    decreases k, |used|
  {
    if k == 0 {
      assert coins[..k] == [];
      if used != [] {
        assert false;
      }
    } else if coins[k - 1] in used {
      var c := coins[k - 1];
      var p :| 0 <= p < |used| && used[p] == c;
      var rest := used[..p] + used[p + 1..];
      TotalRemove(used, p);
      assert forall x :: x in rest ==> x in used;
      assert forall x :: x in coins[..k] ==> x in coins;
      TotalNonnegative(coins, rest);
      WaysPositive(coins, k, i - c, rest);
    } else {
      forall x | x in used ensures x in coins[..k - 1] {
        var t :| 0 <= t < k && coins[..k][t] == x;
        assert t != k - 1;
      }
      WaysPositive(coins, k - 1, i, used);
    }
  }

  /** The amount can be paid exactly when the count is positive and exactly when the minimum is finite. */
  lemma WaysPositiveIffPayable(coins: seq<int>, i: nat)
    requires Positive(coins)
    ensures Ways(coins, |coins|, i) > 0 <==> Best(coins, i).Some?
  {
    assert coins[..|coins|] == coins;
    if Ways(coins, |coins|, i) > 0 {
      var used := WaysWitness(coins, |coins|, i);
      BestIsOptimal(coins, i, used);
    }
    if Best(coins, i).Some? {
      var used := BestWitness(coins, i);
      WaysPositive(coins, |coins|, i, used);
    }
  }

  // -----------------------------------------------------------------------
  // The methods

  /**
   * `min_coins_count(coins, amount)`: `dp[i]` folds `min(dp[i], dp[i - coin] + 1)`
   * over the coins that fit; infinity comes back as `-1`.
   */
  method MinCoinsCount(coins: seq<int>, amount: int) returns (r: int)
    requires Positive(coins) && amount >= 0
    ensures r == if Best(coins, amount).Some? then Best(coins, amount).value else -1
  {
    var dp := new Option<nat>[amount + 1](j => None);
    dp[0] := Some(0);
    for i := 1 to amount + 1
      invariant forall j {:trigger dp[j]} :: 0 <= j < i ==> dp[j] == Best(coins, j)
      invariant forall j {:trigger dp[j]} :: i <= j <= amount ==> dp[j] == None
    {
      for k := 0 to |coins|
        invariant forall j {:trigger dp[j]} :: 0 <= j < i ==> dp[j] == Best(coins, j)
        invariant forall j {:trigger dp[j]} :: i < j <= amount ==> dp[j] == None
        invariant dp[i] == Fold(coins, i, k)
      {
        var coin := coins[k];
        if coin <= i {
          dp[i] := MinOpt(dp[i], Plus1(dp[i - coin]));
        }
      }
    }
    r := if dp[amount].Some? then dp[amount].value else -1;
  }

  /** `dp[i - coin] + 1 < dp[i]` where `None` is infinity. */
  function Less(x: Option<nat>, y: Option<nat>): bool
  {
    x.Some? && (y.None? || x.value < y.value)
  }

  /** `parent[j] = p` is right for `dp[j] = v`: `p` is a coin that fits and `j - p` takes one coin fewer. */
  ghost predicate Linked(coins: seq<int>, j: nat, p: int, v: nat)
    requires Positive(coins)
  {
    p in coins && 0 < p <= j && Best(coins, j - p).Some? && v == Best(coins, j - p).value + 1
  }

  /**
   * The table of `min_coins_with_change`: the same as `min_coins_count`'s,
   * updated only on a strict improvement, which also records the coin in
   * `parent`.
   */
  method ChangeTable(coins: seq<int>, amount: int) returns (dp: array<Option<nat>>, parent: array<int>)
    requires Positive(coins) && amount >= 0
    ensures dp.Length == parent.Length == amount + 1
    ensures forall j {:trigger dp[j]} :: 0 <= j <= amount ==> dp[j] == Best(coins, j)
    ensures forall j :: 1 <= j <= amount && dp[j].Some? ==> Linked(coins, j, parent[j], dp[j].value)
  {
    dp := new Option<nat>[amount + 1](j => None);
    dp[0] := Some(0);
    parent := new int[amount + 1](j => -1);
    for i := 1 to amount + 1
      invariant forall j {:trigger dp[j]} :: 0 <= j < i ==> dp[j] == Best(coins, j)
      invariant forall j {:trigger dp[j]} :: i <= j <= amount ==> dp[j] == None
      invariant forall j :: 1 <= j < i && dp[j].Some? ==> Linked(coins, j, parent[j], dp[j].value)
    {
      ChangeRow(coins, dp, parent, i);
    }
  }

  /** The inner loop of `min_coins_with_change` for one amount `i`. */
  method ChangeRow(coins: seq<int>, dp: array<Option<nat>>, parent: array<int>, i: nat)
    requires Positive(coins) && dp.Length == parent.Length && 1 <= i < dp.Length
    requires forall j {:trigger dp[j]} :: 0 <= j < i ==> dp[j] == Best(coins, j)
    requires dp[i] == None
    modifies dp, parent
    ensures dp[i] == Best(coins, i)
    ensures dp[i].Some? ==> Linked(coins, i, parent[i], dp[i].value)
    ensures forall j :: 0 <= j < dp.Length && j != i ==> dp[j] == old(dp[j]) && parent[j] == old(parent[j])
  {
    for k := 0 to |coins|
      invariant forall j :: 0 <= j < dp.Length && j != i ==> dp[j] == old(dp[j]) && parent[j] == old(parent[j])
      invariant dp[i] == Fold(coins, i, k)
      invariant dp[i].Some? ==> Linked(coins, i, parent[i], dp[i].value)
    {
      var coin := coins[k];
      ChangeStep(coins, i, k);
      if coin <= i && Less(Plus1(dp[i - coin]), dp[i]) {
        dp[i] := Plus1(dp[i - coin]);
        parent[i] := coin;
      }
    }
  }

  /**
   * One step of the inner loop of `min_coins_with_change`: a strict
   * improvement by coin `coins[k]` is the next fold and links `i` to
   * `i - coins[k]`; anything else leaves the fold as it was.
   */
  lemma ChangeStep(coins: seq<int>, i: nat, k: nat)
    requires Positive(coins) && 1 <= i && k < |coins|
    ensures coins[k] <= i && Less(Plus1(Best(coins, i - coins[k])), Fold(coins, i, k)) ==>
      Fold(coins, i, k + 1) == Plus1(Best(coins, i - coins[k])) &&
      Linked(coins, i, coins[k], Fold(coins, i, k + 1).value)
    ensures !(coins[k] <= i && Less(Plus1(Best(coins, i - coins[k])), Fold(coins, i, k))) ==>
      Fold(coins, i, k + 1) == Fold(coins, i, k)
  {
    assert coins[k] in coins;
  }

  /**
   * `min_coins_with_change(coins, amount)`: infinity gives `(-1, [])`;
   * otherwise `parent` is followed from `amount` down to `0`.  The coins
   * listed pay the amount and there are as few of them as there can be.
   */
  method MinCoinsWithChange(coins: seq<int>, amount: int) returns (count: int, used: seq<int>)
    requires Positive(coins) && amount >= 0
    ensures Best(coins, amount).None? ==> count == -1 && used == []
    ensures Best(coins, amount).Some? ==> count == Best(coins, amount).value == |used| && Pays(coins, used, amount)
  {
    var dp, parent := ChangeTable(coins, amount);
    if dp[amount].None? {
      return -1, [];
    }
    used := [];
    var current := amount;
    while current > 0
      invariant 0 <= current <= amount
      invariant Best(coins, current).Some?
      invariant Pays(coins, used, amount - current)
      invariant |used| + Best(coins, current).value == Best(coins, amount).value
    {
      assert Linked(coins, current, parent[current], dp[current].value);
      var coin := parent[current];
      assert (used + [coin])[..|used|] == used;
      used := used + [coin];
      current := current - coin;
    }
    count := dp[amount].value;
  }

  /**
   * `count_ways(coins, amount)`: `dp[0] = 1`, and each coin in turn adds
   * `dp[i - coin]` to `dp[i]` from `i = coin` upwards, so `dp[i - coin]`
   * already counts the ways that use this coin again.
   */
  method CountWays(coins: seq<int>, amount: int) returns (ways: nat)
    requires Positive(coins) && amount >= 0
    ensures ways == Ways(coins, |coins|, amount)
  {
    var dp := new nat[amount + 1](j => 0);
    dp[0] := 1;
    for k := 0 to |coins|
      invariant forall j {:trigger dp[j]} :: 0 <= j <= amount ==> dp[j] == Ways(coins, k, j)
    {
      var coin := coins[k];
      var i := coin;
      while i <= amount
        invariant coin <= i
        invariant forall j {:trigger dp[j]} :: 0 <= j < i && j <= amount ==> dp[j] == Ways(coins, k + 1, j)
        invariant forall j {:trigger dp[j]} :: i <= j <= amount ==> dp[j] == Ways(coins, k, j)
        decreases amount - i
      {
        dp[i] := dp[i] + dp[i - coin];
        i := i + 1;
      }
    }
    ways := dp[amount];
  }

  /** There is exactly one way to pay nothing: no coins. */
  lemma {:induction false} WaysOfZero(coins: seq<int>, k: nat)
    requires Positive(coins) && k <= |coins|
    ensures Ways(coins, k, 0) == 1
  {
    if k > 0 {
      WaysOfZero(coins, k - 1);
    }
  }
}
