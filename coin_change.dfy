/**
 * Making change for an amount from a list of denominations, each available
 * without limit.  The greedy method takes as many of each denomination as
 * fit, largest first; the dynamic-programming method fills a table of the
 * fewest coins for every amount up to the target and then walks back
 * through the coin chosen for each amount.  Both answer with the count of
 * each denomination used, as pairs in the order the dictionary holds them,
 * and with nothing when the amount cannot be paid.
 */
module CoinChange {
  import opened Wrappers
  import Sorting
  import MultisetMin

  /** Pairs (denomination, count) in the order of the answer. */
  type Items = seq<(int, int)>

  /** Every denomination is a positive amount. */
  predicate Positive(coins: seq<int>) {
    forall i | 0 <= i < |coins| :: coins[i] > 0
  }

  /** No denomination is negative; a zero denomination pays nothing and is never chosen. */
  predicate NonNegative(coins: seq<int>) {
    forall i | 0 <= i < |coins| :: coins[i] >= 0
  }

  /** The amount paid by the pairs. */
  function Value(items: Items): int {
    if items == [] then 0 else items[0].0 * items[0].1 + Value(items[1..])
  }

  /** The number of coins in the pairs. */
  function Count(items: Items): int {
    if items == [] then 0 else items[0].1 + Count(items[1..])
  }

  /** Every recorded count is positive. */
  predicate PositiveCounts(items: Items) {
    forall i | 0 <= i < |items| :: items[i].1 > 0
  }

  /** Every recorded denomination is one of `coins`. */
  predicate KeysIn(items: Items, coins: seq<int>) {
    forall i | 0 <= i < |items| :: items[i].0 in coins
  }

  /** Denominations strictly decreasing along the pairs, so none is recorded twice. */
  predicate Descending(items: Items) {
    forall i, j | 0 <= i < j < |items| :: items[i].0 > items[j].0
  }

  /** Denominations strictly increasing along the pairs. */
  predicate Ascending(items: Items) {
    forall i, j | 0 <= i < j < |items| :: items[i].0 < items[j].0
  }

  /** The sum of a list of coins. */
  function Sum(w: seq<int>): int {
    if w == [] then 0 else Sum(w[..|w| - 1]) + w[|w| - 1]
  }

  // ------------------------------------------------------------------ greedy

  /** Larger denominations sort first. */
  function Neg(x: int): int { -x }

  /**
   * The greedy pass over denominations in the order given: stop once nothing
   * is left to pay; otherwise take `amount div c` coins of the first
   * denomination, record it when that is not zero, and go on with the
   * remainder.  Yields the recorded pairs and what is left unpaid.
   */
  function GreedyPass(amount: int, desc: seq<int>): (Items, int)
    requires Positive(desc)
  {
    if desc == [] || amount <= 0 then ([], amount)
    else
      var c := desc[0];
      var next := GreedyPass(amount % c, desc[1..]);
      ((if amount / c != 0 then [(c, amount / c)] else []) + next.0, next.1)
  }

  /** The denominations from largest to smallest. */
  function Desc(coins: seq<int>): (desc: seq<int>)
    requires Positive(coins)
    ensures Positive(desc) && multiset(desc) == multiset(coins)
  {
    PositiveSorted(coins);
    Sorting.InsertionSort(coins, Neg)
  }

  /** The greedy answer: the pass over the denominations from largest to smallest, or nothing when a remainder is left. */
  function GreedyChange(amount: int, coins: seq<int>): Items
    requires Positive(coins)
  {
    var pass := GreedyPass(amount, Desc(coins));
    if pass.1 != 0 then [] else pass.0
  }

  /** Sorting keeps the denominations positive. */
  lemma PositiveSorted(coins: seq<int>)
    requires Positive(coins)
    ensures Positive(Sorting.InsertionSort(coins, Neg))
  {
    var desc := Sorting.InsertionSort(coins, Neg);
    forall i | 0 <= i < |desc|
      ensures desc[i] > 0
    {
      assert desc[i] in multiset(desc);
      assert desc[i] in coins;
    }
  }

  /**
   * The greedy loop: denominations from largest to smallest, each taking the
   * quotient of what is left and leaving the remainder, until nothing is left.
   */
  method GreedyCoins(amount: int, coins: seq<int>) returns (res: Items)
    requires Positive(coins)
    ensures res == GreedyChange(amount, coins)
  {
    var desc := Desc(coins);
    res := [];
    var rest := amount;
    var i := 0;
    assert desc[0..] == desc;
    while i < |desc|
      invariant 0 <= i <= |desc|
      invariant GreedyPass(amount, desc).0 == res + GreedyPass(rest, desc[i..]).0
      invariant GreedyPass(amount, desc).1 == GreedyPass(rest, desc[i..]).1
      decreases |desc| - i
    {
      if rest <= 0 {
        break;
      }
      var c := desc[i];
      GreedyStep(rest, desc, i, res);
      var k := rest / c;
      rest := rest % c;
      if k != 0 {
        res := res + [(c, k)];
      }
      i := i + 1;
    }
    if rest != 0 {
      res := [];
    }
  }

  /** One round of the greedy loop peels the first denomination off the pass. */
  lemma GreedyStep(amount: int, desc: seq<int>, i: nat, res: Items)
    requires Positive(desc) && i < |desc| && amount > 0
    ensures var c := desc[i];
      var next := GreedyPass(amount % c, desc[i + 1..]);
      var taken := if amount / c != 0 then res + [(c, amount / c)] else res;
      res + GreedyPass(amount, desc[i..]).0 == taken + next.0 &&
      GreedyPass(amount, desc[i..]).1 == next.1
  {
    assert desc[i..][1..] == desc[i + 1..];
    var c := desc[i];
    var next := GreedyPass(amount % c, desc[i + 1..]);
    assert res + ([(c, amount / c)] + next.0) == res + [(c, amount / c)] + next.0;
  }

  /** A positive count of coins of value `c` is worth at least `c`. */
  lemma QuotientBound(amount: int, c: int)
    requires amount > 0 && c > 0 && amount / c != 0
    ensures c <= amount && amount / c > 0
  {
    var k := amount / c;
    assert amount == c * k + amount % c;
    assert k >= 1;
    assert c * k >= c * 1;
  }

  /** The greedy pass pays the amount but for a remainder that is never negative. */
  lemma {:induction false} GreedyPassPays(amount: int, desc: seq<int>)
    requires Positive(desc) && amount >= 0
    ensures Value(GreedyPass(amount, desc).0) + GreedyPass(amount, desc).1 == amount
    ensures GreedyPass(amount, desc).1 >= 0
    decreases |desc|
  {
    if desc != [] && amount > 0 {
      var c := desc[0];
      var rest := amount % c;
      GreedyPassPays(rest, desc[1..]);
      var next := GreedyPass(rest, desc[1..]).0;
      var k := amount / c;
      assert amount == c * k + rest;
      if k != 0 {
        var items := [(c, k)] + next;
        assert items[1..] == next;
        assert GreedyPass(amount, desc).0 == items;
        assert Value(items) == c * k + Value(next);
      } else {
        assert GreedyPass(amount, desc).0 == next;
      }
    }
  }

  /** The greedy pass records only denominations from the list. */
  lemma {:induction false} GreedyPassKeys(amount: int, desc: seq<int>)
    requires Positive(desc)
    ensures KeysIn(GreedyPass(amount, desc).0, desc)
    decreases |desc|
  {
    if desc != [] && amount > 0 {
      var c := desc[0];
      GreedyPassKeys(amount % c, desc[1..]);
      var next := GreedyPass(amount % c, desc[1..]).0;
      var items := GreedyPass(amount, desc).0;
      forall i | 0 <= i < |items|
        ensures items[i].0 in desc
      {
        if amount / c != 0 && i == 0 {
          assert items[0].0 == desc[0];
        } else {
          var j := if amount / c != 0 then i - 1 else i;
          assert items[i] == next[j];
          assert next[j].0 in desc[1..];
        }
      }
    }
  }

  /**
   * What the greedy pass records: positive counts, each denomination no
   * larger than the amount, strictly decreasing.
   */
  lemma {:induction false} GreedyPassShape(amount: int, desc: seq<int>)
    requires Positive(desc) && amount >= 0
    ensures var items := GreedyPass(amount, desc).0;
      PositiveCounts(items) && Descending(items) &&
      (forall i | 0 <= i < |items| :: items[i].0 <= amount)
    decreases |desc|
  {
    if desc != [] && amount > 0 {
      var c := desc[0];
      var rest := amount % c;
      GreedyPassShape(rest, desc[1..]);
      var next := GreedyPass(rest, desc[1..]).0;
      assert 0 <= rest < c;
      if amount / c != 0 {
        QuotientBound(amount, c);
        PrependShape(c, amount / c, next, rest);
        assert GreedyPass(amount, desc).0 == [(c, amount / c)] + next;
      } else {
        assert amount == c * (amount / c) + rest;
        assert GreedyPass(amount, desc).0 == next;
      }
    }
  }

  /** Putting a pair in front of pairs whose denominations stay below the bound `rest < c`. */
  lemma PrependShape(c: int, k: int, next: Items, rest: int)
    requires k > 0 && rest < c
    requires PositiveCounts(next) && Descending(next)
    requires forall i | 0 <= i < |next| :: next[i].0 <= rest
    ensures var items := [(c, k)] + next;
      PositiveCounts(items) && Descending(items) &&
      (forall i | 0 <= i < |items| :: items[i].0 <= c)
  {
    var items := [(c, k)] + next;
    assert forall i | 1 <= i < |items| :: items[i] == next[i - 1];
  }

  /**
   * The greedy answer pays exactly the amount with positive counts of
   * distinct denominations from the list, largest first; it is empty when
   * the amount is not positive, and, for a positive amount, empty exactly
   * when the pass leaves a remainder.
   */
  lemma GreedyChangeFacts(amount: int, coins: seq<int>)
    requires Positive(coins)
    ensures GreedyChange(amount, coins) != [] ==> Value(GreedyChange(amount, coins)) == amount
    ensures PositiveCounts(GreedyChange(amount, coins)) && KeysIn(GreedyChange(amount, coins), coins)
    ensures Descending(GreedyChange(amount, coins))
    ensures amount <= 0 ==> GreedyChange(amount, coins) == []
    ensures amount > 0 ==> (GreedyChange(amount, coins) == [] <==> GreedyPass(amount, Desc(coins)).1 != 0)
  {
    var desc := Desc(coins);
    var r := GreedyChange(amount, coins);
    if amount >= 0 {
      GreedyPassPays(amount, desc);
      GreedyPassShape(amount, desc);
      GreedyPassKeys(amount, desc);
      var items := GreedyPass(amount, desc).0;
      forall i | 0 <= i < |items|
        ensures items[i].0 in coins
      {
        assert items[i].0 in multiset(desc);
      }
    }
  }

  // ----------------------------------------------------- dynamic programming

  /** `x + 1`, where none stands for infinity. */
  function Succ(x: Option<nat>): Option<nat> {
    if x.None? then None else Some(x.value + 1)
  }

  /** `x < y`, where none stands for infinity. */
  predicate Less(x: Option<nat>, y: Option<nat>) {
    x.Some? && (y.None? || x.value < y.value)
  }

  /**
   * The fewest coins of `coins[..j]` that pay `a`, none when no choice of
   * them does: the recurrence the table follows.  A zero denomination never
   * improves an entry, so it leaves the optimum as it was.
   */
  function Opt(coins: seq<int>, j: nat, a: int): Option<nat>
    requires NonNegative(coins) && j <= |coins| && a >= 0
    decreases j, a
  {
    if a == 0 then Some(0)
    else if j == 0 then None
    else
      var c := coins[j - 1];
      var without := Opt(coins, j - 1, a);
      if a < c || c == 0 then without
      else
        var using := Succ(Opt(coins, j, a - c));
        if Less(using, without) then using else without
  }

  /** `w` is a way to pay `a` with coins of `coins[..j]`, any number of each. */
  ghost predicate IsWay(w: seq<int>, coins: seq<int>, j: nat, a: int)
    requires j <= |coins|
  {
    (forall i | 0 <= i < |w| :: w[i] in coins[..j]) && Sum(w) == a
  }

  /** A way that attains `Opt`. */
  ghost function OptWay(coins: seq<int>, j: nat, a: int): (w: seq<int>)
    requires NonNegative(coins) && j <= |coins| && a >= 0 && Opt(coins, j, a).Some?
    ensures IsWay(w, coins, j, a) && |w| == Opt(coins, j, a).value
    decreases j, a
  {
    if a == 0 then []
    else
      var c := coins[j - 1];
      if a >= c && c != 0 && Less(Succ(Opt(coins, j, a - c)), Opt(coins, j - 1, a)) then
        var w := OptWay(coins, j, a - c);
        assert (w + [c])[..|w|] == w;
        assert forall i | 0 <= i < |w| :: w[i] in coins[..j];
        w + [c]
      else
        var w := OptWay(coins, j - 1, a);
        PrefixMembers(coins, j - 1, j, w);
        w
  }

  /** Coins from a shorter prefix of the list are coins from a longer one. */
  lemma PrefixMembers(coins: seq<int>, j: nat, k: nat, w: seq<int>)
    requires j <= k <= |coins|
    requires forall i | 0 <= i < |w| :: w[i] in coins[..j]
    ensures forall i | 0 <= i < |w| :: w[i] in coins[..k]
  {
    forall i | 0 <= i < |w|
      ensures w[i] in coins[..k]
    {
      var t :| 0 <= t < j && coins[..j][t] == w[i];
      assert coins[..k][t] == w[i];
    }
  }

  /** A list of non-negative coins has a non-negative sum. */
  lemma {:induction false} SumNonNegative(w: seq<int>)
    requires forall i | 0 <= i < |w| :: w[i] >= 0
    ensures Sum(w) >= 0
    decreases |w|
  {
    if w != [] {
      SumNonNegative(w[..|w| - 1]);
    }
  }

  /** The sum of a concatenation. */
  lemma {:induction false} SumAppend(a: seq<int>, b: seq<int>)
    ensures Sum(a + b) == Sum(a) + Sum(b)
    decreases |b|
  {
    if b == [] {
      assert a + b == a;
    } else {
      var n := |b| - 1;
      SumAppend(a, b[..n]);
      assert (a + b)[..|a + b| - 1] == a + b[..n];
      assert (a + b)[|a + b| - 1] == b[n];
    }
  }

  /** Taking one coin out of a list takes its value off the sum. */
  lemma SumRemove(w: seq<int>, i: nat)
    requires i < |w|
    ensures Sum(w) == w[i] + Sum(w[..i] + w[i + 1..])
  {
    assert w == (w[..i] + [w[i]]) + w[i + 1..];
    SumAppend(w[..i] + [w[i]], w[i + 1..]);
    SumAppend(w[..i], w[i + 1..]);
    assert (w[..i] + [w[i]])[..i] == w[..i];
  }

  /** Every way to pay `a` uses at least `Opt` coins; in particular `Opt` is some count whenever a way exists. */
  lemma {:induction false} OptMinimal(coins: seq<int>, j: nat, a: int, w: seq<int>)
    requires NonNegative(coins) && j <= |coins| && IsWay(w, coins, j, a)
    ensures a >= 0
    ensures Opt(coins, j, a).Some? && Opt(coins, j, a).value <= |w|
    decreases j, |w|
  {
    WayNonNegative(coins, j, w);
    SumNonNegative(w);
    if w != [] {
      assert w[0] in coins[..j];
      var c := coins[j - 1];
      if c in w {
        var i :| 0 <= i < |w| && w[i] == c;
        var rest := w[..i] + w[i + 1..];
        SumRemove(w, i);
        forall t | 0 <= t < |rest|
          ensures rest[t] in coins[..j]
        {
          if t < i {
            assert rest[t] == w[t];
          } else {
            assert rest[t] == w[t + 1];
          }
        }
        OptMinimal(coins, j, a - c, rest);
      } else {
        forall t | 0 <= t < |w|
          ensures w[t] in coins[..j - 1]
        {
          var u :| 0 <= u < j && coins[..j][u] == w[t];
          assert u != j - 1;
          assert coins[..j - 1][u] == w[t];
        }
        OptMinimal(coins, j - 1, a, w);
      }
    }
  }

  /** The coins of a way are not negative. */
  lemma WayNonNegative(coins: seq<int>, j: nat, w: seq<int>)
    requires NonNegative(coins) && j <= |coins|
    requires forall i | 0 <= i < |w| :: w[i] in coins[..j]
    ensures forall i | 0 <= i < |w| :: w[i] >= 0
  {
    forall i | 0 <= i < |w|
      ensures w[i] >= 0
    {
      var t :| 0 <= t < j && coins[..j][t] == w[i];
    }
  }

  /** `Opt` is none exactly when no way exists, and otherwise the count of a way that no other way beats. */
  lemma OptIsFewest(coins: seq<int>, a: int)
    requires NonNegative(coins) && a >= 0
    ensures Opt(coins, |coins|, a).None? <==> forall w :: !IsWay(w, coins, |coins|, a)
    ensures Opt(coins, |coins|, a).Some? ==>
      (exists w :: IsWay(w, coins, |coins|, a) && |w| == Opt(coins, |coins|, a).value) &&
      (forall w | IsWay(w, coins, |coins|, a) :: Opt(coins, |coins|, a).value <= |w|)
  {
    var n := |coins|;
    forall w | IsWay(w, coins, n, a)
      ensures Opt(coins, n, a).Some? && Opt(coins, n, a).value <= |w|
    {
      OptMinimal(coins, n, a, w);
    }
    if Opt(coins, n, a).Some? {
      var w := OptWay(coins, n, a);
      assert IsWay(w, coins, n, a);
    }
  }

  /** A zero denomination is never used: with coins [0, 1] the amount 3 takes three coins of 1. */
  lemma ZeroCoinExample()
    ensures Opt([0, 1], 2, 3) == Some(3)
  {
    var coins := [0, 1];
    assert Opt(coins, 1, 1) == None && Opt(coins, 1, 2) == None && Opt(coins, 1, 3) == None;
    assert Opt(coins, 2, 1) == Some(1);
    assert Opt(coins, 2, 2) == Some(2);
  }

  /** Every amount below `c`, and every amount when `c` is zero, is paid the same way with or without coin `c`. */
  lemma OptBelow(coins: seq<int>, j: nat, b: int)
    requires NonNegative(coins) && j < |coins| && 0 <= b && (b < coins[j] || coins[j] == 0)
    ensures Opt(coins, j + 1, b) == Opt(coins, j, b)
  {
  }

  /**
   * Every positive amount in the table names a coin of the list no larger
   * than itself, and the amount left after paying that coin needs at most
   * one coin fewer.
   */
  ghost predicate ChainOk(d: seq<Option<nat>>, ch: seq<int>, coins: seq<int>)
    requires |d| == |ch|
  {
    forall b | 0 < b < |d| && d[b].Some? ::
      0 < ch[b] <= b && ch[b] in coins && Less(d[b - ch[b]], d[b])
  }

  /** Lowering entry `a` to one more than entry `a - c`, and choosing `c` there, keeps every chain link. */
  lemma ChainUpdate(d: seq<Option<nat>>, ch: seq<int>, coins: seq<int>, a: nat, c: int)
    requires |d| == |ch| && ChainOk(d, ch, coins)
    requires 0 < c <= a < |d| && c in coins
    requires Less(Succ(d[a - c]), d[a])
    ensures ChainOk(d[a := Succ(d[a - c])], ch[a := c], coins)
  {
    var d', ch' := d[a := Succ(d[a - c])], ch[a := c];
    forall b | 0 < b < |d'| && d'[b].Some?
      ensures 0 < ch'[b] <= b && ch'[b] in coins && Less(d'[b - ch'[b]], d'[b])
    {
      if b != a {
        assert d'[b] == d[b] && ch'[b] == ch[b];
      }
    }
  }

  /** One round of the inner loop: relax entry `a` through coin `c`. */
  lemma RelaxStep(coins: seq<int>, j: nat, a: int)
    requires NonNegative(coins) && j < |coins| && 0 < coins[j] <= a
    ensures var c := coins[j];
      var x := Succ(Opt(coins, j + 1, a - c));
      Opt(coins, j + 1, a) == (if Less(x, Opt(coins, j, a)) then x else Opt(coins, j, a))
  {
  }

  /** The table starts as "0 coins for amount 0, infinity for the rest": the optimum over no denominations. */
  lemma TableStart(coins: seq<int>, b: int)
    requires NonNegative(coins) && b >= 0
    ensures Opt(coins, 0, b) == (if b == 0 then Some(0) else None)
  {
  }

  /**
   * Fewest coins for every amount up to the target, and the coin last used
   * for each; the outer loop runs once per denomination in list order.
   */
  method FillTable(dp: array<Option<nat>>, choice: array<int>, coins: seq<int>)
    requires NonNegative(coins) && dp.Length == choice.Length >= 1
    requires forall b | 0 <= b < dp.Length :: dp[b] == Opt(coins, 0, b)
    requires ChainOk(dp[..], choice[..], coins)
    modifies dp, choice
    ensures forall b | 0 <= b < dp.Length :: dp[b] == Opt(coins, |coins|, b)
    ensures ChainOk(dp[..], choice[..], coins)
  {
    for j := 0 to |coins|
      invariant forall b | 0 <= b < dp.Length :: dp[b] == Opt(coins, j, b)
      invariant ChainOk(dp[..], choice[..], coins)
    {
      Pass(dp, choice, coins, j);
    }
  }

  /** The inner loop for denomination `coins[j]`: every amount from `c` up is offered one more coin than the amount `c` below it. */
  method Pass(dp: array<Option<nat>>, choice: array<int>, coins: seq<int>, j: nat)
    requires NonNegative(coins) && j < |coins| && dp.Length == choice.Length >= 1
    requires forall b | 0 <= b < dp.Length :: dp[b] == Opt(coins, j, b)
    requires ChainOk(dp[..], choice[..], coins)
    modifies dp, choice
    ensures forall b | 0 <= b < dp.Length :: dp[b] == Opt(coins, j + 1, b)
    ensures ChainOk(dp[..], choice[..], coins)
  {
    var c := coins[j];
    var amount := dp.Length - 1;
    forall b | 0 <= b < dp.Length && (b < c || c == 0)
      ensures Opt(coins, j + 1, b) == Opt(coins, j, b)
    {
      OptBelow(coins, j, b);
    }
    if c <= amount {
      for a := c to amount + 1
        invariant forall b | 0 <= b < a :: dp[b] == Opt(coins, j + 1, b)
        invariant forall b | a <= b <= amount :: dp[b] == Opt(coins, j, b)
        invariant ChainOk(dp[..], choice[..], coins)
      {
        Relax(dp, choice, coins, j, a);
      }
    }
  }

  /**
   * One round of the inner loop: entry `a` becomes one more than entry
   * `a - c` when that is fewer, and `c` is recorded as its choice.  For a
   * zero denomination entry `a - c` is entry `a` itself, so nothing changes.
   */
  method Relax(dp: array<Option<nat>>, choice: array<int>, coins: seq<int>, j: nat, a: nat)
    requires NonNegative(coins) && j < |coins| && dp.Length == choice.Length
    requires coins[j] <= a < dp.Length && dp[a] == Opt(coins, j, a)
    requires coins[j] == 0 || dp[a - coins[j]] == Opt(coins, j + 1, a - coins[j])
    requires ChainOk(dp[..], choice[..], coins)
    modifies dp, choice
    ensures dp[..] == old(dp[..])[a := Opt(coins, j + 1, a)]
    ensures ChainOk(dp[..], choice[..], coins)
  {
    var c := coins[j];
    var x := Succ(dp[a - c]);
    if c == 0 {
      OptBelow(coins, j, a);
    } else {
      RelaxStep(coins, j, a);
    }
    if Less(x, dp[a]) {
      ghost var d, ch := dp[..], choice[..];
      ChainUpdate(d, ch, coins, a, c);
      dp[a] := x;
      choice[a] := c;
      assert dp[..] == d[a := x] && choice[..] == ch[a := c];
    }
  }

  // ------------------------------------------------------ reconstruction

  /** The items of a dictionary sorted by key. */
  function SortedItems(m: map<int, int>): Items
    decreases |m|
  {
    if |m| == 0 then []
    else
      var k := MultisetMin.Least(m.Keys);
      var rest := m - {k};
      assert rest.Keys == m.Keys - {k};
      [(k, m[k])] + SortedItems(rest)
  }

  /** The sorted items list every entry of the dictionary once, by increasing key. */
  lemma {:induction false} SortedItemsFacts(m: map<int, int>)
    ensures |SortedItems(m)| == |m|
    ensures forall i | 0 <= i < |SortedItems(m)| :: SortedItems(m)[i].0 in m && m[SortedItems(m)[i].0] == SortedItems(m)[i].1
    ensures Ascending(SortedItems(m))
    decreases |m|
  {
    if |m| != 0 {
      var k := MultisetMin.Least(m.Keys);
      var rest := m - {k};
      assert rest.Keys == m.Keys - {k};
      SortedItemsFacts(rest);
      var tail := SortedItems(rest);
      assert SortedItems(m) == [(k, m[k])] + tail;
      assert forall i | 0 <= i < |tail| :: tail[i].0 in rest;
    }
  }

  /** One more coin `c` in the tally. */
  function Tally(m: map<int, int>, c: int): map<int, int> {
    m[c := (if c in m then m[c] else 0) + 1]
  }

  /** The tally of a list of coins. */
  function Counts(used: seq<int>): (m: map<int, int>)
    ensures forall k | k in m :: k in used && m[k] >= 1
  {
    if used == [] then map[]
    else Tally(Counts(used[..|used| - 1]), used[|used| - 1])
  }

  /** The sorted items of a dictionary split into any one key's pair and the items of the rest. */
  lemma {:induction false} ItemsRemove(m: map<int, int>, k: int)
    requires k in m
    ensures Value(SortedItems(m)) == k * m[k] + Value(SortedItems(m - {k}))
    ensures Count(SortedItems(m)) == m[k] + Count(SortedItems(m - {k}))
    decreases |m|
  {
    var k0 := MultisetMin.Least(m.Keys);
    if k != k0 {
      var m0 := m - {k0};
      assert m0.Keys == m.Keys - {k0};
      ItemsRemove(m0, k);
      var mk := m - {k};
      assert mk.Keys == m.Keys - {k};
      assert MultisetMin.IsLeast(mk.Keys, k0);
      assert MultisetMin.Least(mk.Keys) == k0;
      assert mk - {k0} == m0 - {k};
    }
  }

  /** Adding a coin to the tally adds its value and one to the count of the sorted items. */
  lemma TallyItems(m: map<int, int>, c: int)
    ensures Value(SortedItems(Tally(m, c))) == Value(SortedItems(m)) + c
    ensures Count(SortedItems(Tally(m, c))) == Count(SortedItems(m)) + 1
  {
    var t := Tally(m, c);
    ItemsRemove(t, c);
    assert t - {c} == m - {c};
    if c in m {
      ItemsRemove(m, c);
    } else {
      assert m - {c} == m;
    }
  }

  /** The sorted tally of a list of coins pays their sum with as many coins as the list holds. */
  lemma {:induction false} CountsItems(used: seq<int>)
    ensures Value(SortedItems(Counts(used))) == Sum(used)
    ensures Count(SortedItems(Counts(used))) == |used|
    decreases |used|
  {
    if used != [] {
      var n := |used| - 1;
      CountsItems(used[..n]);
      TallyItems(Counts(used[..n]), used[n]);
    }
  }

  /**
   * The walk back from the target: pay the coin chosen for the amount left,
   * count it in the dictionary, and go on with what remains; the dictionary
   * is returned sorted by denomination.  The coins paid are returned as a
   * ghost list.
   */
  method Reconstruct(dp: array<Option<nat>>, choice: array<int>, amount: nat, ghost coins: seq<int>)
    returns (res: Items, ghost used: seq<int>)
    requires dp.Length == choice.Length == amount + 1
    requires ChainOk(dp[..], choice[..], coins) && dp[amount].Some?
    ensures Value(res) == amount && Count(res) == |used| <= dp[amount].value
    ensures Sum(used) == amount && forall i | 0 <= i < |used| :: used[i] in coins
    ensures Ascending(res) && PositiveCounts(res) && KeysIn(res, coins)
  {
    var m: map<int, int> := map[];
    var a := amount;
    used := [];
    while a > 0
      invariant 0 <= a <= amount && dp[a].Some?
      invariant m == Counts(used) && Sum(used) + a == amount
      invariant |used| + dp[a].value <= dp[amount].value
      invariant forall i | 0 <= i < |used| :: used[i] in coins
      decreases a
    {
      var c := choice[a];
      ChainAt(dp[..], choice[..], coins, a);
      if c == -1 {
        assert false;
      }
      m := Tally(m, c);
      assert (used + [c])[..|used|] == used;
      used := used + [c];
      a := a - c;
    }
    res := SortedItems(m);
    SortedItemsFacts(m);
    CountsItems(used);
    forall i | 0 <= i < |res|
      ensures res[i].1 > 0 && res[i].0 in coins
    {
      var k := res[i].0;
      assert k in used;
    }
  }

  /** The chain link at a positive amount of the table. */
  lemma ChainAt(d: seq<Option<nat>>, ch: seq<int>, coins: seq<int>, a: nat)
    requires |d| == |ch| && ChainOk(d, ch, coins) && 0 < a < |d| && d[a].Some?
    ensures 0 < ch[a] <= a && ch[a] in coins
    ensures d[a - ch[a]].Some? && d[a - ch[a]].value + 1 <= d[a].value
  {
    assert Less(d[a - ch[a]], d[a]);
  }

  /**
   * The dynamic-programming answer: nothing for a negative amount or one no
   * choice of coins pays; otherwise the fewest coins, as positive counts
   * sorted by denomination.
   */
  method MinCoins(amount: int, coins: seq<int>) returns (res: Items)
    requires NonNegative(coins)
    ensures amount < 0 ==> res == []
    ensures amount >= 0 && Opt(coins, |coins|, amount).None? ==> res == []
    ensures amount >= 0 && Opt(coins, |coins|, amount).Some? ==>
      Value(res) == amount && Count(res) == Opt(coins, |coins|, amount).value
    ensures Ascending(res) && PositiveCounts(res) && KeysIn(res, coins)
    ensures amount == 0 ==> res == []
  {
    if amount < 0 {
      return [];
    }
    var dp := new Option<nat>[amount + 1](b => if b == 0 then Some(0) else None);
    var choice := new int[amount + 1](b => -1);
    forall b | 0 <= b < dp.Length
      ensures dp[b] == Opt(coins, 0, b)
    {
      TableStart(coins, b);
    }
    FillTable(dp, choice, coins);
    if dp[amount].None? {
      return [];
    }
    ghost var used;
    res, used := Reconstruct(dp, choice, amount, coins);
    OptMinimal(coins, |coins|, amount, used);
    if amount == 0 {
      EmptyItems(res);
    }
  }

  /** Pairs with positive counts and no coins are no pairs. */
  lemma EmptyItems(items: Items)
    requires PositiveCounts(items) && Count(items) == 0
    ensures items == []
  {
    if items != [] {
      CountPositive(items[1..]);
    }
  }

  /** Positive counts add up to a positive number of coins. */
  lemma {:induction false} CountPositive(items: Items)
    requires PositiveCounts(items)
    ensures Count(items) >= 0
    ensures items != [] ==> Count(items) > 0
    decreases |items|
  {
    if items != [] {
      CountPositive(items[1..]);
    }
  }

  // ------------------------------------------------- greedy against optimum

  /** `k` coins of value `c`. */
  function Repeat(c: int, k: int): (w: seq<int>)
    ensures |w| == (if k > 0 then k else 0)
    ensures forall i | 0 <= i < |w| :: w[i] == c
  {
    if k <= 0 then [] else Repeat(c, k - 1) + [c]
  }

  /** The coins the pairs stand for, one by one. */
  function Expand(items: Items): seq<int> {
    if items == [] then [] else Repeat(items[0].0, items[0].1) + Expand(items[1..])
  }

  /** `k` coins of value `c` are worth `c * k`. */
  lemma {:induction false} RepeatSum(c: int, k: nat)
    ensures Sum(Repeat(c, k)) == c * k
    decreases k
  {
    if k > 0 {
      RepeatSum(c, k - 1);
      assert Repeat(c, k)[..k - 1] == Repeat(c, k - 1);
    }
  }

  /** Expanding pairs with positive counts gives a list of their coins with the same value and size. */
  lemma {:induction false} ExpandWay(items: Items)
    requires PositiveCounts(items)
    ensures Sum(Expand(items)) == Value(items) && |Expand(items)| == Count(items)
    ensures forall i | 0 <= i < |Expand(items)| :: exists t :: 0 <= t < |items| && Expand(items)[i] == items[t].0
    decreases |items|
  {
    if items != [] {
      var head := Repeat(items[0].0, items[0].1);
      var tail := Expand(items[1..]);
      ExpandWay(items[1..]);
      RepeatSum(items[0].0, items[0].1);
      SumAppend(head, tail);
      forall i | 0 <= i < |head + tail|
        ensures exists t :: 0 <= t < |items| && (head + tail)[i] == items[t].0
      {
        if i < |head| {
          assert (head + tail)[i] == items[0].0;
        } else {
          var t :| 0 <= t < |items[1..]| && tail[i - |head|] == items[1..][t].0;
          assert (head + tail)[i] == items[t + 1].0;
        }
      }
    }
  }

  /** Whenever the greedy method finds an answer, the optimum uses no more coins than it does. */
  lemma GreedyNotFewer(amount: int, coins: seq<int>)
    requires Positive(coins) && GreedyChange(amount, coins) != []
    ensures amount > 0
    ensures Opt(coins, |coins|, amount).Some?
    ensures Opt(coins, |coins|, amount).value <= Count(GreedyChange(amount, coins))
  {
    var r := GreedyChange(amount, coins);
    GreedyChangeFacts(amount, coins);
    ExpandWay(r);
    var w := Expand(r);
    forall i | 0 <= i < |w|
      ensures w[i] in coins[..|coins|]
    {
      var t :| 0 <= t < |r| && w[i] == r[t].0;
      assert coins[..|coins|] == coins;
    }
    OptMinimal(coins, |coins|, amount, w);
  }
}
