/**
 * Choosing dishes within a budget so as to maximise calories, each dish at
 * most once (the 0/1 knapsack problem).  The greedy method goes through the
 * dishes from the most to the least calories per unit of cost and takes each
 * one that still fits; the dynamic-programming method fills a table of the
 * best total for every prefix of the dishes and every budget up to the given
 * one, then walks back through the table to name the dishes it used.
 */
module Knapsack {
  import Sequences

  /** A dish: its name, its cost and its calories. */
  datatype Item = Item(name: string, cost: int, calories: int)

  /** No dish costs zero (the greedy order divides by the cost). */
  predicate NonZeroCosts(items: seq<Item>) {
    forall x | x in items :: x.cost != 0
  }

  /** No dish has a negative cost (the table looks back `cost` columns). */
  predicate NonNegativeCosts(items: seq<Item>) {
    forall x | x in items :: x.cost >= 0
  }

  /** Every dish costs something. */
  predicate PositiveCosts(items: seq<Item>) {
    forall x | x in items :: x.cost > 0
  }

  /** The total cost of the dishes. */
  function Cost(s: seq<Item>): int {
    if s == [] then 0 else Cost(s[..|s| - 1]) + s[|s| - 1].cost
  }

  /** The total calories of the dishes. */
  function Calories(s: seq<Item>): int {
    if s == [] then 0 else Calories(s[..|s| - 1]) + s[|s| - 1].calories
  }

  /** The names of the dishes, in order. */
  function Names(s: seq<Item>): (r: seq<string>)
    ensures |r| == |s|
  {
    if s == [] then [] else Names(s[..|s| - 1]) + [s[|s| - 1].name]
  }

  // ------------------------------------------------------- ratio order

  /** The numerator of calories per cost, with the sign moved off the denominator. */
  function Num(x: Item): int {
    if x.cost < 0 then -x.calories else x.calories
  }

  /** The denominator of calories per cost, made non-negative. */
  function Den(x: Item): int {
    if x.cost < 0 then -x.cost else x.cost
  }

  /** `x` has at least as many calories per unit of cost as `y`, compared by cross-multiplication. */
  predicate RatioAtLeast(x: Item, y: Item) {
    Num(x) * Den(y) >= Num(y) * Den(x)
  }

  /** Each dish has at least the calories per cost of the one after it. */
  predicate RatioOrdered(s: seq<Item>) {
    forall i | 0 <= i < |s| - 1 :: RatioAtLeast(s[i], s[i + 1])
  }

  /**
   * Puts `x` before the first dish whose ratio it matches or beats, so that
   * among dishes of equal ratio the one inserted later (earlier in the
   * original order) comes first.
   */
  function InsertByRatio(r: seq<Item>, x: Item): (q: seq<Item>)
    ensures multiset(q) == multiset(r) + multiset{x}
  {
    if r == [] || RatioAtLeast(x, r[0]) then [x] + r
    else
      assert r == [r[0]] + r[1..];
      [r[0]] + InsertByRatio(r[1..], x)
  }

  /** The dishes by calories per cost, highest first, keeping the original order among equal ratios. */
  function RatioSort(s: seq<Item>): (r: seq<Item>)
    ensures multiset(r) == multiset(s)
  {
    if s == [] then []
    else
      assert s == [s[0]] + s[1..];
      InsertByRatio(RatioSort(s[1..]), s[0])
  }

  /** Insertion keeps the ratio order. */
  lemma {:induction false} InsertOrdered(r: seq<Item>, x: Item)
    requires RatioOrdered(r)
    ensures RatioOrdered(InsertByRatio(r, x))
  {
    if r != [] && !RatioAtLeast(x, r[0]) {
      var tail := r[1..];
      InsertOrdered(tail, x);
      var q := InsertByRatio(tail, x);
      assert q[0] == x || q[0] == tail[0];
    }
  }

  /** The sorted dishes are in ratio order. */
  lemma {:induction false} RatioSortOrdered(s: seq<Item>)
    ensures RatioOrdered(RatioSort(s))
  {
    if s != [] {
      RatioSortOrdered(s[1..]);
      InsertOrdered(RatioSort(s[1..]), s[0]);
    }
  }

  /** The cross-multiplied comparison is transitive when no cost is zero. */
  lemma RatioTransitive(x: Item, y: Item, z: Item)
    requires Den(x) > 0 && Den(y) > 0 && Den(z) > 0
    requires RatioAtLeast(x, y) && RatioAtLeast(y, z)
    ensures RatioAtLeast(x, z)
  {
    var a, b, c, d, e, f := Num(x), Den(x), Num(y), Den(y), Num(z), Den(z);
    assert a * d * f >= c * b * f by { MulRight(a * d, c * b, f); }
    assert c * f * b >= e * d * b by { MulRight(c * f, e * d, b); }
    assert (a * f) * d >= (e * b) * d;
    if a * f < e * b {
      MulRight(e * b, a * f + 1, d);
    }
  }

  /** Multiplying both sides by a positive number keeps `>=`. */
  lemma MulRight(p: int, q: int, r: int)
    requires p >= q && r > 0
    ensures p * r >= q * r
  {
    assert p * r - q * r == (p - q) * r;
  }

  /** A dish before another in the sorted order has at least its calories per cost. */
  lemma {:induction false} RatioChain(s: seq<Item>, i: nat, j: nat)
    requires NonZeroCosts(s) && RatioOrdered(s) && i < j < |s|
    ensures RatioAtLeast(s[i], s[j])
    decreases j - i
  {
    if j > i + 1 {
      RatioChain(s, i, j - 1);
      assert s[i] in s && s[j - 1] in s && s[j] in s;
      RatioTransitive(s[i], s[j - 1], s[j]);
    }
  }

  /**
   * The order the greedy method visits the dishes in: a rearrangement of
   * them in which every dish has at least the calories per cost of every
   * later one.
   */
  lemma RatioSortFacts(items: seq<Item>)
    requires NonZeroCosts(items)
    ensures var s := RatioSort(items);
      multiset(s) == multiset(items) &&
      forall i, j | 0 <= i < j < |s| :: RatioAtLeast(s[i], s[j])
  {
    var s := RatioSort(items);
    RatioSortOrdered(items);
    assert NonZeroCosts(s) by {
      forall x | x in s
        ensures x.cost != 0
      {
        assert x in multiset(s);
      }
    }
    forall i, j | 0 <= i < j < |s|
      ensures RatioAtLeast(s[i], s[j])
    {
      RatioChain(s, i, j);
    }
  }

  // ------------------------------------------------------------ greedy

  /**
   * The greedy pass over dishes in the order given: take a dish when what is
   * left of the budget covers its cost.  Yields the dishes taken and what is
   * left of the budget.
   */
  function GreedyTake(budget: int, s: seq<Item>): (seq<Item>, int) {
    if s == [] then ([], budget)
    else
      var prev := GreedyTake(budget, s[..|s| - 1]);
      var x := s[|s| - 1];
      if prev.1 >= x.cost then (prev.0 + [x], prev.1 - x.cost) else prev
  }

  /**
   * The greedy method: dishes in ratio order, each taken when the remaining
   * budget covers it, the budget reduced and its calories added.
   */
  method GreedyAlgorithm(items: seq<Item>, budget: int) returns (chosen: seq<string>, total: int)
    requires NonZeroCosts(items)
    ensures chosen == Names(GreedyTake(budget, RatioSort(items)).0)
    ensures total == Calories(GreedyTake(budget, RatioSort(items)).0)
  {
    var sorted := RatioSort(items);
    var left := budget;
    total := 0;
    chosen := [];
    ghost var taken: seq<Item> := [];
    for k := 0 to |sorted|
      invariant GreedyTake(budget, sorted[..k]) == (taken, left)
      invariant chosen == Names(taken) && total == Calories(taken)
    {
      var x := sorted[k];
      assert sorted[..k + 1][..k] == sorted[..k];
      if left >= x.cost {
        left := left - x.cost;
        total := total + x.calories;
        chosen := chosen + [x.name];
        SnocSums(taken, x);
        taken := taken + [x];
      }
    }
    assert sorted[..|sorted|] == sorted;
  }

  /** Sums and names of a list with one more dish at the end. */
  lemma SnocSums(s: seq<Item>, x: Item)
    ensures Cost(s + [x]) == Cost(s) + x.cost
    ensures Calories(s + [x]) == Calories(s) + x.calories
    ensures Names(s + [x]) == Names(s) + [x.name]
  {
    assert (s + [x])[..|s|] == s;
  }

  /**
   * What the greedy pass takes: dishes of the list, each at most once, whose
   * cost together with what is left is the budget; what is left is never
   * negative once a dish has been taken or when the budget was not negative.
   */
  lemma {:induction false} GreedyTakeFacts(budget: int, s: seq<Item>)
    ensures var (taken, left) := GreedyTake(budget, s);
      multiset(taken) <= multiset(s) &&
      Cost(taken) + left == budget &&
      (budget >= 0 || taken != [] ==> left >= 0)
  {
    if s != [] {
      var front := s[..|s| - 1];
      var x := s[|s| - 1];
      GreedyTakeFacts(budget, front);
      assert s == front + [x];
      var prev := GreedyTake(budget, front);
      if prev.1 >= x.cost {
        SnocSums(prev.0, x);
      }
    }
  }

  /** Within a budget that is not negative, the greedy choice costs at most the budget. */
  lemma GreedyWithinBudget(items: seq<Item>, budget: int)
    requires budget >= 0
    ensures var taken := GreedyTake(budget, RatioSort(items)).0;
      Cost(taken) <= budget && multiset(taken) <= multiset(items)
  {
    GreedyTakeFacts(budget, RatioSort(items));
  }

  // ------------------------------------------------ dynamic programming

  /** The larger of two numbers. */
  function Max(a: int, b: int): int {
    if a >= b then a else b
  }

  /**
   * The best calories from the first `i` dishes within budget `b`: the
   * recurrence of the table, either leaving dish `i` out or, when it fits,
   * taking it and the best of the others within what is left.
   */
  function Best(items: seq<Item>, i: nat, b: int): int
    requires i <= |items|
  {
    if i == 0 then 0
    else
      var x := items[i - 1];
      if x.cost <= b then Max(Best(items, i - 1, b), Best(items, i - 1, b - x.cost) + x.calories)
      else Best(items, i - 1, b)
  }

  /** `sel` takes each of the first `i` dishes at most once and costs at most `b`. */
  ghost predicate Fits(sel: seq<Item>, items: seq<Item>, i: nat, b: int)
    requires i <= |items|
  {
    multiset(sel) <= multiset(items[..i]) && Cost(sel) <= b
  }

  /** Costs and calories add up over a concatenation. */
  lemma {:induction false} SumsAppend(a: seq<Item>, c: seq<Item>)
    ensures Cost(a + c) == Cost(a) + Cost(c)
    ensures Calories(a + c) == Calories(a) + Calories(c)
    decreases |c|
  {
    if c != [] {
      var front := c[..|c| - 1];
      SumsAppend(a, front);
      assert a + c == (a + front) + [c[|c| - 1]];
      SnocSums(a + front, c[|c| - 1]);
      SnocSums(front, c[|c| - 1]);
      assert c == front + [c[|c| - 1]];
    } else {
      assert a + c == a;
    }
  }

  /** Dishes of non-negative cost cost nothing negative together. */
  lemma {:induction false} CostNonNegative(s: seq<Item>)
    requires NonNegativeCosts(s)
    ensures Cost(s) >= 0
  {
    if s != [] {
      var front := s[..|s| - 1];
      assert NonNegativeCosts(front) by {
        forall x | x in front
          ensures x.cost >= 0
        {
          assert x in s;
        }
      }
      CostNonNegative(front);
      assert s[|s| - 1] in s;
    }
  }

  /** A selection drawn from dishes of non-negative cost has non-negative cost. */
  lemma CostOfSelection(sel: seq<Item>, items: seq<Item>)
    requires NonNegativeCosts(items) && multiset(sel) <= multiset(items)
    ensures Cost(sel) >= 0
  {
    forall x | x in sel
      ensures x.cost >= 0
    {
      assert x in multiset(sel);
      assert x in multiset(items);
    }
    CostNonNegative(sel);
  }

  /** Taking one dish out of a selection takes its cost and calories off the totals. */
  lemma RemoveOne(sel: seq<Item>, k: nat)
    requires k < |sel|
    ensures var rest := sel[..k] + sel[k + 1..];
      Cost(sel) == Cost(rest) + sel[k].cost &&
      Calories(sel) == Calories(rest) + sel[k].calories &&
      multiset(rest) == multiset(sel) - multiset{sel[k]}
  {
    var x := sel[k];
    var left, right := sel[..k], sel[k + 1..];
    assert sel == left + [x] + right;
    SumsAppend(left, [x]);
    SumsAppend(left + [x], right);
    SumsAppend(left, right);
    SnocSums([], x);
    assert [] + [x] == [x];
  }

  /** The first `i` dishes have non-negative costs when all dishes do. */
  lemma PrefixNonNegative(items: seq<Item>, i: nat)
    requires i <= |items| && NonNegativeCosts(items)
    ensures NonNegativeCosts(items[..i])
  {
    forall x | x in items[..i]
      ensures x.cost >= 0
    {
      assert x in items;
    }
  }

  /** Adding the same dish to both sides keeps a sub-multiset relation. */
  lemma SubAddOne(a: multiset<Item>, c: multiset<Item>, x: Item)
    requires a <= c
    ensures a + multiset{x} <= c + multiset{x}
  {
  }

  /** A sub-multiset stays one when more is added to the larger side. */
  lemma SubWithin(a: multiset<Item>, c: multiset<Item>, d: multiset<Item>)
    requires a <= c
    ensures a <= c + d && a <= d + c
  {
  }

  /** Taking one copy of a dish off a selection that fits into the others plus that dish. */
  lemma SubTakeOne(a: multiset<Item>, c: multiset<Item>, x: Item)
    requires a <= c + multiset{x}
    ensures a - multiset{x} <= c
    ensures x !in a ==> a <= c
  {
    forall y
      ensures (a - multiset{x})[y] <= c[y]
    {
    }
  }

  /** The recurrence never loses by adding a dish, and gains its calories when it fits. */
  lemma BestGrows(items: seq<Item>, i: nat, b: int)
    requires 1 <= i <= |items|
    ensures Best(items, i, b) >= Best(items, i - 1, b)
    ensures items[i - 1].cost <= b ==>
      Best(items, i, b) >= Best(items, i - 1, b - items[i - 1].cost) + items[i - 1].calories
  {
  }

  /** No selection within the budget beats the recurrence. */
  lemma {:induction false} BestIsUpperBound(items: seq<Item>, i: nat, b: int, sel: seq<Item>)
    requires i <= |items| && NonNegativeCosts(items)
    requires Fits(sel, items, i, b)
    ensures Calories(sel) <= Best(items, i, b)
    decreases i, 1
  {
    if i == 0 {
      assert items[..0] == [];
      assert multiset(sel) == multiset{};
      assert sel == [];
    } else if items[i - 1] in multiset(sel) {
      UpperBoundTaking(items, i, b, sel);
    } else {
      PrefixLast(items, i);
      SubTakeOne(multiset(sel), multiset(items[..i - 1]), items[i - 1]);
      BestIsUpperBound(items, i - 1, b, sel);
      BestGrows(items, i, b);
    }
  }

  /** The case of the bound where the selection holds dish `i`: take it out and bound the rest. */
  lemma {:induction false} UpperBoundTaking(items: seq<Item>, i: nat, b: int, sel: seq<Item>)
    requires 1 <= i <= |items| && NonNegativeCosts(items)
    requires Fits(sel, items, i, b) && items[i - 1] in multiset(sel)
    ensures Calories(sel) <= Best(items, i, b)
    decreases i, 0
  {
    var x := items[i - 1];
    var before := items[..i - 1];
    PrefixLast(items, i);
    var rest := TakeOut(sel, x);
    SubTakeOne(multiset(sel), multiset(before), x);
    PrefixNonNegative(items, i - 1);
    CostOfSelection(rest, before);
    BestIsUpperBound(items, i - 1, b - x.cost, rest);
    BestGrows(items, i, b);
  }

  /** The dishes of the first `i` are those of the first `i - 1` and dish `i`. */
  lemma PrefixLast(items: seq<Item>, i: nat)
    requires 1 <= i <= |items|
    ensures multiset(items[..i]) == multiset(items[..i - 1]) + multiset{items[i - 1]}
  {
    assert items[..i] == items[..i - 1] + [items[i - 1]];
  }

  /** A dish that occurs in a selection can be taken out of it. */
  lemma TakeOut(sel: seq<Item>, x: Item) returns (rest: seq<Item>)
    requires x in multiset(sel)
    ensures Cost(sel) == Cost(rest) + x.cost && Calories(sel) == Calories(rest) + x.calories
    ensures multiset(rest) == multiset(sel) - multiset{x}
  {
    assert x in sel;
    var k :| 0 <= k < |sel| && sel[k] == x;
    RemoveOne(sel, k);
    rest := sel[..k] + sel[k + 1..];
  }

  /** Some selection within the budget reaches the recurrence's value. */
  lemma {:induction false} BestIsReached(items: seq<Item>, i: nat, b: int) returns (sel: seq<Item>)
    requires i <= |items| && b >= 0
    ensures Fits(sel, items, i, b) && Calories(sel) == Best(items, i, b)
    decreases i
  {
    if i == 0 {
      sel := [];
    } else {
      var x := items[i - 1];
      var before := items[..i - 1];
      PrefixLast(items, i);
      if x.cost <= b && Best(items, i - 1, b - x.cost) + x.calories >= Best(items, i - 1, b) {
        var rest := BestIsReached(items, i - 1, b - x.cost);
        SnocSums(rest, x);
        SubAddOne(multiset(rest), multiset(before), x);
        sel := rest + [x];
        BestCases(items, i, b);
      } else {
        sel := BestIsReached(items, i - 1, b);
        SubWithin(multiset(sel), multiset(before), multiset{x});
        BestCases(items, i, b);
      }
    }
  }

  /** The recurrence at dish `i` takes the larger of leaving the dish out and, when it fits, taking it. */
  lemma BestCases(items: seq<Item>, i: nat, b: int)
    requires 1 <= i <= |items|
    ensures var x := items[i - 1];
      var without := Best(items, i - 1, b);
      if x.cost <= b && Best(items, i - 1, b - x.cost) + x.calories >= without
      then Best(items, i, b) == Best(items, i - 1, b - x.cost) + x.calories
      else Best(items, i, b) == without
  {
  }

  /**
   * The recurrence is the knapsack optimum: the most calories of any
   * selection of the first `i` dishes, each at most once, within budget `b`.
   */
  lemma BestIsOptimum(items: seq<Item>, i: nat, b: int)
    requires i <= |items| && b >= 0 && NonNegativeCosts(items)
    ensures forall sel | Fits(sel, items, i, b) :: Calories(sel) <= Best(items, i, b)
    ensures exists sel :: Fits(sel, items, i, b) && Calories(sel) == Best(items, i, b)
  {
    forall sel | Fits(sel, items, i, b)
      ensures Calories(sel) <= Best(items, i, b)
    {
      BestIsUpperBound(items, i, b, sel);
    }
    var sel := BestIsReached(items, i, b);
  }

  /**
   * Fills the table row by row: row 0 is all zero, and row `i` follows the
   * recurrence from row `i - 1`.
   */
  method FillTable(items: seq<Item>, budget: int) returns (dp: array2<int>)
    requires budget >= 0 && NonNegativeCosts(items)
    ensures fresh(dp)
    ensures dp.Length0 == |items| + 1 && dp.Length1 == budget + 1
    ensures forall i, b | 0 <= i <= |items| && 0 <= b <= budget :: dp[i, b] == Best(items, i, b)
  {
    dp := new int[|items| + 1, budget + 1]((i, b) => 0);
    for i := 1 to |items| + 1
      invariant forall r, b | 0 <= r < i && 0 <= b <= budget :: dp[r, b] == Best(items, r, b)
    {
      FillRow(dp, items, i);
    }
  }

  /** Row `r` of the table holds the recurrence's values. */
  ghost predicate RowIs(dp: array2<int>, items: seq<Item>, r: nat)
    requires r <= |items|
    reads dp
  {
    r < dp.Length0 && forall b | 0 <= b < dp.Length1 :: dp[r, b] == Best(items, r, b)
  }

  /** Fills row `i` from row `i - 1`, column by column. */
  method FillRow(dp: array2<int>, items: seq<Item>, i: nat)
    requires 1 <= i <= |items| && dp.Length0 == |items| + 1
    requires NonNegativeCosts(items)
    requires RowIs(dp, items, i - 1)
    modifies dp
    ensures forall r, b | 0 <= r < dp.Length0 && r != i && 0 <= b < dp.Length1 :: dp[r, b] == old(dp[r, b])
    ensures forall b | 0 <= b < dp.Length1 :: dp[i, b] == Best(items, i, b)
  {
    var x := items[i - 1];
    assert x in items;
    for b := 0 to dp.Length1
      invariant forall r, c | 0 <= r < dp.Length0 && r != i && 0 <= c < dp.Length1 :: dp[r, c] == old(dp[r, c])
      invariant forall c | 0 <= c < b :: dp[i, c] == Best(items, i, c)
    {
      if x.cost <= b {
        dp[i, b] := Max(dp[i - 1, b], dp[i - 1, b - x.cost] + x.calories);
      } else {
        dp[i, b] := dp[i - 1, b];
      }
    }
  }

  /** The dishes at the given positions, in that order; a position past the end names nothing. */
  function Select(items: seq<Item>, picks: seq<nat>): seq<Item> {
    if picks == [] then []
    else
      var p := picks[|picks| - 1];
      Select(items, picks[..|picks| - 1]) + (if p < |items| then [items[p]] else [])
  }

  /** Positions strictly decreasing, the last (smallest) at least `lo`, all below `hi`. */
  predicate DownFrom(picks: seq<nat>, lo: nat, hi: nat) {
    picks == [] ||
    var p := picks[|picks| - 1];
    lo <= p < hi && DownFrom(picks[..|picks| - 1], p + 1, hi)
  }

  /** Positions in range name one dish each. */
  lemma {:induction false} SelectLength(items: seq<Item>, picks: seq<nat>, lo: nat, hi: nat)
    requires DownFrom(picks, lo, hi) && hi <= |items|
    ensures |Select(items, picks)| == |picks|
    decreases |picks|
  {
    if picks != [] {
      var n := |picks| - 1;
      SelectLength(items, picks[..n], picks[n] + 1, hi);
    }
  }

  /** Positions that go down from `hi` to `lo` are distinct positions in that range. */
  lemma {:induction false} DownFromDistinct(picks: seq<nat>, lo: nat, hi: nat)
    requires DownFrom(picks, lo, hi)
    ensures forall k | 0 <= k < |picks| :: lo <= picks[k] < hi
    ensures forall k, l | 0 <= k < l < |picks| :: picks[k] > picks[l]
    decreases |picks|
  {
    if picks != [] {
      var n := |picks| - 1;
      DownFromDistinct(picks[..n], picks[n] + 1, hi);
    }
  }

  /**
   * Walks back from the last dish and the whole budget: a dish whose row
   * differs from the row above at the current budget was taken, and its cost
   * comes off the budget.
   */
  method Reconstruct(dp: array2<int>, items: seq<Item>, budget: int) returns (chosen: seq<string>, ghost picks: seq<nat>)
    requires budget >= 0 && NonNegativeCosts(items)
    requires dp.Length0 == |items| + 1 && dp.Length1 == budget + 1
    requires forall i, b | 0 <= i <= |items| && 0 <= b <= budget :: dp[i, b] == Best(items, i, b)
    ensures DownFrom(picks, 0, |items|)
    ensures chosen == Names(Select(items, picks))
    ensures Cost(Select(items, picks)) <= budget
    ensures Calories(Select(items, picks)) == Best(items, |items|, budget)
  {
    chosen := [];
    picks := [];
    ghost var sel: seq<Item> := [];
    var b := budget;
    var i := |items|;
    while i > 0
      invariant 0 <= i <= |items| && 0 <= b <= budget
      invariant DownFrom(picks, i, |items|) && sel == Select(items, picks)
      invariant chosen == Names(sel) && Cost(sel) + b == budget
      invariant Calories(sel) + Best(items, i, b) == Best(items, |items|, budget)
    {
      ghost var taken := Best(items, i, b) != Best(items, i - 1, b);
      assert taken <==> dp[i, b] != dp[i - 1, b];
      if dp[i, b] != dp[i - 1, b] {
        var x := items[i - 1];
        TakeStep(items, picks, i, b);
        SnocSums(sel, x);
        chosen := chosen + [x.name];
        picks := picks + [i - 1];
        sel := sel + [x];
        b := b - x.cost;
        assert Calories(sel) + Best(items, i - 1, b) == Best(items, |items|, budget);
      } else {
        assert Best(items, i, b) == Best(items, i - 1, b);
      }
      i := i - 1;
    }
  }

  /**
   * A row that differs from the row above at budget `b` took its dish: the
   * dish fits, the optimum is the rest's optimum plus its calories, and
   * recording its position extends the selection by that dish.
   */
  lemma TakeStep(items: seq<Item>, picks: seq<nat>, i: nat, b: int)
    requires 1 <= i <= |items| && NonNegativeCosts(items)
    requires DownFrom(picks, i, |items|)
    requires Best(items, i, b) != Best(items, i - 1, b)
    ensures var x := items[i - 1];
      0 <= x.cost <= b &&
      Best(items, i, b) == Best(items, i - 1, b - x.cost) + x.calories &&
      DownFrom(picks + [i - 1], i - 1, |items|) &&
      Select(items, picks + [i - 1]) == Select(items, picks) + [x]
  {
    var x := items[i - 1];
    assert x in items;
    assert (picks + [i - 1])[..|picks|] == picks;
  }

  /** Dishes at distinct positions are a selection taking each dish at most once. */
  lemma {:induction false} SelectFits(items: seq<Item>, picks: seq<nat>, lo: nat, hi: nat)
    requires DownFrom(picks, lo, hi) && lo <= hi <= |items|
    ensures multiset(Select(items, picks)) <= multiset(items[lo..hi])
    decreases |picks|
  {
    if picks != [] {
      var n := |picks| - 1;
      var p := picks[n];
      var front := picks[..n];
      SelectFits(items, front, p + 1, hi);
      SelectLast(items, picks);
      SliceSplit(items, lo, p, hi);
      AddAround(multiset(Select(items, front)), multiset(items[p + 1..hi]), multiset(items[lo..p]), items[p]);
    }
  }

  /** The last position picked adds its dish at the end of the selection. */
  lemma SelectLast(items: seq<Item>, picks: seq<nat>)
    requires picks != [] && picks[|picks| - 1] < |items|
    ensures multiset(Select(items, picks)) ==
      multiset(Select(items, picks[..|picks| - 1])) + multiset{items[picks[|picks| - 1]]}
  {
  }

  /** The dishes of a slice are those before a position, at it and after it. */
  lemma SliceSplit(items: seq<Item>, lo: nat, p: nat, hi: nat)
    requires lo <= p < hi <= |items|
    ensures multiset(items[lo..hi]) == multiset(items[lo..p]) + multiset{items[p]} + multiset(items[p + 1..hi])
  {
    assert items[lo..hi] == items[lo..p] + [items[p]] + items[p + 1..hi];
  }

  /** A sub-multiset with one more dish fits in the larger side with that dish and more around it. */
  lemma AddAround(a: multiset<Item>, m: multiset<Item>, l: multiset<Item>, x: Item)
    requires a <= m
    ensures a + multiset{x} <= l + multiset{x} + m
  {
  }

  /**
   * The dynamic-programming method: the table's last entry is the optimum,
   * and the dishes named by walking back are distinct dishes within the
   * budget whose calories add up to it.
   */
  method DynamicProgramming(items: seq<Item>, budget: int) returns (chosen: seq<string>, best: int, ghost picks: seq<nat>)
    requires budget >= 0 && NonNegativeCosts(items)
    ensures best == Best(items, |items|, budget)
    ensures DownFrom(picks, 0, |items|)
    ensures chosen == Names(Select(items, picks))
    ensures Fits(Select(items, picks), items, |items|, budget)
    ensures Calories(Select(items, picks)) == best
    ensures budget == 0 && PositiveCosts(items) ==> chosen == [] && best == 0
  {
    var dp := FillTable(items, budget);
    chosen, picks := Reconstruct(dp, items, budget);
    best := dp[|items|, budget];
    ghost var sel := Select(items, picks);
    SelectFits(items, picks, 0, |items|);
    assert items[0..|items|] == items[..|items|] == items;
    if budget == 0 && PositiveCosts(items) {
      CostPositive(sel, items);
      SelectLength(items, picks, 0, |items|);
      ZeroBudget(items);
    }
  }

  /** With positive costs any non-empty selection costs something. */
  lemma CostPositive(sel: seq<Item>, items: seq<Item>)
    requires PositiveCosts(items) && multiset(sel) <= multiset(items)
    ensures sel != [] ==> Cost(sel) > 0
  {
    if sel != [] {
      var front := sel[..|sel| - 1];
      var x := sel[|sel| - 1];
      assert sel == front + [x];
      assert x in multiset(items);
      assert multiset(front) <= multiset(items);
      CostOfSelection(front, items);
    }
  }

  /** The optimum is at least what the greedy method collects. */
  lemma DynamicAtLeastGreedy(items: seq<Item>, budget: int)
    requires budget >= 0 && PositiveCosts(items)
    ensures Best(items, |items|, budget) >= Calories(GreedyTake(budget, RatioSort(items)).0)
  {
    var taken := GreedyTake(budget, RatioSort(items)).0;
    GreedyWithinBudget(items, budget);
    assert items[..|items|] == items;
    BestIsUpperBound(items, |items|, budget, taken);
  }

  /** With a budget of 0 and positive costs, both methods take nothing. */
  lemma ZeroBudget(items: seq<Item>)
    requires PositiveCosts(items)
    ensures GreedyTake(0, RatioSort(items)).0 == []
    ensures Best(items, |items|, 0) == 0
  {
    var taken := GreedyTake(0, RatioSort(items)).0;
    GreedyWithinBudget(items, 0);
    assert items[..|items|] == items;
    CostPositive(taken, items);
    var sel := BestIsReached(items, |items|, 0);
    CostPositive(sel, items);
  }
}
