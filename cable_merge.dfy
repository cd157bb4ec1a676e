/**
 * Joining cables at least cost, Huffman style: keep the lengths in a min-heap,
 * repeatedly take out the two shortest, join them at a cost equal to the new
 * length, and put the joined cable back, until one cable is left.  The heap
 * is modelled as the multiset of its entries.
 */
module CableMerge {
  import opened MultisetMin
  import Sequences

  /** One join: the two lengths taken out and the length put back, which is also its cost. */
  datatype Step = Step(a: int, b: int, c: int)

  /** Lengths are compared as plain integers. */
  function Id(x: int): int { x }

  /** `x` is a smallest entry of `h`. */
  predicate IsMin(h: multiset<int>, x: int) {
    x in h && forall y | y in h :: x <= y
  }

  /** A non-empty heap has a smallest entry. */
  lemma HasMin(h: multiset<int>)
    requires |h| > 0
    ensures exists x :: IsMin(h, x)
  {
    MinExists(h, Id);
    var x :| IsMinBy(h, Id, x);
    assert IsMin(h, x);
  }

  /** The heap after a step: both inputs taken out, the joined cable put back. */
  function After(h: multiset<int>, s: Step): multiset<int> {
    h - multiset{s.a} - multiset{s.b} + multiset{s.c}
  }

  /** A step takes out the shortest cable, then the shortest of the rest, and puts back their sum. */
  ghost predicate ValidStep(h: multiset<int>, s: Step) {
    IsMin(h, s.a) && IsMin(h - multiset{s.a}, s.b) && s.c == s.a + s.b
  }

  /** Every step of `steps`, applied in order from `h`, is a valid step of the heap it meets. */
  ghost predicate Greedy(h: multiset<int>, steps: seq<Step>)
    decreases |steps|
  {
    steps == [] ||
    (var n := |steps| - 1; Greedy(h, steps[..n]) && ValidStep(Apply(h, steps[..n]), steps[n]))
  }

  /** The heap after all of `steps`. */
  function Apply(h: multiset<int>, steps: seq<Step>): multiset<int>
    decreases |steps|
  {
    if steps == [] then h else After(Apply(h, steps[..|steps| - 1]), steps[|steps| - 1])
  }

  /** The whole run: greedy steps until at most one cable is left. */
  ghost predicate MergeRun(h: multiset<int>, steps: seq<Step>) {
    Greedy(h, steps) && |Apply(h, steps)| <= 1
  }

  /** The cost of the steps: the sum of the lengths put back. */
  function Cost(steps: seq<Step>): int {
    if steps == [] then 0 else Cost(steps[..|steps| - 1]) + steps[|steps| - 1].c
  }

  /** The sum of the lengths in a heap. */
  ghost function Total(h: multiset<int>): int
    decreases |h|
  {
    if |h| == 0 then 0 else Pick(h) + Total(h - multiset{Pick(h)})
  }

  /** Some entry of a non-empty heap; the total does not depend on which. */
  ghost function Pick(h: multiset<int>): (x: int)
    requires |h| > 0
    ensures x in h
  {
    HasMin(h);
    var x :| x in h;
    x
  }

  /** The smallest entry of a non-empty heap, the one a pop returns. */
  function MinOf(h: multiset<int>): (m: int)
    requires |h| > 0
    ensures IsMin(h, m)
  {
    HasMin(h);
    var x :| IsMin(h, x);
    x
  }

  /**
   * Pops the two shortest cables, joins them and pushes the result back until
   * one cable is left; returns the summed cost and the steps taken.
   */
  method MinMergeCost(lengths: seq<int>) returns (total: int, steps: seq<Step>)
    ensures lengths == [] ==> total == 0 && steps == []
    ensures MergeRun(multiset(lengths), steps)
    ensures lengths != [] ==> |steps| == |lengths| - 1
    ensures total == Cost(steps)
  {
    if lengths == [] {
      return 0, [];
    }
    total, steps := MergeAll(multiset(lengths));
  }

  /** The heap loop: join the two shortest cables while more than one is left. */
  method MergeAll(h0: multiset<int>) returns (total: int, steps: seq<Step>)
    requires |h0| >= 1
    ensures MergeRun(h0, steps) && |steps| == |h0| - 1
    ensures total == Cost(steps)
  {
    var h := h0;
    total, steps := 0, [];
    while |h| > 1
      invariant Greedy(h0, steps) && Apply(h0, steps) == h
      invariant 1 <= |h| && |h| + |steps| == |h0|
      invariant total == Cost(steps)
      decreases |h|
    {
      var s := NextStep(h);
      PushStep(h0, steps);
      total := total + s.c;
      h := After(h, s);
      steps := steps + [s];
    }
  }

  /**
   * Pop the shortest cable, pop the next shortest, and join them: the two
   * cables taken are the two shortest of the heap.
   */
  function NextStep(h: multiset<int>): (s: Step)
    requires |h| > 1
    ensures ValidStep(h, s)
    ensures s.a <= s.b && s.c == s.a + s.b && multiset{s.a, s.b} <= h
    ensures forall x | x in h - multiset{s.a, s.b} :: s.a <= s.b <= x
  {
    var a := MinOf(h);
    var b := MinOf(h - multiset{a});
    assert b in h;
    assert h - multiset{a, b} == (h - multiset{a}) - multiset{b};
    Step(a, b, a + b)
  }

  /** One round of the loop extends the greedy run by one step and its cost by the joined length. */
  lemma PushStep(h0: multiset<int>, steps: seq<Step>)
    requires Greedy(h0, steps) && |Apply(h0, steps)| > 1
    ensures var s := NextStep(Apply(h0, steps));
      Greedy(h0, steps + [s]) && Apply(h0, steps + [s]) == After(Apply(h0, steps), s) &&
      |After(Apply(h0, steps), s)| + 1 == |Apply(h0, steps)| &&
      Cost(steps + [s]) == Cost(steps) + s.c
  {
    var s := NextStep(Apply(h0, steps));
    assert s.b in Apply(h0, steps) - multiset{s.a};
    assert (steps + [s])[..|steps|] == steps;
  }

  /** Each step joins the shorter cable to the longer: `a <= b`. */
  lemma StepOrdered(h: multiset<int>, s: Step)
    requires ValidStep(h, s)
    ensures s.a <= s.b && s.a in h && s.b in h
  {
    assert s.b in h - multiset{s.a};
  }

  /** Each step leaves one cable fewer in the heap. */
  lemma {:induction false} RunSize(h: multiset<int>, steps: seq<Step>)
    requires Greedy(h, steps)
    ensures |Apply(h, steps)| + |steps| == |h|
    ensures steps != [] ==> |h| >= |steps| + 1
    decreases |steps|
  {
    if steps != [] {
      var n := |steps| - 1;
      var s := steps[n];
      RunSize(h, steps[..n]);
      assert s.b in Apply(h, steps[..n]) - multiset{s.a};
    }
  }

  /** Taking out one entry of a heap takes its value off the total. */
  lemma {:induction false} TotalRemove(h: multiset<int>, y: int)
    requires y in h
    ensures Total(h) == y + Total(h - multiset{y})
    decreases |h|
  {
    var x := Pick(h);
    if x != y {
      var hx, hy := h - multiset{x}, h - multiset{y};
      assert y in hx && x in hy;
      assert hx - multiset{y} == hy - multiset{x};
      TotalRemove(hx, y);
      TotalRemove(hy, x);
    }
  }

  /** A step keeps the total length of the heap. */
  lemma StepKeepsTotal(h: multiset<int>, s: Step)
    requires s.a in h && s.b in h - multiset{s.a} && s.c == s.a + s.b
    ensures Total(After(h, s)) == Total(h)
  {
    var h1 := h - multiset{s.a};
    var h2 := h1 - multiset{s.b};
    TotalRemove(h, s.a);
    TotalRemove(h1, s.b);
    TotalAdd(h2, s.c);
  }

  /** Putting an entry into a heap adds its value to the total. */
  lemma TotalAdd(h: multiset<int>, y: int)
    ensures Total(h + multiset{y}) == y + Total(h)
  {
    var g := h + multiset{y};
    TotalRemove(g, y);
    assert g - multiset{y} == h;
  }

  /** The whole run keeps the total length of the heap. */
  lemma {:induction false} RunKeepsTotal(h: multiset<int>, steps: seq<Step>)
    requires Greedy(h, steps)
    ensures Total(Apply(h, steps)) == Total(h)
    decreases |steps|
  {
    if steps != [] {
      var n := |steps| - 1;
      RunKeepsTotal(h, steps[..n]);
      StepKeepsTotal(Apply(h, steps[..n]), steps[n]);
    }
  }

  /** The single cable left at the end of a run over a non-empty heap is as long as all cables together. */
  lemma LastCable(h: multiset<int>, steps: seq<Step>)
    requires MergeRun(h, steps) && |h| > 0
    ensures Apply(h, steps) == multiset{Total(h)}
  {
    RunSize(h, steps);
    RunKeepsTotal(h, steps);
    var rest := Apply(h, steps);
    var x :| x in rest;
    assert rest == multiset{x};
    TotalRemove(rest, x);
    assert rest - multiset{x} == multiset{};
  }

  /** The sum of a list of lengths. */
  function Sum(s: seq<int>): int {
    if s == [] then 0 else Sum(s[..|s| - 1]) + s[|s| - 1]
  }

  /** The total of the heap built from a list is the sum of the list. */
  lemma {:induction false} TotalOfList(s: seq<int>)
    ensures Total(multiset(s)) == Sum(s)
    decreases |s|
  {
    if s != [] {
      var n := |s| - 1;
      TotalOfList(s[..n]);
      Sequences.FrontLast(s);
      assert multiset(s) == multiset(s[..n]) + multiset{s[n]};
      TotalAdd(multiset(s[..n]), s[n]);
    }
  }

  /** The one cable left after merging a non-empty list is as long as the list's lengths together. */
  lemma LastCableIsSum(lengths: seq<int>, steps: seq<Step>)
    requires lengths != [] && MergeRun(multiset(lengths), steps)
    ensures Apply(multiset(lengths), steps) == multiset{Sum(lengths)}
  {
    LastCable(multiset(lengths), steps);
    TotalOfList(lengths);
  }

  /** Integer lengths have one smallest value, so a valid step is determined by the heap. */
  lemma StepUnique(h: multiset<int>, s: Step, t: Step)
    requires ValidStep(h, s) && ValidStep(h, t)
    ensures s == t
  {
    assert s.a <= t.a && t.a <= s.a;
    assert s.b <= t.b && t.b <= s.b;
  }

  /** Two greedy runs of the same length from the same heap take the same steps. */
  lemma {:induction false} RunUnique(h: multiset<int>, s1: seq<Step>, s2: seq<Step>)
    requires Greedy(h, s1) && Greedy(h, s2) && |s1| == |s2|
    ensures s1 == s2
    decreases |s1|
  {
    if s1 != [] {
      var n := |s1| - 1;
      var p1, p2 := s1[..n], s2[..n];
      RunUnique(h, p1, p2);
      var g := Apply(h, p1);
      assert ValidStep(g, s1[n]) && ValidStep(g, s2[n]);
      StepUnique(g, s1[n], s2[n]);
      Sequences.FrontLast(s1);
      Sequences.FrontLast(s2);
    }
  }
}
