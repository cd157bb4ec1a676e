/** Facts about the smallest entries of a finite multiset (the model of a binary heap) and of a finite set of integers. */
module MultisetMin {

  /** `x` is an entry of `h` whose key is no larger than the key of any other entry. */
  predicate IsMinBy<T>(h: multiset<T>, key: T -> int, x: T)
  {
    x in h && forall y | y in h :: key(x) <= key(y)
  }

  /** Every non-empty multiset has an entry of smallest key; this is what a heap pop returns. */
  lemma {:induction false} MinExists<T>(h: multiset<T>, key: T -> int)
    requires |h| > 0
    ensures exists x :: IsMinBy(h, key, x)
    decreases |h|
  {
    var x :| x in h;
    var rest := h - multiset{x};
    assert h == rest + multiset{x};
    if |rest| == 0 {
      assert rest == multiset{};
      assert IsMinBy(h, key, x);
    } else {
      MinExists(rest, key);
      var m :| IsMinBy(rest, key, m);
      if key(x) <= key(m) {
        assert forall y | y in h :: y == x || y in rest;
        assert IsMinBy(h, key, x);
      } else {
        assert forall y | y in h :: y == x || y in rest;
        assert IsMinBy(h, key, m);
      }
    }
  }

  /** The least element of a non-empty set of integers. */
  function Least(s: set<int>): (x: int)
    requires |s| > 0
    ensures IsLeast(s, x)
  {
    LeastExists(s);
    var x :| IsLeast(s, x);
    x
  }

  /** `x` is the least element of `s`. */
  predicate IsLeast(s: set<int>, x: int) {
    x in s && forall y | y in s :: x <= y
  }

  /** A non-empty set of integers has a least element. */
  lemma {:induction false} LeastExists(s: set<int>)
    requires |s| > 0
    ensures exists x :: IsLeast(s, x)
    decreases |s|
  {
    HasMember(s);
    var x :| x in s;
    var rest := s - {x};
    assert forall y | y in s :: y == x || y in rest;
    if |rest| > 0 {
      LeastExists(rest);
      var m :| IsLeast(rest, m);
      if m < x {
        assert IsLeast(s, m);
      } else {
        assert IsLeast(s, x);
      }
    } else {
      assert IsLeast(s, x);
    }
  }

  /** A set of positive size has a member. */
  lemma HasMember(s: set<int>)
    requires |s| > 0
    ensures exists x :: x in s
  {
    if forall x :: x !in s {
      assert false;
    }
  }
}
