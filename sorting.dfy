/**
 * Reference definitions of the comparison sorts used by the array and linked-list
 * models: a stable merge (ties taken from the left input), insertion into a
 * sorted sequence after every element of equal key, insertion sort and top-down
 * merge sort.  Elements are ordered by an integer key, as Python's `key=`
 * argument does; the identity key gives the plain `<=` order on integers.
 *
 * Stability is stated with `KeyClass`: the subsequence of the elements that
 * have a given key.  A sort is stable exactly when it keeps every key class
 * unchanged, and two sorted sequences with the same key classes are equal.
 */
module Sorting {

  /** Non-decreasing by key. */
  predicate SortedBy<T>(s: seq<T>, key: T -> int)
  {
    forall i, j | 0 <= i < j < |s| :: key(s[i]) <= key(s[j])
  }

  /** The elements of `s` whose key is `k`, in their order in `s`. */
  function KeyClass<T>(s: seq<T>, key: T -> int, k: int): seq<T>
  {
    if s == [] then []
    else (if key(s[0]) == k then [s[0]] else []) + KeyClass(s[1..], key, k)
  }

  /** `r` holds the elements of `s` with the same relative order inside every key class. */
  ghost predicate SameKeyClasses<T>(r: seq<T>, s: seq<T>, key: T -> int)
  {
    forall k :: KeyClass(r, key, k) == KeyClass(s, key, k)
  }

  /** Merge of two sequences; on equal keys the element of `a` comes first. */
  function Merge<T>(a: seq<T>, b: seq<T>, key: T -> int): (r: seq<T>)
    ensures |r| == |a| + |b|
    ensures multiset(r) == multiset(a) + multiset(b)
    decreases |a| + |b|
  {
    if a == [] then b
    else if b == [] then a
    else if key(a[0]) <= key(b[0]) then
      assert a == [a[0]] + a[1..];
      [a[0]] + Merge(a[1..], b, key)
    else
      assert b == [b[0]] + b[1..];
      [b[0]] + Merge(a, b[1..], key)
  }

  /** Insert `x` into `r` after the longest prefix whose keys are at most `key(x)`. */
  function Insert<T>(r: seq<T>, x: T, key: T -> int): (q: seq<T>)
    ensures |q| == |r| + 1
    ensures multiset(q) == multiset(r) + multiset{x}
  {
    if r == [] then [x]
    else if key(r[0]) <= key(x) then
      assert r == [r[0]] + r[1..];
      [r[0]] + Insert(r[1..], x, key)
    else [x] + r
  }

  /** Insertion sort: the elements of `s` are inserted one by one, front to back. */
  function InsertionSort<T>(s: seq<T>, key: T -> int): (r: seq<T>)
    ensures |r| == |s|
    ensures multiset(r) == multiset(s)
  {
    if s == [] then []
    else
      assert s == s[..|s| - 1] + [s[|s| - 1]];
      Insert(InsertionSort(s[..|s| - 1], key), s[|s| - 1], key)
  }

  /** Where top-down merge sort splits a sequence of length `n >= 2`: after the
      first `ceil(n/2)` elements when `leftHeavy`, else after the first `floor(n/2)`. */
  function SplitPoint(n: nat, leftHeavy: bool): (mid: nat)
    requires n >= 2
    ensures 0 < mid < n
    ensures leftHeavy ==> mid + mid == n || mid + mid == n + 1
    ensures !leftHeavy ==> mid + mid == n || mid + mid + 1 == n
  {
    if leftHeavy then (n + 1) / 2 else n / 2
  }

  /** Top-down merge sort. */
  function MergeSort<T>(s: seq<T>, key: T -> int, leftHeavy: bool): (r: seq<T>)
    ensures |r| == |s|
    ensures multiset(r) == multiset(s)
    decreases |s|
  {
    if |s| <= 1 then s
    else
      var mid := SplitPoint(|s|, leftHeavy);
      assert s == s[..mid] + s[mid..];
      Merge(MergeSort(s[..mid], key, leftHeavy), MergeSort(s[mid..], key, leftHeavy), key)
  }

  // ---------------------------------------------------------------- key classes

  lemma {:induction false} KeyClassAppend<T>(a: seq<T>, b: seq<T>, key: T -> int, k: int)
    ensures KeyClass(a + b, key, k) == KeyClass(a, key, k) + KeyClass(b, key, k)
  {
    if a != [] {
      var head := if key(a[0]) == k then [a[0]] else [];
      assert (a + b)[0] == a[0];
      assert (a + b)[1..] == a[1..] + b;
      KeyClassAppend(a[1..], b, key, k);
      calc {
        KeyClass(a + b, key, k);
        head + KeyClass(a[1..] + b, key, k);
        head + (KeyClass(a[1..], key, k) + KeyClass(b, key, k));
        (head + KeyClass(a[1..], key, k)) + KeyClass(b, key, k);
        KeyClass(a, key, k) + KeyClass(b, key, k);
      }
    } else {
      assert a + b == b;
    }
  }

  lemma KeyClassCons<T>(x: T, s: seq<T>, key: T -> int, k: int)
    ensures KeyClass([x] + s, key, k) == (if key(x) == k then [x] else []) + KeyClass(s, key, k)
  {
    assert ([x] + s)[0] == x;
    assert ([x] + s)[1..] == s;
  }

  lemma KeyClassSingle<T>(x: T, key: T -> int, k: int)
    ensures KeyClass([x], key, k) == if key(x) == k then [x] else []
  {
    assert [x][1..] == [];
  }

  lemma {:induction false} KeyClassOfOthers<T>(s: seq<T>, key: T -> int, k: int)
    requires forall i | 0 <= i < |s| :: key(s[i]) != k
    ensures KeyClass(s, key, k) == []
  {
    if s != [] {
      KeyClassOfOthers(s[1..], key, k);
    }
  }

  lemma {:induction false} KeyClassMembers<T>(s: seq<T>, key: T -> int, k: int)
    ensures forall x | x in KeyClass(s, key, k) :: x in s && key(x) == k
  {
    if s != [] {
      KeyClassMembers(s[1..], key, k);
    }
  }

  // ---------------------------------------------------------------- merge

  lemma SortedTail<T>(s: seq<T>, key: T -> int)
    requires SortedBy(s, key) && s != []
    ensures SortedBy(s[1..], key)
  {
  }

  lemma SortedHeadIsLeast<T>(s: seq<T>, key: T -> int)
    requires SortedBy(s, key) && s != []
    ensures forall y | y in s :: key(s[0]) <= key(y)
  {
  }

  lemma SortedCons<T>(x: T, s: seq<T>, key: T -> int)
    requires SortedBy(s, key)
    requires forall y | y in s :: key(x) <= key(y)
    ensures SortedBy([x] + s, key)
  {
    forall i, j | 0 <= i < j < |[x] + s|
      ensures key(([x] + s)[i]) <= key(([x] + s)[j])
    {
      if i > 0 {
        assert ([x] + s)[i] == s[i - 1] && ([x] + s)[j] == s[j - 1];
      } else {
        assert ([x] + s)[j] in s;
      }
    }
  }

  /** Merging two sorted sequences gives a sorted sequence. */
  lemma {:induction false} MergeSorted<T>(a: seq<T>, b: seq<T>, key: T -> int)
    requires SortedBy(a, key) && SortedBy(b, key)
    ensures SortedBy(Merge(a, b, key), key)
    decreases |a| + |b|
  {
    if a != [] && b != [] {
      SortedTail(a, key);
      SortedTail(b, key);
      SortedHeadIsLeast(a, key);
      SortedHeadIsLeast(b, key);
      if key(a[0]) <= key(b[0]) {
        var rest := Merge(a[1..], b, key);
        MergeSorted(a[1..], b, key);
        forall y | y in rest ensures key(a[0]) <= key(y) {
          assert y in multiset(rest);
          assert y in a[1..] || y in b;
        }
        SortedCons(a[0], rest, key);
      } else {
        var rest := Merge(a, b[1..], key);
        MergeSorted(a, b[1..], key);
        forall y | y in rest ensures key(b[0]) <= key(y) {
          assert y in multiset(rest);
          assert y in a || y in b[1..];
        }
        SortedCons(b[0], rest, key);
      }
    }
  }

  /** The merge is stable: inside each key class the elements of `a` precede those of `b`. */
  lemma {:induction false} MergeKeyClass<T>(a: seq<T>, b: seq<T>, key: T -> int, k: int)
    requires SortedBy(a, key) && SortedBy(b, key)
    ensures KeyClass(Merge(a, b, key), key, k) == KeyClass(a, key, k) + KeyClass(b, key, k)
    decreases |a| + |b|
  {
    if a == [] {
      assert KeyClass(a, key, k) == [];
    } else if b == [] {
      assert KeyClass(b, key, k) == [];
    } else if key(a[0]) <= key(b[0]) {
      MergeKeyClassLeft(a, b, key, k);
    } else {
      MergeKeyClassRight(a, b, key, k);
    }
  }

  lemma {:induction false} MergeKeyClassLeft<T>(a: seq<T>, b: seq<T>, key: T -> int, k: int)
    requires SortedBy(a, key) && SortedBy(b, key)
    requires a != [] && b != [] && key(a[0]) <= key(b[0])
    ensures KeyClass(Merge(a, b, key), key, k) == KeyClass(a, key, k) + KeyClass(b, key, k)
    decreases |a| + |b|, 0
  {
    var head := if key(a[0]) == k then [a[0]] else [];
    var rest := Merge(a[1..], b, key);
    calc {
      KeyClass(Merge(a, b, key), key, k);
      KeyClass([a[0]] + rest, key, k);
      { KeyClassCons(a[0], rest, key, k); }
      head + KeyClass(rest, key, k);
      { SortedTail(a, key); MergeKeyClass(a[1..], b, key, k); }
      head + (KeyClass(a[1..], key, k) + KeyClass(b, key, k));
      (head + KeyClass(a[1..], key, k)) + KeyClass(b, key, k);
      KeyClass(a, key, k) + KeyClass(b, key, k);
    }
  }

  lemma {:induction false} MergeKeyClassRight<T>(a: seq<T>, b: seq<T>, key: T -> int, k: int)
    requires SortedBy(a, key) && SortedBy(b, key)
    requires a != [] && b != [] && key(a[0]) > key(b[0])
    ensures KeyClass(Merge(a, b, key), key, k) == KeyClass(a, key, k) + KeyClass(b, key, k)
    decreases |a| + |b|, 0
  {
    var head := if key(b[0]) == k then [b[0]] else [];
    var rest := Merge(a, b[1..], key);
    calc {
      KeyClass(Merge(a, b, key), key, k);
      KeyClass([b[0]] + rest, key, k);
      { KeyClassCons(b[0], rest, key, k); }
      head + KeyClass(rest, key, k);
      { SortedTail(b, key); MergeKeyClass(a, b[1..], key, k); }
      head + (KeyClass(a, key, k) + KeyClass(b[1..], key, k));
      { if key(b[0]) == k { KeyClassOfOthers(a, key, k); } }
      KeyClass(a, key, k) + (head + KeyClass(b[1..], key, k));
      KeyClass(a, key, k) + KeyClass(b, key, k);
    }
  }

  // ---------------------------------------------------------------- insertion

  /** Inserting into a sorted sequence keeps it sorted. */
  lemma {:induction false} InsertSorted<T>(r: seq<T>, x: T, key: T -> int)
    requires SortedBy(r, key)
    ensures SortedBy(Insert(r, x, key), key)
  {
    if r != [] {
      SortedTail(r, key);
      SortedHeadIsLeast(r, key);
      if key(r[0]) <= key(x) {
        var rest := Insert(r[1..], x, key);
        InsertSorted(r[1..], x, key);
        forall y | y in rest ensures key(r[0]) <= key(y) {
          assert y in multiset(rest);
        }
        SortedCons(r[0], rest, key);
      } else {
        SortedCons(x, r, key);
      }
    }
  }

  /** Insertion is stable: `x` joins its key class after every element already there. */
  lemma {:induction false} InsertKeyClass<T>(r: seq<T>, x: T, key: T -> int, k: int)
    requires SortedBy(r, key)
    ensures KeyClass(Insert(r, x, key), key, k)
         == KeyClass(r, key, k) + (if key(x) == k then [x] else [])
    decreases |r|, 1
  {
    if r == [] {
      KeyClassCons(x, [], key, k);
      assert Insert(r, x, key) == [x] + [];
    } else if key(r[0]) <= key(x) {
      InsertKeyClassPast(r, x, key, k);
    } else {
      InsertKeyClassFront(r, x, key, k);
    }
  }

  /** The case where `x` goes past the head of `r`. */
  lemma {:induction false} InsertKeyClassPast<T>(r: seq<T>, x: T, key: T -> int, k: int)
    requires SortedBy(r, key) && r != [] && key(r[0]) <= key(x)
    ensures KeyClass(Insert(r, x, key), key, k)
         == KeyClass(r, key, k) + (if key(x) == k then [x] else [])
    decreases |r|, 0
  {
    var last := if key(x) == k then [x] else [];
    var head := if key(r[0]) == k then [r[0]] else [];
    calc {
      KeyClass(Insert(r, x, key), key, k);
      KeyClass([r[0]] + Insert(r[1..], x, key), key, k);
      { KeyClassCons(r[0], Insert(r[1..], x, key), key, k); }
      head + KeyClass(Insert(r[1..], x, key), key, k);
      { SortedTail(r, key); InsertKeyClass(r[1..], x, key, k); }
      head + (KeyClass(r[1..], key, k) + last);
      (head + KeyClass(r[1..], key, k)) + last;
      { KeyClassCons(r[0], r[1..], key, k); assert r == [r[0]] + r[1..]; }
      KeyClass(r, key, k) + last;
    }
  }

  /** The case where `x` goes in front of `r`: every element of its class in `r` has a larger key. */
  lemma InsertKeyClassFront<T>(r: seq<T>, x: T, key: T -> int, k: int)
    requires SortedBy(r, key) && r != [] && key(r[0]) > key(x)
    ensures KeyClass(Insert(r, x, key), key, k)
         == KeyClass(r, key, k) + (if key(x) == k then [x] else [])
  {
    var last := if key(x) == k then [x] else [];
    calc {
      KeyClass(Insert(r, x, key), key, k);
      KeyClass([x] + r, key, k);
      { KeyClassCons(x, r, key, k); }
      last + KeyClass(r, key, k);
      { if key(x) == k { KeyClassOfOthers(r, key, k); } }
      KeyClass(r, key, k) + last;
    }
  }

  /** `Insert` places `x` right after the elements whose key is at most `key(x)`. */
  lemma {:induction false} InsertAt<T>(r: seq<T>, x: T, key: T -> int, p: nat)
    requires p <= |r|
    requires forall i | 0 <= i < p :: key(r[i]) <= key(x)
    requires p < |r| ==> key(x) < key(r[p])
    ensures Insert(r, x, key) == r[..p] + [x] + r[p..]
    decreases p, 1
  {
    if p == 0 {
      assert r[..p] == [] && r[p..] == r;
    } else {
      var t := r[1..];
      calc {
        Insert(r, x, key);
        { assert key(r[0]) <= key(x); }
        [r[0]] + Insert(t, x, key);
        { InsertAtTail(r, x, key, p); }
        [r[0]] + (t[..p - 1] + [x] + t[p - 1..]);
        { assert r[..p] == [r[0]] + t[..p - 1]; assert r[p..] == t[p - 1..]; }
        r[..p] + [x] + r[p..];
      }
    }
  }

  lemma {:induction false} InsertAtTail<T>(r: seq<T>, x: T, key: T -> int, p: nat)
    requires 0 < p <= |r|
    requires forall i | 0 <= i < p :: key(r[i]) <= key(x)
    requires p < |r| ==> key(x) < key(r[p])
    ensures Insert(r[1..], x, key) == r[1..][..p - 1] + [x] + r[1..][p - 1..]
    decreases p, 0
  {
    var t := r[1..];
    forall i | 0 <= i < p - 1 ensures key(t[i]) <= key(x) {
      assert t[i] == r[i + 1];
    }
    assert p - 1 < |t| ==> t[p - 1] == r[p];
    InsertAt(t, x, key, p - 1);
  }

  // ---------------------------------------------------------------- the sorts

  /** Insertion sort returns a sorted permutation that keeps every key class in order. */
  lemma {:induction false} InsertionSortCorrect<T>(s: seq<T>, key: T -> int)
    ensures SortedBy(InsertionSort(s, key), key)
    ensures SameKeyClasses(InsertionSort(s, key), s, key)
    ensures multiset(InsertionSort(s, key)) == multiset(s)
  {
    if s != [] {
      var init, last := s[..|s| - 1], s[|s| - 1];
      var sortedInit := InsertionSort(init, key);
      assert InsertionSort(s, key) == Insert(sortedInit, last, key);
      InsertionSortCorrect(init, key);
      InsertSorted(sortedInit, last, key);
      forall k ensures KeyClass(InsertionSort(s, key), key, k) == KeyClass(s, key, k) {
        InsertLastKeyClass(s, sortedInit, key, k);
      }
    }
  }

  lemma InsertLastKeyClass<T>(s: seq<T>, sortedInit: seq<T>, key: T -> int, k: int)
    requires s != [] && SortedBy(sortedInit, key)
    requires KeyClass(sortedInit, key, k) == KeyClass(s[..|s| - 1], key, k)
    ensures KeyClass(Insert(sortedInit, s[|s| - 1], key), key, k) == KeyClass(s, key, k)
  {
    var init, last := s[..|s| - 1], s[|s| - 1];
    assert s == init + [last];
    KeyClassAppend(init, [last], key, k);
    KeyClassSingle(last, key, k);
    InsertKeyClass(sortedInit, last, key, k);
  }

  /** Inserting one more element: the insertion sort of a longer prefix. */
  lemma InsertionSortSnoc<T>(s: seq<T>, i: nat, key: T -> int)
    requires i < |s|
    ensures InsertionSort(s[..i + 1], key) == Insert(InsertionSort(s[..i], key), s[i], key)
  {
    assert s[..i + 1][..i] == s[..i] && s[..i + 1][i] == s[i];
  }

  /** Merge sort returns a sorted permutation that keeps every key class in order. */
  lemma {:induction false} MergeSortCorrect<T>(s: seq<T>, key: T -> int, leftHeavy: bool)
    ensures SortedBy(MergeSort(s, key, leftHeavy), key)
    ensures SameKeyClasses(MergeSort(s, key, leftHeavy), s, key)
    ensures multiset(MergeSort(s, key, leftHeavy)) == multiset(s)
    decreases |s|
  {
    if |s| > 1 {
      var mid := SplitPoint(|s|, leftHeavy);
      var l, r := MergeSort(s[..mid], key, leftHeavy), MergeSort(s[mid..], key, leftHeavy);
      MergeSortCorrect(s[..mid], key, leftHeavy);
      MergeSortCorrect(s[mid..], key, leftHeavy);
      MergeSorted(l, r, key);
      assert MergeSort(s, key, leftHeavy) == Merge(l, r, key);
      forall k ensures KeyClass(Merge(l, r, key), key, k) == KeyClass(s, key, k) {
        MergeSortKeyClass(s, mid, l, r, key, k);
      }
    }
  }

  /** The key classes of a merge of two stably sorted halves are those of the whole. */
  lemma MergeSortKeyClass<T>(s: seq<T>, mid: nat, l: seq<T>, r: seq<T>, key: T -> int, k: int)
    requires mid <= |s|
    requires SortedBy(l, key) && SortedBy(r, key)
    requires KeyClass(l, key, k) == KeyClass(s[..mid], key, k)
    requires KeyClass(r, key, k) == KeyClass(s[mid..], key, k)
    ensures KeyClass(Merge(l, r, key), key, k) == KeyClass(s, key, k)
  {
    MergeKeyClass(l, r, key, k);
    TakeDropAppend(s, mid);
    KeyClassAppend(s[..mid], s[mid..], key, k);
  }

  lemma TakeDropAppend<T>(s: seq<T>, n: nat)
    requires n <= |s|
    ensures s[..n] + s[n..] == s
  {
  }

  /** A stable sort has only one possible result: two sorted sequences with the same key classes are equal. */
  lemma {:induction false} SortedWithSameKeyClassesEqual<T>(r1: seq<T>, r2: seq<T>, key: T -> int)
    requires SortedBy(r1, key) && SortedBy(r2, key)
    requires SameKeyClasses(r1, r2, key)
    ensures r1 == r2
    decreases |r1|
  {
    if r1 == [] || r2 == [] {
      if r1 != [] {
        HeadKeyClass(r1, key);
        assert false;
      } else if r2 != [] {
        HeadKeyClass(r2, key);
        assert false;
      }
    } else {
      SameLeastKey(r1, r2, key);
      SameLeastKey(r2, r1, key);
      var k0 := key(r1[0]);
      KeyClassCons(r1[0], r1[1..], key, k0);
      KeyClassCons(r2[0], r2[1..], key, k0);
      assert r1 == [r1[0]] + r1[1..] && r2 == [r2[0]] + r2[1..];
      assert KeyClass(r1, key, k0)[0] == r1[0];
      assert KeyClass(r2, key, k0)[0] == r2[0];
      forall k ensures KeyClass(r1[1..], key, k) == KeyClass(r2[1..], key, k) {
        SameTailKeyClass(r1, r2, key, k);
      }
      SortedTail(r1, key);
      SortedTail(r2, key);
      SortedWithSameKeyClassesEqual(r1[1..], r2[1..], key);
    }
  }

  /** A non-empty sequence has a non-empty key class for the key of its head. */
  lemma HeadKeyClass<T>(s: seq<T>, key: T -> int)
    requires s != []
    ensures KeyClass(s, key, key(s[0])) != []
  {
    KeyClassCons(s[0], s[1..], key, key(s[0]));
    assert s == [s[0]] + s[1..];
  }

  lemma SameLeastKey<T>(r1: seq<T>, r2: seq<T>, key: T -> int)
    requires r1 != [] && r2 != [] && SortedBy(r2, key)
    requires KeyClass(r1, key, key(r1[0])) == KeyClass(r2, key, key(r1[0]))
    ensures key(r2[0]) <= key(r1[0])
  {
    var k1 := key(r1[0]);
    KeyClassCons(r1[0], r1[1..], key, k1);
    assert r1 == [r1[0]] + r1[1..];
    var c := KeyClass(r2, key, k1);
    assert c != [];
    KeyClassMembers(r2, key, k1);
    assert c[0] in c;
    SortedHeadIsLeast(r2, key);
  }

  lemma SameTailKeyClass<T>(r1: seq<T>, r2: seq<T>, key: T -> int, k: int)
    requires r1 != [] && r2 != [] && r1[0] == r2[0]
    requires KeyClass(r1, key, k) == KeyClass(r2, key, k)
    ensures KeyClass(r1[1..], key, k) == KeyClass(r2[1..], key, k)
  {
    var head := if key(r1[0]) == k then [r1[0]] else [];
    KeyClassCons(r1[0], r1[1..], key, k);
    KeyClassCons(r2[0], r2[1..], key, k);
    assert r1 == [r1[0]] + r1[1..] && r2 == [r2[0]] + r2[1..];
    var c1, c2 := KeyClass(r1[1..], key, k), KeyClass(r2[1..], key, k);
    assert head + c1 == head + c2;
    assert c1 == (head + c1)[|head|..];
    assert c2 == (head + c2)[|head|..];
  }

  /** Insertion sort and merge sort (either split) compute the same sequence. */
  lemma SortsAgree<T>(s: seq<T>, key: T -> int, leftHeavy: bool)
    ensures InsertionSort(s, key) == MergeSort(s, key, leftHeavy)
  {
    InsertionSortCorrect(s, key);
    MergeSortCorrect(s, key, leftHeavy);
    SortedWithSameKeyClassesEqual(InsertionSort(s, key), MergeSort(s, key, leftHeavy), key);
  }
}
