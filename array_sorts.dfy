/**
 * The two list sorts that are benchmarked against Python's built-in `sorted`:
 * insertion sort by shifting in a copy of the input, and top-down merge sort
 * that splits at `len // 2` and merges with two indices.  Both leave their
 * input untouched and return a new list.
 */
module ArraySorts {
  import opened Sorting

  /** Plain integer comparison, as the element order of both sorts. */
  function Id(x: int): int { x }

  /** Insertion sort on a copy of `a`: for each position from the second on, shift the key into the sorted prefix. */
  method InsertionSort(a: seq<int>) returns (r: seq<int>)
    ensures r == Sorting.InsertionSort(a, Id)
    ensures SortedBy(r, Id) && multiset(r) == multiset(a)
  {
    InsertionSortCorrect(a, Id);
    var arr := new int[|a|](k requires 0 <= k < |a| => a[k]);
    assert arr[..] == a;
    if arr.Length > 0 {
      InsertionPasses(arr, a);
    }
    r := arr[..];
  }

  /** A single element is sorted already, so the passes start at the second. */
  lemma FirstPass(a: seq<int>)
    requires |a| > 0
    ensures Sorting.InsertionSort(a[..1], Id) + a[1..] == a
  {
    assert a[..1] == [a[0]];
    assert a == [a[0]] + a[1..];
  }

  /**
   * The passes of insertion sort over a non-empty array: before pass `i` the
   * first `i` elements are the insertion sort of the input's first `i`.
   */
  method InsertionPasses(arr: array<int>, ghost a: seq<int>)
    requires arr[..] == a && |a| > 0
    modifies arr
    ensures arr[..] == Sorting.InsertionSort(a, Id)
  {
    FirstPass(a);
    var i := 1;
    while i < arr.Length
      invariant 1 <= i <= arr.Length
      invariant arr[..] == Sorting.InsertionSort(a[..i], Id) + a[i..]
    {
      ghost var before := arr[..];
      ghost var p := ShiftInsert(arr, i, before);
      InsertionPass(a, i, p, before);
      i := i + 1;
    }
    assert a[..i] == a && a[i..] == [];
    assert arr[..] == Sorting.InsertionSort(a, Id) + [];
  }

  /**
   * The inner loop of the insertion sort: with `arr[..i]` sorted, move every
   * element of the prefix greater than `arr[i]` one place right and write
   * `arr[i]` into the gap that is left.  The ghost result is the gap.
   */
  method ShiftInsert(arr: array<int>, i: nat, ghost s: seq<int>) returns (ghost p: nat)
    requires 0 < i < arr.Length && arr[..] == s
    modifies arr
    ensures p <= i
    ensures arr[..] == Gapped(s[..i], p, s[i], s[i + 1..])
    ensures p > 0 ==> s[..i][p - 1] <= s[i]
    ensures forall t | p <= t < i :: s[..i][t] > s[i]
  {
    ghost var sorted := arr[..i];
    ghost var rest := arr[i + 1..];
    var key := arr[i];
    assert arr[..] == Gapped(sorted, i, key, rest) by {
      assert arr[..] == arr[..i] + arr[i..];
      assert arr[i..] == [arr[i]] + arr[i + 1..];
      GappedAtEnd(sorted, key, rest);
    }
    var j := i - 1;
    while j >= 0 && arr[j] > key
      invariant -1 <= j <= i - 1
      invariant arr[..] == Gapped(sorted, j + 1, arr[j + 1], rest)
      invariant forall t | j + 1 <= t < i :: sorted[t] > key
    {
      ghost var before := arr[..];
      ghost var x := arr[j + 1];
      ShiftGap(sorted, j, x, rest);
      assert arr[j] == sorted[j] by {
        assert arr[j] == before[j];
      }
      arr[j + 1] := arr[j];
      assert arr[..] == before[j + 1 := sorted[j]];
      j := j - 1;
    }
    if j >= 0 {
      GappedPrefix(sorted, j + 1, arr[j + 1], rest, j);
      assert arr[j] == arr[..][j];
    }
    ghost var before := arr[..];
    ghost var x := arr[j + 1];
    assert before == Gapped(sorted, j + 1, x, rest);
    arr[j + 1] := key;
    calc {
      arr[..];
      before[j + 1 := key];
      Gapped(sorted, j + 1, x, rest)[j + 1 := key];
      { FillGap(sorted, j + 1, x, key, rest); }
      Gapped(sorted, j + 1, key, rest);
    }
    p := j + 1;
  }

  /** Splitting a sequence known to be `x + y` at `|x|`. */
  lemma PrefixOfConcat(s: seq<int>, x: seq<int>, y: seq<int>)
    requires s == x + y && y != []
    ensures s[..|x|] == x && s[|x|] == y[0] && s[|x| + 1..] == y[1..]
  {
  }

  /** `sp` with a one-element gap holding `x` at position `p`, followed by `c`. */
  ghost function Gapped(sp: seq<int>, p: nat, x: int, c: seq<int>): (g: seq<int>)
    requires p <= |sp|
    ensures |g| == |sp| + 1 + |c| && g[p] == x
  {
    seq(|sp| + 1 + |c|, k requires 0 <= k < |sp| + 1 + |c| =>
      if k < p then sp[k] else if k == p then x else if k <= |sp| then sp[k - 1] else c[k - |sp| - 1])
  }

  /** Left of the gap the sequence agrees with `sp`. */
  lemma GappedPrefix(sp: seq<int>, p: nat, x: int, c: seq<int>, k: nat)
    requires k < p <= |sp|
    ensures Gapped(sp, p, x, c)[k] == sp[k]
  {
  }

  /** Moving `sp[j]` into the gap moves the gap one place left. */
  lemma ShiftGap(sp: seq<int>, j: nat, x: int, c: seq<int>)
    requires j < |sp|
    ensures Gapped(sp, j + 1, x, c)[j] == sp[j]
    ensures Gapped(sp, j + 1, x, c)[j + 1 := sp[j]] == Gapped(sp, j, sp[j], c)
  {
  }

  /** Writing the key into the gap. */
  lemma FillGap(sp: seq<int>, p: nat, x: int, key: int, c: seq<int>)
    requires p <= |sp|
    ensures Gapped(sp, p, x, c)[p := key] == Gapped(sp, p, key, c)
  {
  }

  /** With the gap at the end, the sequence is the prefix, the key and the rest. */
  lemma GappedAtEnd(sp: seq<int>, x: int, c: seq<int>)
    ensures Gapped(sp, |sp|, x, c) == sp + [x] + c
  {
  }

  /** In general the gapped sequence is the two halves of `sp` around `x`. */
  lemma GappedSplit(sp: seq<int>, p: nat, x: int, c: seq<int>)
    requires p <= |sp|
    ensures Gapped(sp, p, x, c) == sp[..p] + [x] + sp[p..] + c
  {
  }

  /** After the shifting loop the array holds the next sorted prefix followed by the untouched rest. */
  lemma InsertionPass(a: seq<int>, i: nat, p: nat, before: seq<int>)
    requires 0 < i < |a| && p <= i
    requires before == Sorting.InsertionSort(a[..i], Id) + a[i..]
    requires p > 0 ==> before[..i][p - 1] <= before[i]
    requires forall t | p <= t < i :: before[..i][t] > before[i]
    ensures Gapped(before[..i], p, before[i], before[i + 1..]) == Sorting.InsertionSort(a[..i + 1], Id) + a[i + 1..]
  {
    var sorted := Sorting.InsertionSort(a[..i], Id);
    PrefixOfConcat(before, sorted, a[i..]);
    InsertionStep(a, i);
    GappedSplit(sorted, p, a[i], a[i + 1..]);
    InsertIntoSortedPrefix(sorted, a[i], p);
  }

  /** One step of the outer loop: the sorted prefix grows by inserting the next element. */
  lemma InsertionStep(a: seq<int>, i: nat)
    requires 0 < i < |a|
    ensures Sorting.InsertionSort(a[..i + 1], Id) == Insert(Sorting.InsertionSort(a[..i], Id), a[i], Id)
    ensures SortedBy(Sorting.InsertionSort(a[..i], Id), Id)
  {
    InsertionSortSnoc(a, i, Id);
    InsertionSortCorrect(a[..i], Id);
  }

  /** The gap found by the shifting loop is where `Insert` puts the key. */
  lemma InsertIntoSortedPrefix(s: seq<int>, key: int, p: nat)
    requires SortedBy(s, Id) && p <= |s|
    requires p > 0 ==> s[p - 1] <= key
    requires forall t | p <= t < |s| :: s[t] > key
    ensures Insert(s, key, Id) == s[..p] + [key] + s[p..]
  {
    assert forall t | 0 <= t < p :: Id(s[t]) <= Id(s[p - 1]);
    InsertAt(s, key, Id, p);
  }

  /** Merge sort returning a new list; a list of at most one element is copied. */
  method MergeSort(a: seq<int>) returns (r: seq<int>)
    ensures r == Sorting.MergeSort(a, Id, false)
    ensures SortedBy(r, Id) && multiset(r) == multiset(a)
    decreases |a|
  {
    if |a| <= 1 {
      r := a;
    } else {
      var mid := |a| / 2;
      var left := MergeSort(a[..mid]);
      var right := MergeSort(a[mid..]);
      r := MergeLists(left, right);
      assert mid == SplitPoint(|a|, false);
    }
    assert SortedBy(r, Id) && multiset(r) == multiset(a) by {
      MergeSortCorrect(a, Id, false);
    }
  }

  /** The merge loop of `merge_sort`: ties take the left element; leftovers are appended. */
  method MergeLists(left: seq<int>, right: seq<int>) returns (out: seq<int>)
    ensures out == Merge(left, right, Id)
  {
    var i, j := 0, 0;
    out := [];
    MergeFromIsMerge(left, right, 0, 0);
    assert left[0..] == left && right[0..] == right;
    while i < |left| && j < |right|
      invariant 0 <= i <= |left| && 0 <= j <= |right|
      invariant out + MergeFrom(left, right, i, j) == Merge(left, right, Id)
    {
      if left[i] <= right[j] {
        AppendAssoc(out, [left[i]], MergeFrom(left, right, i + 1, j));
        out := out + [left[i]];
        i := i + 1;
      } else {
        AppendAssoc(out, [right[j]], MergeFrom(left, right, i, j + 1));
        out := out + [right[j]];
        j := j + 1;
      }
    }
    if i < |left| {
      out := out + left[i..];
    }
    if j < |right| {
      out := out + right[j..];
    }
    assert out == Merge(left, right, Id) by {
      if i < |left| {
        assert MergeFrom(left, right, i, j) == left[i..];
      } else if j < |right| {
        assert MergeFrom(left, right, i, j) == right[j..];
      } else {
        assert MergeFrom(left, right, i, j) == [];
      }
    }
  }

  lemma AppendAssoc(a: seq<int>, b: seq<int>, c: seq<int>)
    ensures a + (b + c) == (a + b) + c
  {
  }

  /** The merge of `left[i..]` and `right[j..]`, indexed instead of sliced. */
  ghost function MergeFrom(left: seq<int>, right: seq<int>, i: nat, j: nat): seq<int>
    requires i <= |left| && j <= |right|
    decreases |left| - i + |right| - j
  {
    if i == |left| then right[j..]
    else if j == |right| then left[i..]
    else if left[i] <= right[j] then [left[i]] + MergeFrom(left, right, i + 1, j)
    else [right[j]] + MergeFrom(left, right, i, j + 1)
  }

  /** The indexed merge is the merge of the two suffixes. */
  lemma {:induction false} MergeFromIsMerge(left: seq<int>, right: seq<int>, i: nat, j: nat)
    requires i <= |left| && j <= |right|
    ensures MergeFrom(left, right, i, j) == Merge(left[i..], right[j..], Id)
    decreases |left| - i + |right| - j
  {
    if i < |left| && j < |right| {
      assert left[i..][1..] == left[i + 1..];
      assert right[j..][1..] == right[j + 1..];
      if left[i] <= right[j] {
        MergeFromIsMerge(left, right, i + 1, j);
      } else {
        MergeFromIsMerge(left, right, i, j + 1);
      }
    }
  }

  /** For integers, a sorted permutation of `a` is unique, so both sorts return exactly what `sorted(a)` returns. */
  lemma SortedPermutationIsUnique(a: seq<int>, r: seq<int>)
    requires SortedBy(r, Id) && multiset(r) == multiset(a)
    ensures r == Sorting.InsertionSort(a, Id)
    ensures r == Sorting.MergeSort(a, Id, false)
  {
    var s := Sorting.InsertionSort(a, Id);
    InsertionSortCorrect(a, Id);
    forall k ensures KeyClass(r, Id, k) == KeyClass(s, Id, k) {
      KeyClassOfInts(r, k);
      KeyClassOfInts(s, k);
    }
    SortedWithSameKeyClassesEqual(r, s, Id);
    SortsAgree(a, Id, false);
  }

  /** Under plain comparison a key class is just the copies of one value. */
  lemma {:induction false} KeyClassOfInts(s: seq<int>, k: int)
    ensures KeyClass(s, Id, k) == seq(multiset(s)[k], _ => k)
  {
    if s != [] {
      KeyClassOfInts(s[1..], k);
      assert s == [s[0]] + s[1..];
      assert multiset(s)[k] == (if s[0] == k then 1 else 0) + multiset(s[1..])[k];
    }
  }
}
