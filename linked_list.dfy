/**
 * A singly linked list of heap nodes.  Every operation works by relinking
 * `next` pointers in place: reversal, merge sort (split at the middle with a
 * slow and a fast pointer, then a stable merge behind a dummy node),
 * insertion sort into a list behind a dummy node, and the merge of two sorted
 * lists.  Sorting and merging compare the integer `key` of the values.
 *
 * A chain is described by the ghost sequence of its nodes; its contents are
 * the nodes' values in that order.
 */
module LinkedList {
  import opened Sorting
  import opened Sequences

  class Node<T> {
    const value: T
    var next: Node?<T>

    constructor(value: T)
      ensures this.value == value && next == null
    {
      this.value := value;
      next := null;
    }
  }

  /** The values held by a sequence of nodes, in order. */
  function Values<T>(ns: seq<Node<T>>): seq<T> {
    seq(|ns|, i requires 0 <= i < |ns| => ns[i].value)
  }

  /**
   * `ns` are exactly the nodes reached from `head` by following `next`, in
   * order, each one new, the last one ending the chain with null.
   */
  ghost predicate Chain<T>(head: Node?<T>, ns: seq<Node<T>>)
    reads ns
    decreases |ns|
  {
    if ns == [] then head == null
    else head == ns[0] && ns[0] !in ns[1..] && Chain(ns[0].next, ns[1..])
  }

  /** A chain has no repeated node, links each node to the next, and ends in null. */
  lemma {:induction false} ChainShape<T>(head: Node?<T>, ns: seq<Node<T>>)
    requires Chain(head, ns)
    ensures Distinct(ns)
    ensures forall i | 0 <= i < |ns| - 1 :: ns[i].next == ns[i + 1]
    ensures ns != [] ==> ns[|ns| - 1].next == null
    decreases |ns|
  {
    if ns != [] {
      ChainShape(ns[0].next, ns[1..]);
      forall i, j | 0 <= i < j < |ns|
        ensures ns[i] != ns[j]
      {
        if i > 0 {
          assert ns[1..][i - 1] != ns[1..][j - 1];
        } else {
          assert ns[1..][j - 1] == ns[j];
        }
      }
      forall i | 0 < i < |ns| - 1
        ensures ns[i].next == ns[i + 1]
      {
        assert ns[1..][i - 1] == ns[i];
      }
      if |ns| > 1 {
        assert ns[0].next == ns[1..][0];
      }
    }
  }

  /** Conversely, distinct nodes linked in order and ending in null form a chain. */
  lemma {:induction false} ChainFromShape<T>(head: Node?<T>, ns: seq<Node<T>>)
    requires Distinct(ns) && head == (if ns == [] then null else ns[0])
    requires forall i | 0 <= i < |ns| - 1 :: ns[i].next == ns[i + 1]
    requires ns != [] ==> ns[|ns| - 1].next == null
    ensures Chain(head, ns)
    decreases |ns|
  {
    if ns != [] {
      var rest := ns[1..];
      forall i, j | 0 <= i < j < |rest| ensures rest[i] != rest[j] {
        assert rest[i] == ns[i + 1] && rest[j] == ns[j + 1];
      }
      forall i | 0 <= i < |rest| - 1 ensures rest[i].next == rest[i + 1] {
        assert rest[i] == ns[i + 1];
      }
      ChainFromShape(ns[0].next, rest);
      forall k | 0 <= k < |rest| ensures rest[k] != ns[0] {
        assert rest[k] == ns[k + 1];
      }
    }
  }

  /** The node at position `i`, or null just past the end. */
  function At<T>(ns: seq<Node<T>>, i: nat): Node?<T>
    requires i <= |ns|
  {
    if i == |ns| then null else ns[i]
  }

  /** In a chain every node links to the next position, the last one to null. */
  lemma ChainLinks<T>(head: Node?<T>, ns: seq<Node<T>>)
    requires Chain(head, ns)
    ensures forall k | 0 <= k < |ns| :: ns[k].next == At(ns, k + 1)
  {
    ChainShape(head, ns);
  }

  lemma ValuesAppend<T>(a: seq<Node<T>>, b: seq<Node<T>>)
    ensures Values(a + b) == Values(a) + Values(b)
  {
  }

  lemma ValuesReverse<T>(ns: seq<Node<T>>)
    ensures Values(Reverse(ns)) == Reverse(Values(ns))
  {
  }

  lemma ReverseStep<T>(ns: seq<T>, i: nat)
    requires i < |ns|
    ensures Sequences.Reverse(ns[..i + 1]) == [ns[i]] + Sequences.Reverse(ns[..i])
  {
    assert ns[..i + 1][1..] == ns[1..][..i] by {
    }
  }

  /** The node at position `i` of a chain occurs neither before nor after it. */
  lemma SplitAt<T>(ns: seq<T>, i: nat)
    requires Distinct(ns) && i < |ns|
    ensures ns[i..] == [ns[i]] + ns[i + 1..]
    ensures ns[i] !in ns[..i] && ns[i] !in ns[i + 1..]
  {
  }

  /** Dropping the first node of a chain leaves the chain that starts at its successor. */
  lemma ChainTail<T>(ns: seq<Node<T>>, i: nat)
    requires i < |ns| && Chain(ns[i], ns[i..])
    ensures ns[i] !in ns[i + 1..] && Chain(ns[i].next, ns[i + 1..])
  {
    assert ns[i..][1..] == ns[i + 1..];
  }

  /** A node outside a chain that links to the chain's head extends it at the front. */
  lemma ChainCons<T>(x: Node<T>, head: Node?<T>, ns: seq<Node<T>>)
    requires Chain(head, ns) && x !in ns && x.next == head
    ensures Chain(x, [x] + ns)
  {
  }

  lemma ReverseMembers<T>(s: seq<T>)
    ensures forall x :: x in Sequences.Reverse(s) <==> x in s
  {
    var r := Sequences.Reverse(s);
    forall x | x in s ensures x in r {
      var k :| 0 <= k < |s| && s[k] == x;
      assert r[|s| - 1 - k] == x;
    }
  }

  /**
   * Distinct nodes each linking to the next; the link of the last one is not
   * constrained, so the path stays intact while that link is rewritten.
   */
  ghost predicate Path<T>(ns: seq<Node<T>>)
    reads if ns == [] then [] else ns[..|ns| - 1]
    decreases |ns|
  {
    |ns| <= 1 || (ns[0].next == ns[1] && ns[0] !in ns[1..] && Path(ns[1..]))
  }

  lemma {:induction false} PathDistinct<T>(ns: seq<Node<T>>)
    requires Path(ns)
    ensures Distinct(ns)
    decreases |ns|
  {
    if |ns| > 1 {
      PathDistinct(ns[1..]);
      forall i, j | 0 <= i < j < |ns| ensures ns[i] != ns[j] {
        if i > 0 {
          assert ns[1..][i - 1] != ns[1..][j - 1];
        } else {
          assert ns[1..][j - 1] == ns[j];
        }
      }
    }
  }

  /** A node outside a path that the path's last node links to extends it. */
  lemma {:induction false} PathSnoc<T>(ns: seq<Node<T>>, x: Node<T>)
    requires Path(ns) && ns != [] && ns[|ns| - 1].next == x && x !in ns
    ensures Path(ns + [x])
    decreases |ns|
  {
    if |ns| > 1 {
      assert (ns + [x])[1..] == ns[1..] + [x];
      PathSnoc(ns[1..], x);
    }
  }

  /** A path whose last node links to the head of a disjoint chain forms one chain with it. */
  lemma {:induction false} PathChain<T>(ns: seq<Node<T>>, h: Node?<T>, rest: seq<Node<T>>)
    requires Path(ns) && ns != [] && ns[|ns| - 1].next == h && Chain(h, rest)
    requires forall n | n in ns :: n !in rest
    ensures Chain(ns[0], ns + rest)
    decreases |ns|
  {
    assert (ns + rest)[1..] == ns[1..] + rest;
    if |ns| > 1 {
      PathChain(ns[1..], h, rest);
    }
  }

  /** A chain cut after its first `m` nodes: a path that links to the chain of the rest. */
  lemma {:induction false} ChainSplit<T>(h: Node?<T>, ns: seq<Node<T>>, m: nat)
    requires Chain(h, ns) && 0 < m <= |ns|
    ensures Path(ns[..m]) && ns[m - 1].next == At(ns, m) && Chain(At(ns, m), ns[m..])
    ensures forall n | n in ns[..m] :: n !in ns[m..]
    decreases m
  {
    if m > 1 {
      ChainSplit(ns[0].next, ns[1..], m - 1);
      assert ns[1..][..m - 1] == ns[..m][1..];
      assert ns[1..][m - 1..] == ns[m..];
      assert ns[1..][m - 2] == ns[m - 1];
    } else {
      assert ns[m..] == ns[1..];
    }
    ChainShape(h, ns);
    forall n | n in ns[..m] ensures n !in ns[m..] {
      var a :| 0 <= a < m && ns[a] == n;
      forall b | 0 <= b < |ns| - m ensures ns[m..][b] != n {
        assert ns[m..][b] == ns[m + b];
      }
    }
  }

  /** Orders nodes by the key of their values. */
  function NodeKey<T>(key: T -> int): Node<T> -> int {
    (n: Node<T>) => key(n.value)
  }

  lemma ValuesCons<T>(x: Node<T>, ns: seq<Node<T>>)
    ensures Values([x] + ns) == [x.value] + Values(ns)
  {
  }

  lemma ValuesTail<T>(ns: seq<Node<T>>)
    requires ns != []
    ensures Values(ns[1..]) == Values(ns)[1..] && Values(ns)[0] == ns[0].value
  {
  }

  lemma ValuesSlices<T>(ns: seq<Node<T>>, m: nat)
    requires m <= |ns|
    ensures Values(ns[..m]) == Values(ns)[..m] && Values(ns[m..]) == Values(ns)[m..]
  {
  }

  lemma {:induction false} ValuesMerge<T>(an: seq<Node<T>>, bn: seq<Node<T>>, key: T -> int)
    ensures Values(Merge(an, bn, NodeKey(key))) == Merge(Values(an), Values(bn), key)
    decreases |an| + |bn|
  {
    var nk := NodeKey(key);
    if an != [] && bn != [] {
      ValuesTail(an);
      ValuesTail(bn);
      var a, b := Values(an), Values(bn);
      if key(an[0].value) <= key(bn[0].value) {
        calc {
          Values(Merge(an, bn, nk));
          Values([an[0]] + Merge(an[1..], bn, nk));
          { ValuesCons(an[0], Merge(an[1..], bn, nk)); }
          [an[0].value] + Values(Merge(an[1..], bn, nk));
          { ValuesMerge(an[1..], bn, key); }
          [a[0]] + Merge(a[1..], b, key);
          Merge(a, b, key);
        }
      } else {
        calc {
          Values(Merge(an, bn, nk));
          Values([bn[0]] + Merge(an, bn[1..], nk));
          { ValuesCons(bn[0], Merge(an, bn[1..], nk)); }
          [bn[0].value] + Values(Merge(an, bn[1..], nk));
          { ValuesMerge(an, bn[1..], key); }
          [b[0]] + Merge(a, b[1..], key);
          Merge(a, b, key);
        }
      }
    }
  }

  lemma {:induction false} ValuesInsert<T>(r: seq<Node<T>>, x: Node<T>, key: T -> int)
    ensures Values(Insert(r, x, NodeKey(key))) == Insert(Values(r), x.value, key)
    decreases |r|
  {
    var nk := NodeKey(key);
    if r == [] {
      ValuesCons(x, []);
    } else {
      ValuesTail(r);
      var v := Values(r);
      if key(r[0].value) <= key(x.value) {
        calc {
          Values(Insert(r, x, nk));
          Values([r[0]] + Insert(r[1..], x, nk));
          { ValuesCons(r[0], Insert(r[1..], x, nk)); }
          [r[0].value] + Values(Insert(r[1..], x, nk));
          { ValuesInsert(r[1..], x, key); }
          [v[0]] + Insert(v[1..], x.value, key);
          Insert(v, x.value, key);
        }
      } else {
        ValuesCons(x, r);
      }
    }
  }

  lemma {:induction false} ValuesInsertionSort<T>(ns: seq<Node<T>>, key: T -> int)
    ensures Values(InsertionSort(ns, NodeKey(key))) == InsertionSort(Values(ns), key)
    decreases |ns|
  {
    if ns != [] {
      var nk := NodeKey(key);
      var init := ns[..|ns| - 1];
      ValuesSlices(ns, |ns| - 1);
      calc {
        Values(InsertionSort(ns, nk));
        Values(Insert(InsertionSort(init, nk), ns[|ns| - 1], nk));
        { ValuesInsert(InsertionSort(init, nk), ns[|ns| - 1], key); }
        Insert(Values(InsertionSort(init, nk)), ns[|ns| - 1].value, key);
        { ValuesInsertionSort(init, key); }
        Insert(InsertionSort(Values(init), key), ns[|ns| - 1].value, key);
        InsertionSort(Values(ns), key);
      }
    }
  }

  lemma {:induction false} ValuesMergeSort<T>(ns: seq<Node<T>>, key: T -> int, leftHeavy: bool)
    ensures Values(MergeSort(ns, NodeKey(key), leftHeavy)) == MergeSort(Values(ns), key, leftHeavy)
    decreases |ns|
  {
    if |ns| > 1 {
      var nk := NodeKey(key);
      var mid := SplitPoint(|ns|, leftHeavy);
      var l, r := MergeSort(ns[..mid], nk, leftHeavy), MergeSort(ns[mid..], nk, leftHeavy);
      ValuesSlices(ns, mid);
      calc {
        Values(MergeSort(ns, nk, leftHeavy));
        Values(Merge(l, r, nk));
        { ValuesMerge(l, r, key); }
        Merge(Values(l), Values(r), key);
        { ValuesMergeSort(ns[..mid], key, leftHeavy); ValuesMergeSort(ns[mid..], key, leftHeavy); }
        Merge(MergeSort(Values(ns)[..mid], key, leftHeavy), MergeSort(Values(ns)[mid..], key, leftHeavy), key);
        MergeSort(Values(ns), key, leftHeavy);
      }
    }
  }

  /**
   * The slow/fast walk: the fast pointer moves two nodes per step, so the slow
   * one stops on the last node of the front half, which is the longer half
   * when the length is odd.
   */
  method FindMiddle<T>(head: Node<T>, ghost ns: seq<Node<T>>) returns (slow: Node<T>, ghost s: nat)
    requires Chain(head, ns) && |ns| >= 2
    ensures s == (|ns| - 1) / 2 && slow == ns[s]
  {
    ChainLinks(head, ns);
    var fast := head.next;
    slow, s := head, 0;
    while fast != null && fast.next != null
      invariant 2 * s + 1 <= |ns| && slow == ns[s] && fast == At(ns, 2 * s + 1)
      invariant forall k | 0 <= k < |ns| :: ns[k].next == At(ns, k + 1)
      decreases |ns| - s
    {
      assert fast == ns[2 * s + 1] && fast.next == At(ns, 2 * s + 2);
      assert slow.next == At(ns, s + 1);
      slow := slow.next;
      fast := fast.next.next;
      s := s + 1;
    }
    if fast != null {
      assert fast == ns[2 * s + 1] && fast.next == At(ns, 2 * s + 2);
    }
    assert |ns| == 2 * s + 1 || |ns| == 2 * s + 2;
    assert (|ns| - 1) / 2 == s;
  }

  /**
   * Cuts a chain after its first `ceil(n/2)` nodes: a slow pointer moves one
   * node for every two of a fast one, and the node it stops at gets a null link.
   */
  method SplitMiddle<T>(head: Node?<T>, ghost ns: seq<Node<T>>)
    returns (left: Node?<T>, right: Node?<T>, ghost ln: seq<Node<T>>, ghost rn: seq<Node<T>>)
    requires Chain(head, ns)
    modifies set n | n in ns
    ensures ln == ns[..(|ns| + 1) / 2] && rn == ns[(|ns| + 1) / 2..]
    ensures Chain(left, ln) && Chain(right, rn)
  {
    if head == null || head.next == null {
      if ns != [] {
        assert Chain(head.next, ns[1..]);
        assert ns[1..] == [];
      }
      assert |ns| <= 1 && ns[..(|ns| + 1) / 2] == ns && ns[(|ns| + 1) / 2..] == [];
      return head, null, ns, [];
    }
    assert Chain(head.next, ns[1..]) && ns[1..] != [];
    var slow, s := FindMiddle(head, ns);
    ln, rn := ns[..s + 1], ns[s + 1..];
    ChainSplit(head, ns, s + 1);
    PathDistinct(ln);
    assert slow == ln[s] && slow !in ln[..s] && slow !in rn;
    right := slow.next;
    slow.next := null;
    left := head;
    if s > 0 {
      PathChain(ln, null, []);
      assert ln + [] == ln;
    }
  }

  /** The elements of a suffix are elements of the whole sequence. */
  lemma InSlice<T>(s: seq<T>, i: nat)
    requires i <= |s|
    ensures forall x | x in s[i..] :: x in s
  {
    forall x | x in s[i..] ensures x in s {
      var k :| 0 <= k < |s| - i && s[i..][k] == x;
      assert s[i + k] == x;
    }
  }

  /** The elements of a prefix are elements of the whole sequence. */
  lemma InPrefix<T>(s: seq<T>, i: nat)
    requires i <= |s|
    ensures forall x | x in s[..i] :: x in s
  {
    forall x | x in s[..i] ensures x in s {
      var k :| 0 <= k < i && s[..i][k] == x;
      assert s[k] == x;
    }
  }

  /**
   * The merged prefix and the two remainders together hold every node of the
   * inputs once, so the prefix shares no node with the remainders.
   */
  lemma MergedDisjoint<T>(an: seq<Node<T>>, bn: seq<Node<T>>, i: nat, j: nat, built: seq<Node<T>>, key: T -> int)
    requires Distinct(an + bn) && i <= |an| && j <= |bn|
    requires built + Merge(an[i..], bn[j..], NodeKey(key)) == Merge(an, bn, NodeKey(key))
    ensures forall n | n in built :: n !in an[i..] && n !in bn[j..] && n in an + bn
  {
    var ar, br := an[i..], bn[j..];
    var m := Merge(ar, br, NodeKey(key));
    var total := multiset(an + bn);
    assert total == multiset(built + m);
    assert total == multiset(built) + multiset(ar) + multiset(br);
    forall n | n in built ensures n !in ar && n !in br && n in an + bn {
      DistinctCount(an + bn, n);
      assert multiset(built)[n] >= 1;
      assert total[n] == multiset(built)[n] + multiset(ar)[n] + multiset(br)[n];
    }
  }

  /** Nodes kept apart from a remainder are kept apart from its tail, and its head is not among them. */
  lemma ApartFromRest<T>(s: seq<T>, i: nat, path: seq<T>, tail: T)
    requires i <= |s| && tail in path
    requires forall n | n in path :: n !in s[i..]
    ensures i < |s| ==> tail !in s[i + 1..] && s[i] !in path
  {
    if i < |s| {
      assert s[i] in s[i..];
      assert s[i + 1..] == s[i..][1..];
      InSlice(s[i..], 1);
    }
  }

  /**
   * What relinking the tail of a partial merge needs: the tail is neither in a
   * remaining chain nor among the path nodes whose links matter, and neither
   * remaining head is on the path yet.
   */
  lemma MergeSeparate<T>(an: seq<Node<T>>, bn: seq<Node<T>>, i: nat, j: nat, built: seq<Node<T>>,
                         dummy: Node<T>, tail: Node<T>, key: T -> int)
    requires Distinct(an + bn) && i <= |an| && j <= |bn|
    requires built + Merge(an[i..], bn[j..], NodeKey(key)) == Merge(an, bn, NodeKey(key))
    requires Path([dummy] + built) && tail == ([dummy] + built)[|built|] && dummy !in an + bn
    ensures forall n | n in [dummy] + built :: n !in an[i..] && n !in bn[j..]
    ensures i < |an| ==> tail !in an[i + 1..] && an[i] !in [dummy] + built
    ensures j < |bn| ==> tail !in bn[j + 1..] && bn[j] !in [dummy] + built
    ensures tail !in ([dummy] + built)[..|built|]
    ensures tail == dummy || tail in an + bn
  {
    var path := [dummy] + built;
    MergedDisjoint(an, bn, i, j, built, key);
    InSlice(an, i);
    InSlice(bn, j);
    assert forall n | n in path :: n == dummy || n in built;
    ApartFromRest(an, i, path, tail);
    ApartFromRest(bn, j, path, tail);
    PathDistinct(path);
  }

  /** Taking the head of the left remainder keeps the merged prefix a prefix of the merge. */
  lemma MergeTakeLeft<T>(an: seq<T>, bn: seq<T>, i: nat, j: nat, built: seq<T>, key: T -> int)
    requires i < |an| && j < |bn| && key(an[i]) <= key(bn[j])
    requires built + Merge(an[i..], bn[j..], key) == Merge(an, bn, key)
    ensures (built + [an[i]]) + Merge(an[i + 1..], bn[j..], key) == Merge(an, bn, key)
  {
    var a, b := an[i..], bn[j..];
    assert a != [] && b != [] && a[0] == an[i] && b[0] == bn[j] && a[1..] == an[i + 1..];
    assert Merge(a, b, key) == [a[0]] + Merge(a[1..], b, key);
    AppendAssociates(built, [an[i]], Merge(a[1..], b, key));
  }

  /** Taking the head of the right remainder, when its key is smaller. */
  lemma MergeTakeRight<T>(an: seq<T>, bn: seq<T>, i: nat, j: nat, built: seq<T>, key: T -> int)
    requires i < |an| && j < |bn| && key(an[i]) > key(bn[j])
    requires built + Merge(an[i..], bn[j..], key) == Merge(an, bn, key)
    ensures (built + [bn[j]]) + Merge(an[i..], bn[j + 1..], key) == Merge(an, bn, key)
  {
    var a, b := an[i..], bn[j..];
    assert a != [] && b != [] && a[0] == an[i] && b[0] == bn[j] && b[1..] == bn[j + 1..];
    assert Merge(a, b, key) == [b[0]] + Merge(a, b[1..], key);
    AppendAssociates(built, [bn[j]], Merge(a, b[1..], key));
  }

  lemma MergeEmpty<T>(a: seq<T>, b: seq<T>, key: T -> int)
    requires a == [] || b == []
    ensures Merge(a, b, key) == a + b
  {
  }

  lemma DropFirst<T>(x: T, a: seq<T>, b: seq<T>)
    ensures (([x] + a) + b)[1..] == a + b && (([x] + a) + b)[0] == x && (([x] + a) + b)[0..] == ([x] + a) + b
  {
  }

  lemma AppendAssociates<T>(a: seq<T>, b: seq<T>, c: seq<T>)
    ensures a + (b + c) == (a + b) + c
  {
  }

  /**
   * Links the last node of a path to the head of a chain that shares no node
   * with it; the path and the chain then form one chain.  Another chain that
   * does not contain the relinked node is unaffected.
   */
  method LinkAfter<T>(tail: Node<T>, h: Node?<T>, ghost path: seq<Node<T>>, ghost rest: seq<Node<T>>,
                      ghost oh: Node?<T>, ghost other: seq<Node<T>>)
    requires Path(path) && path != [] && tail == path[|path| - 1]
    requires Chain(h, rest) && Chain(oh, other) && tail !in other
    requires forall n | n in path :: n !in rest
    modifies tail
    ensures tail.next == h
    ensures Chain(path[0], path + rest) && Chain(oh, other)
  {
    PathDistinct(path);
    assert tail !in path[..|path| - 1];
    assert tail in path && tail !in rest;
    tail.next := h;
    PathChain(path, h, rest);
  }

  /**
   * Splices `cur` between the last node of a path and the head of a chain:
   * `cur` is linked to the chain first, then the path's last node to `cur`.
   */
  method SpliceIn<T>(prev: Node<T>, cur: Node<T>, it: Node?<T>, ghost front: seq<Node<T>>, ghost back: seq<Node<T>>,
                     ghost oh: Node?<T>, ghost other: seq<Node<T>>)
    requires Path(front) && front != [] && prev == front[|front| - 1] && Chain(it, back)
    requires cur !in front && cur !in back && forall n | n in front :: n !in back
    requires Chain(oh, other) && cur !in other && prev !in other
    modifies cur, prev
    ensures Chain(front[0], front + ([cur] + back)) && Chain(oh, other)
  {
    PathDistinct(front);
    assert cur !in front[..|front| - 1];
    LinkAfter(cur, it, [cur], back, oh, other);
    LinkAfter(prev, cur, front, [cur] + back, oh, other);
  }

  /** Cutting a path-and-chain again one node further along. */
  lemma ChainAdvance<T>(path: seq<Node<T>>, s: seq<Node<T>>, i: nat)
    requires path != [] && i < |s| && Chain(path[0], path + s[i..])
    ensures Path(path + [s[i]]) && Chain(s[i].next, s[i + 1..])
  {
    var ns := path + s[i..];
    ChainSplit(path[0], ns, |path| + 1);
    assert ns[..|path| + 1] == path + [s[i]];
    assert ns[|path| + 1..] == s[i + 1..];
    assert ns[|path|] == s[i];
  }

  /**
   * One round of the merge loop: the head with the smaller key (the left one
   * on a tie) is linked after the tail and becomes the new tail.  The merged
   * prefix grows by that node and stays a prefix of the stable merge.
   */
  method MergeStep<T>(x: Node<T>, y: Node<T>, tail: Node<T>, key: T -> int,
                      ghost an: seq<Node<T>>, ghost bn: seq<Node<T>>, ghost i: nat, ghost j: nat,
                      ghost built: seq<Node<T>>, ghost dummy: Node<T>)
    returns (x': Node?<T>, y': Node?<T>, tail': Node<T>, ghost i': nat, ghost j': nat, ghost built': seq<Node<T>>)
    requires Distinct(an + bn) && dummy !in an + bn
    requires i < |an| && j < |bn| && x == an[i] && y == bn[j]
    requires Chain(x, an[i..]) && Chain(y, bn[j..])
    requires built + Merge(an[i..], bn[j..], NodeKey(key)) == Merge(an, bn, NodeKey(key))
    requires Path([dummy] + built) && tail == ([dummy] + built)[|built|]
    modifies tail
    ensures i' <= |an| && j' <= |bn| && x' == At(an, i') && y' == At(bn, j') && i' + j' == i + j + 1
    ensures Chain(x', an[i'..]) && Chain(y', bn[j'..])
    ensures built' + Merge(an[i'..], bn[j'..], NodeKey(key)) == Merge(an, bn, NodeKey(key))
    ensures Path([dummy] + built') && tail' == ([dummy] + built')[|built'|]
    ensures tail' in an + bn
  {
    MergeSeparate(an, bn, i, j, built, dummy, tail, key);
    ghost var path := [dummy] + built;
    if key(x.value) <= key(y.value) {
      LinkAfter(tail, x, path, an[i..], y, bn[j..]);
      ChainAdvance(path, an, i);
      MergeTakeLeft(an, bn, i, j, built, NodeKey(key));
      AppendAssociates([dummy], built, [x]);
      x', y', tail' := x.next, y, x;
      i', j', built' := i + 1, j, built + [x];
      assert x in an;
    } else {
      LinkAfter(tail, y, path, bn[j..], x, an[i..]);
      ChainAdvance(path, bn, j);
      MergeTakeRight(an, bn, i, j, built, NodeKey(key));
      AppendAssociates([dummy], built, [y]);
      x', y', tail' := x, y.next, y;
      i', j', built' := i, j + 1, built + [y];
      assert y in bn;
    }
  }

  /**
   * When one chain is used up, the rest of the other one is what the merge
   * still lacks, and it shares no node with the merged path.
   */
  lemma MergeRest<T>(x: Node?<T>, y: Node?<T>, tail: Node<T>, key: T -> int,
                     an: seq<Node<T>>, bn: seq<Node<T>>, i: nat, j: nat,
                     built: seq<Node<T>>, dummy: Node<T>)
    returns (rest: seq<Node<T>>)
    requires Distinct(an + bn) && (x == null || y == null)
    requires dummy !in an + bn
    requires i <= |an| && j <= |bn| && x == At(an, i) && y == At(bn, j)
    requires Chain(x, an[i..]) && Chain(y, bn[j..])
    requires built + Merge(an[i..], bn[j..], NodeKey(key)) == Merge(an, bn, NodeKey(key))
    requires Path([dummy] + built) && tail == ([dummy] + built)[|built|]
    ensures Chain(if x != null then x else y, rest)
    ensures forall n | n in [dummy] + built :: n !in rest
    ensures (([dummy] + built) + rest)[1..] == Merge(an, bn, NodeKey(key))
    ensures (([dummy] + built) + rest)[0] == dummy
  {
    MergeSeparate(an, bn, i, j, built, dummy, tail, key);
    MergeEmpty(an[i..], bn[j..], NodeKey(key));
    rest := if x != null then an[i..] else bn[j..];
    DropFirst(dummy, built, rest);
  }

  /**
   * After the merge loop one chain is used up: the rest of the other one is
   * linked after the tail as a whole, and the merged chain starts after the
   * dummy node.
   */
  method MergeFinish<T>(x: Node?<T>, y: Node?<T>, tail: Node<T>, key: T -> int,
                        ghost an: seq<Node<T>>, ghost bn: seq<Node<T>>, ghost i: nat, ghost j: nat,
                        ghost built: seq<Node<T>>, dummy: Node<T>)
    returns (head: Node?<T>, ghost out: seq<Node<T>>)
    requires Distinct(an + bn) && (x == null || y == null)
    requires dummy !in an + bn
    requires i <= |an| && j <= |bn| && x == At(an, i) && y == At(bn, j)
    requires Chain(x, an[i..]) && Chain(y, bn[j..])
    requires built + Merge(an[i..], bn[j..], NodeKey(key)) == Merge(an, bn, NodeKey(key))
    requires Path([dummy] + built) && tail == ([dummy] + built)[|built|]
    modifies tail
    ensures out == Merge(an, bn, NodeKey(key)) && Chain(head, out)
  {
    var h := if x != null then x else y;
    ghost var rest := MergeRest(x, y, tail, key, an, bn, i, j, built, dummy);
    LinkAfter(tail, h, [dummy] + built, rest, null, []);
    ghost var ns := ([dummy] + built) + rest;
    assert ns[0..] == ns;
    ChainTail(ns, 0);
    head := dummy.next;
    out := ns[1..];
  }

  /**
   * The merge loop: while both chains have nodes, the head with the smaller
   * key (the left one on a tie) is linked after the tail.  On exit one chain
   * is used up and the nodes taken so far are a prefix of the stable merge.
   */
  method MergeLoop<T>(a: Node?<T>, b: Node?<T>, key: T -> int, dummy: Node<T>, ghost an: seq<Node<T>>, ghost bn: seq<Node<T>>)
    returns (x: Node?<T>, y: Node?<T>, tail: Node<T>, ghost i: nat, ghost j: nat, ghost built: seq<Node<T>>)
    requires Chain(a, an) && Chain(b, bn) && Distinct(an + bn) && dummy !in an + bn
    modifies set n | n in an + bn + [dummy]
    ensures x == null || y == null
    ensures i <= |an| && j <= |bn| && x == At(an, i) && y == At(bn, j)
    ensures Chain(x, an[i..]) && Chain(y, bn[j..])
    ensures built + Merge(an[i..], bn[j..], NodeKey(key)) == Merge(an, bn, NodeKey(key))
    ensures Path([dummy] + built) && tail == ([dummy] + built)[|built|]
    ensures tail == dummy || tail in an + bn
  {
    tail := dummy;
    x, y := a, b;
    i, j := 0, 0;
    built := [];
    assert an[0..] == an && bn[0..] == bn;
    while x != null && y != null
      invariant i <= |an| && j <= |bn| && x == At(an, i) && y == At(bn, j)
      invariant Chain(x, an[i..]) && Chain(y, bn[j..])
      invariant built + Merge(an[i..], bn[j..], NodeKey(key)) == Merge(an, bn, NodeKey(key))
      invariant Path([dummy] + built) && tail == ([dummy] + built)[|built|]
      invariant tail == dummy || tail in an + bn
      decreases |an| + |bn| - i - j
    {
      x, y, tail, i, j, built := MergeStep(x, y, tail, key, an, bn, i, j, built, dummy);
    }
  }

  /**
   * Merges two chains by relinking: a dummy node starts the result, the merge
   * loop links nodes after it until one chain runs out, and the other one is
   * then linked as a whole.
   */
  method MergeByKey<T(0)>(a: Node?<T>, b: Node?<T>, key: T -> int, ghost an: seq<Node<T>>, ghost bn: seq<Node<T>>)
    returns (head: Node?<T>, ghost out: seq<Node<T>>)
    requires Chain(a, an) && Chain(b, bn) && Distinct(an + bn)
    modifies set n | n in an + bn
    ensures out == Merge(an, bn, NodeKey(key)) && Chain(head, out)
  {
    var blank: T := *;
    var dummy := new Node(blank);
    var x, y, tail, i, j, built := MergeLoop(a, b, key, dummy, an, bn);
    head, out := MergeFinish(x, y, tail, key, an, bn, i, j, built, dummy);
  }

  /** The two halves of a chain share no node, and sorting them keeps their nodes. */
  lemma HalvesApart<T>(ns: seq<Node<T>>, mid: nat, lo: seq<Node<T>>, ro: seq<Node<T>>)
    requires Distinct(ns) && mid <= |ns|
    requires multiset(lo) == multiset(ns[..mid]) && multiset(ro) == multiset(ns[mid..])
    ensures Distinct(lo + ro)
    ensures forall n | n in ns[mid..] :: n !in lo
    ensures forall n | n in lo + ro :: n in ns
  {
    assert ns == ns[..mid] + ns[mid..];
    assert multiset(lo + ro) == multiset(ns);
    DistinctPermutation(lo + ro, ns);
    forall n | n in ns[mid..] ensures n !in lo {
      DistinctCount(ns, n);
      assert n in multiset(ns[mid..]);
    }
    forall n | n in lo + ro ensures n in ns {
      assert n in multiset(lo + ro);
    }
  }

  /**
   * Top-down merge sort by relinking: a chain of two or more nodes is split
   * at the middle, both halves are sorted, and the sorted halves are merged.
   */
  method MergeSortNodes<T(0)>(head: Node?<T>, key: T -> int, ghost ns: seq<Node<T>>)
    returns (r: Node?<T>, ghost out: seq<Node<T>>)
    requires Chain(head, ns)
    modifies set n | n in ns
    ensures out == MergeSort(ns, NodeKey(key), true) && Chain(r, out)
    decreases |ns|
  {
    if head == null || head.next == null {
      if ns != [] {
        assert Chain(head.next, ns[1..]);
        assert ns[1..] == [];
      }
      return head, ns;
    }
    ChainShape(head, ns);
    ghost var mid := SplitPoint(|ns|, true);
    var left, right, ln, rn := SplitMiddle(head, ns);
    var l, lo := MergeSortNodes(left, key, ln);
    HalvesApart(ns, mid, lo, rn);
    var rr, ro := MergeSortNodes(right, key, rn);
    HalvesApart(ns, mid, lo, ro);
    r, out := MergeByKey(l, rr, key, lo, ro);
  }

  /** The nodes already sorted are nodes of the input, none of them still to come. */
  lemma PrefixApart<T>(ns: seq<T>, i: nat, sorted: seq<T>)
    requires Distinct(ns) && i <= |ns| && multiset(sorted) == multiset(ns[..i])
    ensures forall n | n in sorted :: n in ns && n !in ns[i..]
  {
    assert ns == ns[..i] + ns[i..];
    forall n | n in sorted ensures n in ns && n !in ns[i..] {
      assert n in multiset(ns[..i]);
      DistinctCount(ns, n);
    }
  }

  /**
   * The inner loop of insertion sort: walks the sorted chain from the dummy
   * node past every node whose key is at most that of `cur`.
   */
  method FindInsertPoint<T>(dummy: Node<T>, cur: Node<T>, key: T -> int, ghost sorted: seq<Node<T>>)
    returns (prev: Node<T>, it: Node?<T>, ghost p: nat)
    requires Chain(dummy, [dummy] + sorted)
    ensures p <= |sorted| && prev == ([dummy] + sorted)[p] && it == At(sorted, p)
    ensures forall q | 0 <= q < p :: key(sorted[q].value) <= key(cur.value)
    ensures p < |sorted| ==> key(cur.value) < key(sorted[p].value)
  {
    ghost var list := [dummy] + sorted;
    ChainShape(dummy, list);
    prev, it := dummy, dummy.next;
    p := 0;
    while it != null && key(it.value) <= key(cur.value)
      invariant p <= |sorted| && prev == list[p] && it == At(sorted, p)
      invariant forall q | 0 <= q < p :: key(sorted[q].value) <= key(cur.value)
      decreases |sorted| - p
    {
      prev, it := it, it.next;
      p := p + 1;
    }
  }

  /** Inserting the next input node at the point found keeps the chain the insertion sort of the prefix. */
  lemma InsertionSortStep<T>(ns: seq<T>, i: nat, sorted: seq<T>, p: nat, key: T -> int)
    requires i < |ns| && sorted == InsertionSort(ns[..i], key) && p <= |sorted|
    requires forall q | 0 <= q < p :: key(sorted[q]) <= key(ns[i])
    requires p < |sorted| ==> key(ns[i]) < key(sorted[p])
    ensures sorted[..p] + [ns[i]] + sorted[p..] == InsertionSort(ns[..i + 1], key)
  {
    InsertAt(sorted, ns[i], key, p);
    InsertionSortSnoc(ns, i, key);
  }

  /** The sorted chain cut at the insertion point. */
  lemma SplitSorted<T>(dummy: Node<T>, sorted: seq<Node<T>>, p: nat)
    requires Chain(dummy, [dummy] + sorted) && p <= |sorted|
    ensures Path([dummy] + sorted[..p]) && Chain(At(sorted, p), sorted[p..])
    ensures forall n | n in [dummy] + sorted[..p] :: n !in sorted[p..]
  {
    var list := [dummy] + sorted;
    ChainSplit(dummy, list, p + 1);
    assert list[..p + 1] == [dummy] + sorted[..p] && list[p + 1..] == sorted[p..];
  }

  lemma Regroup<T>(x: T, a: seq<T>, y: T, b: seq<T>)
    ensures ([x] + a) + ([y] + b) == [x] + (a + [y] + b)
  {
  }

  /**
   * One round of insertion sort: finds the insertion point in the sorted
   * chain behind `dummy`, then links `cur` to the node after it and the node
   * before it to `cur`.  A chain elsewhere in the heap is untouched.
   */
  method InsertNode<T>(dummy: Node<T>, cur: Node<T>, key: T -> int, ghost sorted: seq<Node<T>>,
                       ghost oh: Node?<T>, ghost other: seq<Node<T>>)
    returns (ghost sorted': seq<Node<T>>, ghost p: nat)
    requires Chain(dummy, [dummy] + sorted) && cur != dummy && cur !in sorted
    requires Chain(oh, other) && cur !in other && dummy !in other
    requires forall n | n in sorted :: n !in other
    modifies (set n | n in sorted) + {dummy, cur}
    ensures p <= |sorted| && sorted' == sorted[..p] + [cur] + sorted[p..]
    ensures forall q | 0 <= q < p :: key(sorted[q].value) <= key(cur.value)
    ensures p < |sorted| ==> key(cur.value) < key(sorted[p].value)
    ensures Chain(dummy, [dummy] + sorted') && Chain(oh, other)
  {
    var prev, it;
    prev, it, p := FindInsertPoint(dummy, cur, key, sorted);
    SplitSorted(dummy, sorted, p);
    ghost var front := [dummy] + sorted[..p];
    assert prev == front[|front| - 1] && prev in [dummy] + sorted;
    InPrefix(sorted, p);
    InSlice(sorted, p);
    SpliceIn(prev, cur, it, front, sorted[p..], oh, other);
    sorted' := sorted[..p] + [cur] + sorted[p..];
    Regroup(dummy, sorted[..p], cur, sorted[p..]);
  }

  /**
   * During insertion sort the node to insert, the dummy node and the sorted
   * nodes are all apart from the input nodes still to come.
   */
  lemma RestApart<T>(ns: seq<Node<T>>, i: nat, sorted: seq<Node<T>>, dummy: Node<T>)
    requires Distinct(ns) && i < |ns| && dummy !in ns
    requires multiset(sorted) == multiset(ns[..i])
    ensures ns[i] != dummy && ns[i] !in sorted && ns[i] !in ns[i + 1..] && dummy !in ns[i + 1..]
    ensures forall n | n in sorted :: n in ns && n !in ns[i + 1..]
  {
    PrefixApart(ns, i, sorted);
    assert ns[i + 1..] == ns[i..][1..];
    assert ns[i] in ns[i..];
    InSlice(ns, i + 1);
    InSlice(ns[i..], 1);
    var rest := ns[i + 1..];
    forall k | 0 <= k < |rest| ensures rest[k] != ns[i] {
      assert rest[k] == ns[i + 1 + k];
    }
  }

  /**
   * One round of insertion sort: the next input node is linked into the
   * sorted chain, which then holds the insertion sort of one more input node.
   */
  method InsertNext<T>(dummy: Node<T>, cur: Node<T>, key: T -> int,
                       ghost ns: seq<Node<T>>, ghost i: nat, ghost sorted: seq<Node<T>>)
    returns (nxt: Node?<T>, ghost sorted': seq<Node<T>>)
    requires i < |ns| && cur == ns[i] && Distinct(ns) && dummy !in ns
    requires sorted == InsertionSort(ns[..i], NodeKey(key))
    requires Chain(dummy, [dummy] + sorted) && Chain(cur, ns[i..])
    modifies (set n | n in ns) + {dummy}
    ensures nxt == At(ns, i + 1) && sorted' == InsertionSort(ns[..i + 1], NodeKey(key))
    ensures Chain(dummy, [dummy] + sorted') && Chain(nxt, ns[i + 1..])
  {
    ChainTail(ns, i);
    nxt := cur.next;
    assert nxt == At(ns, i + 1);
    RestApart(ns, i, sorted, dummy);
    ghost var p;
    sorted', p := InsertNode(dummy, cur, key, sorted, nxt, ns[i + 1..]);
    InsertionSortStep(ns, i, sorted, p, NodeKey(key));
  }

  /**
   * Insertion sort by relinking: the nodes are taken from the front of the
   * input one at a time and linked into a sorted chain behind a dummy node,
   * after every node whose key is not larger.
   */
  method InsertionSortNodes<T(0)>(head: Node?<T>, key: T -> int, ghost ns: seq<Node<T>>)
    returns (r: Node?<T>, ghost out: seq<Node<T>>)
    requires Chain(head, ns)
    modifies set n | n in ns
    ensures out == InsertionSort(ns, NodeKey(key)) && Chain(r, out)
  {
    ChainShape(head, ns);
    var blank: T := *;
    var dummy := new Node(blank);
    var cur := head;
    ghost var i := 0;
    ghost var sorted: seq<Node<T>> := [];
    assert ns[0..] == ns;
    while cur != null
      invariant i <= |ns| && cur == At(ns, i) && Distinct(ns) && dummy !in ns
      invariant sorted == InsertionSort(ns[..i], NodeKey(key))
      invariant Chain(dummy, [dummy] + sorted) && Chain(cur, ns[i..])
      decreases |ns| - i
    {
      cur, sorted := InsertNext(dummy, cur, key, ns, i, sorted);
      i := i + 1;
    }
    assert ns[..i] == ns;
    ChainTail([dummy] + sorted, 0);
    r, out := dummy.next, sorted;
  }

  /** The values of merged chains are the merge of their values, sorted when both inputs are. */
  lemma MergedValues<T>(an: seq<Node<T>>, bn: seq<Node<T>>, key: T -> int)
    ensures Values(Merge(an, bn, NodeKey(key))) == Merge(Values(an), Values(bn), key)
    ensures SortedBy(Values(an), key) && SortedBy(Values(bn), key) ==> SortedBy(Values(Merge(an, bn, NodeKey(key))), key)
  {
    ValuesMerge(an, bn, key);
    if SortedBy(Values(an), key) && SortedBy(Values(bn), key) {
      MergeSorted(Values(an), Values(bn), key);
    }
  }

  /**
   * The part of `ns` from the first occurrence of `x` on: the nodes a list
   * reaches when its head is `x` and `ns` is a chain.
   */
  function From<T>(ns: seq<Node<T>>, x: Node?<T>): seq<Node<T>>
    decreases |ns|
  {
    if ns == [] then []
    else if ns[0] == x then ns
    else From(ns[1..], x)
  }

  /** `From` is a suffix of `ns` that begins with `x`, and empty when `x` does not occur. */
  lemma {:induction false} FromSuffix<T>(ns: seq<Node<T>>, x: Node?<T>)
    ensures |From(ns, x)| <= |ns| && From(ns, x) == ns[|ns| - |From(ns, x)|..]
    ensures x in ns ==> From(ns, x) != [] && From(ns, x)[0] == x
    ensures x !in ns ==> From(ns, x) == []
    decreases |ns|
  {
    if ns != [] && ns[0] != x {
      FromSuffix(ns[1..], x);
      assert x in ns ==> x in ns[1..];
    }
  }

  /** Every node of a chain heads the rest of the chain from that node on. */
  lemma {:induction false} ChainFrom<T>(h: Node?<T>, ns: seq<Node<T>>, x: Node<T>)
    requires Chain(h, ns) && x in ns
    ensures Chain(x, From(ns, x))
    decreases |ns|
  {
    if ns[0] != x {
      ChainFrom(ns[0].next, ns[1..], x);
    }
  }

  /** The first node of either input heads a chain inside the merged chain. */
  lemma MergedTail<T>(h: Node?<T>, merged: seq<Node<T>>, an: seq<Node<T>>, bn: seq<Node<T>>, a: Node?<T>)
    requires Chain(h, merged) && multiset(merged) == multiset(an) + multiset(bn)
    requires a == (if an == [] then null else an[0])
    ensures Chain(a, From(merged, a))
  {
    if a != null {
      assert a in multiset(merged);
      ChainFrom(h, merged, a);
    } else {
      FromSuffix(merged, a);
    }
  }

  /** Walks from the head of a non-empty chain to the node whose link is null. */
  method LastNode<T>(head: Node<T>, ghost ns: seq<Node<T>>) returns (last: Node<T>)
    requires Chain(head, ns)
    ensures ns != [] && last == ns[|ns| - 1]
  {
    ChainLinks(head, ns);
    last := head;
    ghost var i := 0;
    while last.next != null
      invariant 0 <= i < |ns| && last == ns[i]
      decreases |ns| - i
    {
      assert last.next == At(ns, i + 1);
      last := last.next;
      i := i + 1;
    }
    assert last.next == At(ns, i + 1);
  }

  /** Turns every `next` pointer of a chain around; the last node becomes the head. */
  method ReverseNodes<T>(head: Node?<T>, ghost ns: seq<Node<T>>) returns (r: Node?<T>)
    requires Chain(head, ns)
    modifies set n | n in ns
    ensures Chain(r, Sequences.Reverse(ns))
  {
    ChainShape(head, ns);
    var prev: Node?<T> := null;
    var cur := head;
    ghost var i := 0;
    assert ns[..0] == [] && ns[0..] == ns;
    while cur != null
      invariant 0 <= i <= |ns| && cur == At(ns, i) && Distinct(ns)
      invariant Chain(prev, Sequences.Reverse(ns[..i]))
      invariant Chain(cur, ns[i..])
      decreases |ns| - i
    {
      ghost var done := Sequences.Reverse(ns[..i]);
      ReverseStep(ns, i);
      SplitAt(ns, i);
      ReverseMembers(ns[..i]);
      ChainTail(ns, i);
      var nx := cur.next;
      cur.next := prev;
      ChainCons(cur, prev, done);
      prev := cur;
      cur := nx;
      i := i + 1;
    }
    r := prev;
    assert ns[..i] == ns;
  }

  /**
   * Merges two chains by relinking their nodes and wraps the result in a
   * fresh list; the first node of either chain then heads the part of the
   * merged chain from that node on.
   */
  method MergeChains<T(0)>(a: Node?<T>, b: Node?<T>, key: T -> int, ghost an: seq<Node<T>>, ghost bn: seq<Node<T>>)
    returns (out: SinglyLinkedList<T>)
    requires Chain(a, an) && Chain(b, bn) && Distinct(an + bn)
    modifies set n | n in an + bn
    ensures fresh(out) && out.Valid() && out.nodes == Merge(an, bn, NodeKey(key))
    ensures Chain(a, From(out.nodes, a)) && Chain(b, From(out.nodes, b))
  {
    assert an != [] ==> a == an[0];
    assert bn != [] ==> b == bn[0];
    var h;
    ghost var merged;
    h, merged := MergeByKey(a, b, key, an, bn);
    out := new SinglyLinkedList([]);
    out.head, out.nodes := h, merged;
    MergedTail(h, merged, an, bn, a);
    MergedTail(h, merged, bn, an, b);
  }

  class SinglyLinkedList<T(0)> {
    var head: Node?<T>
    ghost var nodes: seq<Node<T>>

    ghost predicate Valid()
      reads this, nodes
    {
      Chain(head, nodes)
    }

    /** The values of the list from head to tail. */
    ghost function Contents(): seq<T>
      reads this
    {
      Values(nodes)
    }

    /** A list holding `items` in order, in fresh nodes. */
    constructor(items: seq<T>)
      ensures Valid() && Contents() == items
      ensures forall n | n in nodes :: fresh(n)
    {
      head := null;
      nodes := [];
      new;
      Extend(items);
    }

    /** Walks to the last node and links a fresh node holding `value` after it. */
    method Append(value: T)
      requires Valid()
      modifies this, set n | n in nodes
      ensures Valid() && Contents() == old(Contents()) + [value]
      ensures |nodes| == |old(nodes)| + 1 && nodes[..|old(nodes)|] == old(nodes) && fresh(nodes[|nodes| - 1])
    {
      var node := new Node(value);
      if head == null {
        head := node;
        nodes := [node];
        assert Values([node]) == [value];
        return;
      }
      ghost var before := nodes;
      var last := LastNode(head, before);
      ChainShape(head, before);
      last.next := node;
      ChainFromShape(head, before + [node]);
      nodes := before + [node];
      ValuesAppend(before, [node]);
    }

    /** Appends the items one by one, in order. */
    method Extend(items: seq<T>)
      requires Valid()
      modifies this, set n | n in nodes
      ensures Valid() && Contents() == old(Contents()) + items
      ensures forall n | n in nodes :: n in old(nodes) || fresh(n)
    {
      var k := 0;
      while k < |items|
        invariant k <= |items|
        invariant Valid() && Contents() == old(Contents()) + items[..k]
        invariant forall n | n in nodes :: n in old(nodes) || fresh(n)
      {
        Append(items[k]);
        assert items[..k + 1] == items[..k] + [items[k]];
        k := k + 1;
      }
      assert items[..k] == items;
    }

    /** The values from head to tail. */
    method ToList() returns (res: seq<T>)
      requires Valid()
      ensures res == Contents()
    {
      res := [];
      ChainShape(head, nodes);
      var cur := head;
      ghost var i := 0;
      while cur != null
        invariant 0 <= i <= |nodes| && cur == At(nodes, i)
        invariant res == Values(nodes[..i])
        decreases |nodes| - i
      {
        res := res + [cur.value];
        cur := cur.next;
        i := i + 1;
      }
      assert nodes[..i] == nodes;
    }

    /** Drops every node. */
    method Clear()
      modifies this
      ensures Valid() && Contents() == []
    {
      head := null;
      nodes := [];
    }

    /** Turns every `next` pointer around, so the list reads backwards. */
    method Reverse()
      requires Valid()
      modifies this, set n | n in nodes
      ensures Valid() && nodes == Sequences.Reverse(old(nodes))
      ensures Contents() == Sequences.Reverse(old(Contents()))
    {
      ghost var before := nodes;
      var h := ReverseNodes(head, before);
      head, nodes := h, Sequences.Reverse(before);
      ValuesReverse(before);
    }

    /** Sorts the list by `key` with merge sort, stably, by relinking its nodes. */
    method SortMerge(key: T -> int)
      requires Valid()
      modifies this, set n | n in nodes
      ensures Valid() && Contents() == MergeSort(old(Contents()), key, true)
    {
      ghost var before := nodes;
      var h;
      ghost var out;
      h, out := MergeSortNodes(head, key, before);
      ValuesMergeSort(before, key, true);
      assert Values(out) == MergeSort(Values(before), key, true);
      head, nodes := h, out;
      assert Contents() == Values(out);
    }

    /** Sorts the list by `key` with insertion sort, stably, by relinking its nodes. */
    method SortInsertion(key: T -> int)
      requires Valid()
      modifies this, set n | n in nodes
      ensures Valid() && Contents() == InsertionSort(old(Contents()), key)
    {
      ghost var before := nodes;
      var h;
      ghost var out;
      h, out := InsertionSortNodes(head, key, before);
      ValuesInsertionSort(before, key);
      assert Values(out) == InsertionSort(Values(before), key);
      head, nodes := h, out;
      assert Contents() == Values(out);
    }

    /**
     * A new list holding the stable merge of this list and `other`, built by
     * relinking the nodes of both; when both are sorted by `key` the result is too.
     * Both inputs keep their head node, so afterwards each reads as the part
     * of the merged chain that starts at its old first node.
     */
    method MergeSortedWith(other: SinglyLinkedList<T>, key: T -> int) returns (out: SinglyLinkedList<T>)
      requires Valid() && other.Valid() && Distinct(nodes + other.nodes)
      modifies this, other, set n | n in nodes + other.nodes
      ensures fresh(out) && out.Valid()
      ensures out.nodes == Merge(old(nodes), old(other.nodes), NodeKey(key))
      ensures out.Contents() == Merge(old(Contents()), old(other.Contents()), key)
      ensures SortedBy(old(Contents()), key) && SortedBy(old(other.Contents()), key) ==> SortedBy(out.Contents(), key)
      ensures head == old(head) && other.head == old(other.head)
      ensures Valid() && nodes == From(out.nodes, head)
      ensures other.Valid() && other.nodes == From(out.nodes, other.head)
    {
      ghost var an, bn := nodes, other.nodes;
      ghost var merged := Merge(an, bn, NodeKey(key));
      MergedValues(an, bn, key);
      nodes, other.nodes := From(merged, head), From(merged, other.head);
      out := MergeChains(head, other.head, key, an, bn);
    }
  }
}
