/**
 * A binary search tree of integers built by repeated insertion, and the
 * lookup of its smallest key by following left links.  Nodes are objects
 * whose child links are reassigned in place; each node carries, as ghost
 * state, the set of objects of its subtree and the value-level tree it
 * stands for, and the operations are proved against pure functions on
 * that value-level tree.
 */
module SearchTree {
  import opened Wrappers

  /** The shape and keys of a tree, as a value. */
  datatype Tree = Leaf | Branch(left: Tree, key: int, right: Tree)

  /** The keys stored in a tree. */
  function Keys(t: Tree): set<int> {
    match t
    case Leaf => {}
    case Branch(l, k, r) => Keys(l) + {k} + Keys(r)
  }

  /** Search-tree order: every key on the left is smaller and every key on the right larger than the key above. */
  ghost predicate Ordered(t: Tree) {
    match t
    case Leaf => true
    case Branch(l, k, r) =>
      Ordered(l) && Ordered(r) &&
      (forall x | x in Keys(l) :: x < k) && (forall x | x in Keys(r) :: k < x)
  }

  /**
   * Insertion: an empty tree becomes a single node; otherwise go left for a
   * smaller key, right for a larger one, and leave the tree as it is when
   * the key is already at the root.
   */
  function Inserted(t: Tree, key: int): (r: Tree)
    ensures r.Branch?
    ensures t.Branch? ==> r.key == t.key
  {
    match t
    case Leaf => Branch(Leaf, key, Leaf)
    case Branch(l, k, rt) =>
      if key < k then Branch(Inserted(l, key), k, rt)
      else if key > k then Branch(l, k, Inserted(rt, key))
      else t
  }

  /** The tree built by inserting `values` one after another into an empty tree. */
  function BuiltFrom(values: seq<int>): (r: Tree)
    ensures r == Leaf <==> values == []
  {
    if values == [] then Leaf
    else Inserted(BuiltFrom(values[..|values| - 1]), values[|values| - 1])
  }

  /** The key reached by following left links from the root; none for an empty tree. */
  function Leftmost(t: Tree): (m: Option<int>)
    ensures m.None? <==> t == Leaf
    ensures m.Some? ==> m.value in Keys(t)
  {
    match t
    case Leaf => None
    case Branch(l, k, _) => if l == Leaf then Some(k) else Leftmost(l)
  }

  /** A tree node: a fixed key and two child links that insertion reassigns. */
  class Node {
    const key: int
    var left: Node?
    var right: Node?
    /** The objects of this subtree. */
    ghost var Repr: set<object>
    /** The value-level tree this subtree stands for. */
    ghost var Content: Tree

    /** A node without children. */
    constructor (key: int)
      ensures Valid() && fresh(Repr)
      ensures Content == Branch(Leaf, key, Leaf)
    {
      this.key := key;
      left := null;
      right := null;
      Repr := {this};
      Content := Branch(Leaf, key, Leaf);
    }

    /** The links form a tree (no sharing, no cycles) whose shape and keys are `Content`. */
    ghost predicate Valid()
      reads this, Repr
      decreases Repr
    {
      this in Repr &&
      (left != null ==> left in Repr && left.Repr <= Repr && this !in left.Repr && left.Valid()) &&
      (right != null ==> right in Repr && right.Repr <= Repr && this !in right.Repr && right.Valid()) &&
      (left != null && right != null ==> left.Repr !! right.Repr) &&
      Content == Branch(ModelOf(left), key, ModelOf(right))
    }
  }

  /** The value-level tree a possibly missing node stands for. */
  ghost function ModelOf(n: Node?): Tree
    reads n
  {
    if n == null then Leaf else n.Content
  }

  /**
   * Recursive insertion: a missing subtree becomes a new node; otherwise the
   * child on the key's side is replaced by the result of inserting there.
   * The same root comes back when there was one.
   */
  method Insert(root: Node?, key: int) returns (r: Node)
    requires root != null ==> root.Valid()
    modifies if root == null then {} else root.Repr
    ensures r.Valid()
    ensures r.Content == Inserted(old(ModelOf(root)), key)
    ensures root == null ==> fresh(r.Repr)
    ensures root != null ==> r == root && fresh(r.Repr - old(root.Repr))
    decreases if root == null then {} else root.Repr
  {
    if root == null {
      r := new Node(key);
      return;
    }
    if key < root.key {
      var l := Insert(root.left, key);
      root.left := l;
      root.Repr := root.Repr + l.Repr;
      root.Content := Branch(l.Content, root.key, ModelOf(root.right));
    } else if key > root.key {
      var rt := Insert(root.right, key);
      root.right := rt;
      root.Repr := root.Repr + rt.Repr;
      root.Content := Branch(ModelOf(root.left), root.key, rt.Content);
    }
    r := root;
  }

  /** Follows left links from the root and returns the last key reached, or none for an empty tree. */
  method MinValue(root: Node?) returns (m: Option<int>)
    requires root != null ==> root.Valid()
    ensures m == Leftmost(ModelOf(root))
  {
    if root == null {
      return None;
    }
    var cur: Node := root;
    while cur.left != null
      invariant cur.Valid()
      invariant Leftmost(cur.Content) == Leftmost(root.Content)
      decreases cur.Repr
    {
      cur := cur.left;
    }
    return Some(cur.key);
  }

  /** Inserts the values one after another into an initially empty tree. */
  method Build(values: seq<int>) returns (root: Node?)
    ensures root != null ==> root.Valid() && fresh(root.Repr)
    ensures ModelOf(root) == BuiltFrom(values)
  {
    root := null;
    for i := 0 to |values|
      invariant root != null ==> root.Valid() && fresh(root.Repr)
      invariant ModelOf(root) == BuiltFrom(values[..i])
    {
      root := Insert(root, values[i]);
      assert values[..i + 1][..i] == values[..i];
    }
    assert values[..|values|] == values;
  }

  /** Insertion keeps search-tree order. */
  lemma {:induction false} InsertOrdered(t: Tree, key: int)
    requires Ordered(t)
    ensures Ordered(Inserted(t, key))
  {
    match t
    case Leaf =>
    case Branch(l, k, r) =>
      InsertKeys(l, key);
      InsertKeys(r, key);
      if key < k {
        InsertOrdered(l, key);
      } else if key > k {
        InsertOrdered(r, key);
      }
  }

  /** Insertion adds exactly the inserted key. */
  lemma {:induction false} InsertKeys(t: Tree, key: int)
    ensures Keys(Inserted(t, key)) == Keys(t) + {key}
  {
    match t
    case Leaf =>
    case Branch(l, k, r) =>
      if key < k {
        InsertKeys(l, key);
      } else if key > k {
        InsertKeys(r, key);
      }
  }

  /** Inserting a key that is already in an ordered tree leaves the tree unchanged. */
  lemma {:induction false} InsertPresent(t: Tree, key: int)
    requires Ordered(t) && key in Keys(t)
    ensures Inserted(t, key) == t
  {
    match t
    case Leaf =>
    case Branch(l, k, r) =>
      if key < k {
        assert key !in Keys(r);
        InsertPresent(l, key);
      } else if key > k {
        assert key !in Keys(l);
        InsertPresent(r, key);
      }
  }

  /** Building from a list gives an ordered tree holding exactly the list's values. */
  lemma {:induction false} BuiltKeys(values: seq<int>)
    ensures Ordered(BuiltFrom(values))
    ensures Keys(BuiltFrom(values)) == set v | v in values
  {
    if values != [] {
      var n := |values| - 1;
      var front := values[..n];
      BuiltKeys(front);
      InsertOrdered(BuiltFrom(front), values[n]);
      InsertKeys(BuiltFrom(front), values[n]);
      assert values == front + [values[n]];
    }
  }

  /** In an ordered tree the leftmost key is the smallest key. */
  lemma {:induction false} LeftmostIsLeast(t: Tree)
    requires Ordered(t) && t.Branch?
    ensures forall x | x in Keys(t) :: Leftmost(t).value <= x
  {
    var l := t.left;
    if l != Leaf {
      LeftmostIsLeast(l);
    }
  }

  /** The minimum found in a tree built from a non-empty list is the least value of the list. */
  lemma BuiltMinimum(values: seq<int>)
    requires values != []
    ensures var m := Leftmost(BuiltFrom(values));
      m.Some? && m.value in values && forall v | v in values :: m.value <= v
  {
    BuiltKeys(values);
    var t := BuiltFrom(values);
    LeftmostIsLeast(t);
    assert Leftmost(t).value in Keys(t);
    forall v | v in values
      ensures Leftmost(t).value <= v
    {
      assert v in Keys(t);
    }
  }

  /** The module's demonstration list has minimum 2. */
  lemma DemoMinimum()
    ensures Leftmost(BuiltFrom([5, 3, 7, 2, 4, 6, 8])) == Some(2)
  {
    var values := [5, 3, 7, 2, 4, 6, 8];
    BuiltMinimum(values);
    assert 2 in values;
  }
}
