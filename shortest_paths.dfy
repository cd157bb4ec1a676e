/**
 * Single-source shortest paths over a `Graph`: Dijkstra's algorithm with a
 * push-only heap and lazy deletion, and the reconstruction of a path from the
 * parent links it returns.
 *
 * Distances are `Some(d)` for a finite distance and `None` for infinity.  The
 * heap is a multiset of `(distance, vertex)` entries; a pop takes any entry of
 * least distance.  Entries whose distance is no longer the vertex's current
 * distance are stale and are skipped when popped.
 */
module ShortestPaths {
  import opened Wrappers
  import opened WeightedGraph
  import opened MultisetMin
  import opened Sequences

  type Dist<V> = map<V, Option<nat>>
  type Parents<V> = map<V, Option<V>>
  type Entry<V> = (nat, V)

  /** The heap orders entries by their distance. */
  function EntryKey<V>(e: Entry<V>): int { e.0 }

  /** Reading the adjacency list of a source that is not a vertex fails. */
  datatype Error = SourceNotInGraph

  datatype Paths<V> = Paths(dist: Dist<V>, parent: Parents<V>)

  // ---------------------------------------------------------------------
  // What the algorithm guarantees

  /** Edge `e` out of a vertex at distance `d` cannot improve its target. */
  ghost predicate Relaxed<V>(dist: Dist<V>, d: nat, e: (V, nat)) {
    e.0 in dist && dist[e.0].Some? && dist[e.0].value <= d + e.1
  }

  /** Triangle inequality: no edge out of a reached vertex can shorten a distance. */
  ghost predicate Triangle<V>(adj: Adjacency<V>, dist: Dist<V>) {
    forall u, e | u in adj && e in adj[u] && u in dist && dist[u].Some? :: Relaxed(dist, dist[u].value, e)
  }

  /** `p` is a reached vertex with an edge to the reached vertex `v` whose weight is the difference of their distances. */
  ghost predicate Linked<V>(adj: Adjacency<V>, dist: Dist<V>, p: V, v: V) {
    p in adj && p in dist && v in dist && dist[p].Some? && dist[v].Some?
    && dist[p].value <= dist[v].value
    && (v, dist[v].value - dist[p].value) in adj[p]
  }

  /** Every parent link is a tight edge of the graph. */
  ghost predicate ParentsLinked<V>(adj: Adjacency<V>, dist: Dist<V>, parent: Parents<V>) {
    forall v | v in parent && parent[v].Some? :: Linked(adj, dist, parent[v].value, v)
  }

  /** A vertex other than the source without a parent was never reached. */
  ghost predicate RootsUnreached<V>(source: V, dist: Dist<V>, parent: Parents<V>) {
    forall v | v in parent && parent[v].None? && v != source :: v in dist && dist[v].None?
  }

  /** A ranking under which every parent comes strictly before its child, so parent chains end. */
  ghost predicate Ranked<V>(parent: Parents<V>, rank: map<V, nat>) {
    forall v | v in parent ::
      v in rank && (parent[v].Some? ==> parent[v].value in rank && rank[parent[v].value] < rank[v])
  }

  // ---------------------------------------------------------------------
  // Loop invariant of `Dijkstra`, in named parts

  ghost predicate Shape<V>(adj: Adjacency<V>, source: V, dist: Dist<V>, parent: Parents<V>) {
    dist.Keys == adj.Keys && parent.Keys == adj.Keys && source in adj
    && dist[source] == Some(0) && parent[source] == None
  }

  /** Every heap entry is at least the current distance of its vertex. */
  ghost predicate HeapSound<V>(dist: Dist<V>, heap: multiset<Entry<V>>) {
    forall e | e in heap :: e.1 in dist && dist[e.1].Some? && dist[e.1].value <= e.0
  }

  /** Finished vertices are reached and no farther than `bound`. */
  ghost predicate DoneWithin<V>(dist: Dist<V>, done: set<V>, bound: nat) {
    forall x | x in done :: x in dist && dist[x].Some? && dist[x].value <= bound
  }

  /** Finished vertices are no farther than any heap entry. */
  ghost predicate DoneBelowHeap<V>(dist: Dist<V>, done: set<V>, heap: multiset<Entry<V>>) {
    forall e | e in heap :: DoneWithin(dist, done, e.0)
  }

  /** The first `k` edges out of `x` are relaxed. */
  ghost predicate SettledUpTo<V>(adj: Adjacency<V>, dist: Dist<V>, x: V, k: nat)
    requires x in adj && x in dist && dist[x].Some? && k <= |adj[x]|
  {
    forall j | 0 <= j < k :: Relaxed(dist, dist[x].value, adj[x][j])
  }

  /** `x` is reached and all its edges are relaxed. */
  ghost predicate Settled<V>(adj: Adjacency<V>, dist: Dist<V>, x: V) {
    x in adj && x in dist && dist[x].Some? && SettledUpTo(adj, dist, x, |adj[x]|)
  }

  /** Every finished vertex other than `u` has all its edges relaxed. */
  ghost predicate DoneSettled<V>(adj: Adjacency<V>, dist: Dist<V>, done: set<V>, u: Option<V>) {
    forall x | x in done && Some(x) != u :: Settled(adj, dist, x)
  }

  /**
   * Lazy deletion bookkeeping: a reached vertex has exactly one heap entry at
   * its current distance while it is unfinished, and none once finished.
   */
  ghost predicate Current<V>(dist: Dist<V>, done: set<V>, heap: multiset<Entry<V>>) {
    forall x | x in dist && dist[x].Some? :: heap[(dist[x].value, x)] == if x in done then 0 else 1
  }

  /** Ranks of the finished vertices, in the order they were finished. */
  ghost predicate Ranks<V>(done: set<V>, rank: map<V, nat>) {
    rank.Keys == done && forall x | x in done :: rank[x] < |done|
  }

  /** Parents are finished, and finished before their finished children. */
  ghost predicate ParentsDone<V>(parent: Parents<V>, done: set<V>, rank: map<V, nat>)
    requires rank.Keys == done
  {
    forall v | v in parent && parent[v].Some? ::
      parent[v].value in done && (v in done ==> rank[parent[v].value] < rank[v])
  }

  /** What holds of the search state between steps; `u` is the vertex whose edges are being relaxed, if any. */
  ghost predicate Common<V>(adj: Adjacency<V>, source: V, dist: Dist<V>, parent: Parents<V>,
                            heap: multiset<Entry<V>>, done: set<V>, rank: map<V, nat>, u: Option<V>) {
    Closed(adj) && Shape(adj, source, dist, parent) && HeapSound(dist, heap)
    && DoneBelowHeap(dist, done, heap) && DoneSettled(adj, dist, done, u)
    && Current(dist, done, heap) && ParentsLinked(adj, dist, parent)
    && Ranks(done, rank) && ParentsDone(parent, done, rank) && RootsUnreached(source, dist, parent)
  }

  /** The invariant of the outer loop. */
  ghost predicate Inv<V>(adj: Adjacency<V>, source: V, dist: Dist<V>, parent: Parents<V>,
                         heap: multiset<Entry<V>>, done: set<V>, rank: map<V, nat>) {
    Common(adj, source, dist, parent, heap, done, rank, None)
  }

  /** The invariant of the relaxation loop over the edges of `u`, popped at distance `d`, after `k` edges. */
  ghost predicate InnerInv<V>(adj: Adjacency<V>, source: V, dist: Dist<V>, parent: Parents<V>,
                              heap: multiset<Entry<V>>, done: set<V>, rank: map<V, nat>, u: V, d: nat, k: nat) {
    Common(adj, source, dist, parent, heap, done, rank, Some(u))
    && u in done && u in adj && dist[u] == Some(d) && DoneWithin(dist, done, d)
    && k <= |adj[u]| && SettledUpTo(adj, dist, u, k)
  }

  // ---------------------------------------------------------------------
  // The algorithm

  /**
   * Dijkstra's algorithm from `source`.  Fails when `source` is not a vertex.
   * Otherwise both maps have exactly the vertices as keys, the source is at
   * distance 0 without a parent, no edge out of a reached vertex can shorten
   * a distance, every parent link is an edge whose weight is the difference of
   * the two distances, unreached vertices other than the source have no
   * parent, and parent chains are well founded (the ghost `rank`).
   */
  method Dijkstra<V(==)>(g: Graph<V>, source: V) returns (r: Result<Paths<V>, Error>, ghost rank: map<V, nat>)
    requires Closed(g.adj)
    ensures r.Err? <==> source !in g.adj
    ensures r.Ok? ==>
      var dist, parent := r.value.dist, r.value.parent;
      Shape(g.adj, source, dist, parent)
      && Triangle(g.adj, dist) && ParentsLinked(g.adj, dist, parent)
      && RootsUnreached(source, dist, parent) && Ranked(parent, rank)
  {
    var adj := g.adj;
    rank := map[];
    if source !in adj {
      return Err(SourceNotInGraph), rank;
    }
    var dist: Dist<V> := map v | v in adj.Keys :: None;
    var parent: Parents<V> := map v | v in adj.Keys :: None;
    dist := dist[source := Some(0)];
    var heap: multiset<Entry<V>> := multiset{(0, source)};
    ghost var done: set<V> := {};
    InitInv(adj, source, dist, parent, heap);
    while heap != multiset{}
      invariant Inv(adj, source, dist, parent, heap, done, rank)
      decreases |adj.Keys - done|, |heap|
    {
      MinExists(heap, EntryKey);
      var e :| IsMinBy(heap, EntryKey, e);
      PoppedIsVertex(adj, source, dist, parent, heap, done, rank, e);
      var du, u := e.0, e.1;
      if dist[u] != Some(du) {
        StalePop(adj, source, dist, parent, heap, done, rank, e);
        heap := heap - multiset{e};
      } else {
        FreshPop(adj, source, dist, parent, heap, done, rank, e);
        FewerUnfinished(adj.Keys, done, u);
        heap := heap - multiset{e};
        rank := rank[u := |done|];
        done := done + {u};
        dist, parent, heap := RelaxEdges(adj, source, dist, parent, heap, done, rank, u, du);
      }
    }
    rank := FinalRank(adj, source, dist, parent, done, rank);
    return Ok(Paths(dist, parent)), rank;
  }

  /**
   * The inner loop of `Dijkstra`: relaxes every edge out of `u`, just popped
   * at distance `d`, in list order.  An edge improves its target only when it
   * gives a strictly smaller distance; then the target's distance and parent
   * change and a new heap entry is pushed.
   */
  method RelaxEdges<V(==)>(adj: Adjacency<V>, source: V, dist0: Dist<V>, parent0: Parents<V>,
                           heap0: multiset<Entry<V>>, ghost done: set<V>, ghost rank: map<V, nat>, u: V, d: nat)
    returns (dist: Dist<V>, parent: Parents<V>, heap: multiset<Entry<V>>)
    requires InnerInv(adj, source, dist0, parent0, heap0, done, rank, u, d, 0)
    ensures Inv(adj, source, dist, parent, heap, done, rank)
  {
    dist, parent, heap := dist0, parent0, heap0;
    var nbrs := adj[u];
    var k := 0;
    while k < |nbrs|
      invariant nbrs == adj[u]
      invariant InnerInv(adj, source, dist, parent, heap, done, rank, u, d, k)
    {
      var (v, w) := nbrs[k];
      EdgeTarget(adj, source, dist, parent, heap, done, rank, u, d, k);
      var cand := dist[u].value + w;
      if dist[v].None? || cand < dist[v].value {
        RelaxImprove(adj, source, dist, parent, heap, done, rank, u, d, k, v, w, cand);
        dist := dist[v := Some(cand)];
        parent := parent[v := Some(u)];
        heap := heap + multiset{(cand, v)};
      } else {
        RelaxSkip(adj, source, dist, parent, heap, done, rank, u, d, k, v, w, cand);
      }
      k := k + 1;
    }
    FinishVertex(adj, source, dist, parent, heap, done, rank, u, d);
  }

  // ---------------------------------------------------------------------
  // One lemma per step of the loops

  lemma InitInv<V>(adj: Adjacency<V>, source: V, dist: Dist<V>, parent: Parents<V>, heap: multiset<Entry<V>>)
    requires Closed(adj) && source in adj
    requires dist == (map v | v in adj.Keys :: None)[source := Some(0)]
    requires parent == map v | v in adj.Keys :: None
    requires heap == multiset{(0, source)}
    ensures Inv(adj, source, dist, parent, heap, {}, map[])
  {
    forall x | x in dist && dist[x].Some?
      ensures heap[(dist[x].value, x)] == 1
    {
      assert x == source;
    }
  }

  lemma PoppedIsVertex<V>(adj: Adjacency<V>, source: V, dist: Dist<V>, parent: Parents<V>,
                          heap: multiset<Entry<V>>, done: set<V>, rank: map<V, nat>, e: Entry<V>)
    requires Inv(adj, source, dist, parent, heap, done, rank) && IsMinBy(heap, EntryKey, e)
    ensures e.1 in dist && e.1 in adj
  {
  }

  lemma FewerUnfinished<V>(keys: set<V>, done: set<V>, u: V)
    requires u in keys && u !in done
    ensures |keys - (done + {u})| < |keys - done|
  {
    assert keys - (done + {u}) == (keys - done) - {u};
  }

  /** Popping a stale entry changes nothing but the heap. */
  lemma StalePop<V>(adj: Adjacency<V>, source: V, dist: Dist<V>, parent: Parents<V>,
                    heap: multiset<Entry<V>>, done: set<V>, rank: map<V, nat>, e: Entry<V>)
    requires Inv(adj, source, dist, parent, heap, done, rank)
    requires IsMinBy(heap, EntryKey, e) && e.1 in dist && dist[e.1] != Some(e.0)
    ensures Inv(adj, source, dist, parent, heap - multiset{e}, done, rank)
  {
    StaleCurrent(dist, done, heap, e);
    HeapSoundSub(dist, heap, e);
    BelowHeapSub(dist, done, heap, e);
  }

  lemma StaleCurrent<V>(dist: Dist<V>, done: set<V>, heap: multiset<Entry<V>>, e: Entry<V>)
    requires Current(dist, done, heap) && e.1 in dist && dist[e.1] != Some(e.0)
    ensures Current(dist, done, heap - multiset{e})
  {
    forall x | x in dist && dist[x].Some?
      ensures (heap - multiset{e})[(dist[x].value, x)] == heap[(dist[x].value, x)]
    {
      assert (dist[x].value, x) != e;
    }
  }

  lemma HeapSoundSub<V>(dist: Dist<V>, heap: multiset<Entry<V>>, e: Entry<V>)
    requires HeapSound(dist, heap)
    ensures HeapSound(dist, heap - multiset{e})
  {
    forall e' | e' in heap - multiset{e} ensures e' in heap {}
  }

  lemma BelowHeapSub<V>(dist: Dist<V>, done: set<V>, heap: multiset<Entry<V>>, e: Entry<V>)
    requires DoneBelowHeap(dist, done, heap)
    ensures DoneBelowHeap(dist, done, heap - multiset{e})
  {
    forall e' | e' in heap - multiset{e} ensures e' in heap {}
  }

  /** Popping the current entry of `u`: it was unfinished and becomes finished with the next rank. */
  lemma FreshPop<V>(adj: Adjacency<V>, source: V, dist: Dist<V>, parent: Parents<V>,
                    heap: multiset<Entry<V>>, done: set<V>, rank: map<V, nat>, e: Entry<V>)
    requires Inv(adj, source, dist, parent, heap, done, rank)
    requires IsMinBy(heap, EntryKey, e) && e.1 in dist && dist[e.1] == Some(e.0)
    ensures e.1 !in done && e.1 in adj
    ensures InnerInv(adj, source, dist, parent, heap - multiset{e}, done + {e.1},
                     rank[e.1 := |done|], e.1, e.0, 0)
  {
    var u := e.1;
    FreshUnfinished(dist, done, heap, e);
    FreshCurrent(dist, done, heap, e);
    FreshBelow(dist, done, heap, e);
    HeapSoundSub(dist, heap, e);
    FreshRanks(parent, done, rank, u);
    FreshSettled(adj, dist, done, u);
  }

  lemma FreshUnfinished<V>(dist: Dist<V>, done: set<V>, heap: multiset<Entry<V>>, e: Entry<V>)
    requires Current(dist, done, heap) && e in heap && e.1 in dist && dist[e.1] == Some(e.0)
    ensures e.1 !in done
  {
    assert heap[(dist[e.1].value, e.1)] >= 1;
  }

  lemma FreshCurrent<V>(dist: Dist<V>, done: set<V>, heap: multiset<Entry<V>>, e: Entry<V>)
    requires Current(dist, done, heap) && e in heap && e.1 in dist && dist[e.1] == Some(e.0) && e.1 !in done
    ensures Current(dist, done + {e.1}, heap - multiset{e})
  {
    forall x | x in dist && dist[x].Some?
      ensures (heap - multiset{e})[(dist[x].value, x)] == if x in done + {e.1} then 0 else 1
    {
      if x != e.1 {
        assert (dist[x].value, x) != e;
      }
    }
  }

  lemma FreshBelow<V>(dist: Dist<V>, done: set<V>, heap: multiset<Entry<V>>, e: Entry<V>)
    requires DoneBelowHeap(dist, done, heap) && IsMinBy(heap, EntryKey, e)
    requires e.1 in dist && dist[e.1] == Some(e.0)
    ensures DoneBelowHeap(dist, done + {e.1}, heap - multiset{e})
    ensures DoneWithin(dist, done + {e.1}, e.0)
  {
    forall e' | e' in heap - multiset{e}
      ensures DoneWithin(dist, done + {e.1}, e'.0)
    {
      assert e' in heap;
      assert EntryKey(e) <= EntryKey(e');
    }
  }

  lemma FreshRanks<V>(parent: Parents<V>, done: set<V>, rank: map<V, nat>, u: V)
    requires Ranks(done, rank) && ParentsDone(parent, done, rank) && u !in done
    ensures Ranks(done + {u}, rank[u := |done|]) && ParentsDone(parent, done + {u}, rank[u := |done|])
  {
    var done', rank' := done + {u}, rank[u := |done|];
    assert |done'| == |done| + 1;
    forall v | v in parent && parent[v].Some?
      ensures parent[v].value in done' && (v in done' ==> rank'[parent[v].value] < rank'[v])
    {
      assert parent[v].value in done;
    }
  }

  lemma FreshSettled<V>(adj: Adjacency<V>, dist: Dist<V>, done: set<V>, u: V)
    requires DoneSettled(adj, dist, done, None)
    ensures DoneSettled(adj, dist, done + {u}, Some(u))
  {
  }

  lemma EdgeTarget<V>(adj: Adjacency<V>, source: V, dist: Dist<V>, parent: Parents<V>,
                      heap: multiset<Entry<V>>, done: set<V>, rank: map<V, nat>, u: V, d: nat, k: nat)
    requires InnerInv(adj, source, dist, parent, heap, done, rank, u, d, k) && k < |adj[u]|
    ensures adj[u][k].0 in dist && dist[u] == Some(d)
  {
    assert adj[u][k] in adj[u];
  }

  /** An edge that shortens the distance of its target updates distance, parent and heap together. */
  lemma RelaxImprove<V>(adj: Adjacency<V>, source: V, dist: Dist<V>, parent: Parents<V>,
                        heap: multiset<Entry<V>>, done: set<V>, rank: map<V, nat>, u: V, d: nat, k: nat,
                        v: V, w: nat, cand: nat)
    requires InnerInv(adj, source, dist, parent, heap, done, rank, u, d, k) && k < |adj[u]|
    requires adj[u][k] == (v, w) && dist[u].Some? && cand == dist[u].value + w
    requires v in dist && (dist[v].None? || cand < dist[v].value)
    ensures InnerInv(adj, source, dist[v := Some(cand)], parent[v := Some(u)],
                     heap + multiset{(cand, v)}, done, rank, u, d, k + 1)
  {
    RelaxTarget(dist, done, source, u, d, v, cand);
    RelaxShape(adj, source, dist, parent, u, v, cand);
    RelaxHeap(dist, heap, v, cand);
    RelaxBelow(dist, done, heap, v, d, cand);
    RelaxCurrent(dist, done, heap, v, cand);
    RelaxSettled(adj, dist, done, u, k, v, cand);
    RelaxLinks(adj, dist, parent, done, rank, u, k, v, cand);
  }

  /** The improved vertex is neither finished nor the source. */
  lemma RelaxTarget<V>(dist: Dist<V>, done: set<V>, source: V, u: V, d: nat, v: V, cand: nat)
    requires DoneWithin(dist, done, d) && source in dist && dist[source] == Some(0)
    requires u in dist && dist[u] == Some(d) && d <= cand
    requires v in dist && (dist[v].None? || cand < dist[v].value)
    ensures v !in done && v != source
  {
  }

  lemma RelaxShape<V>(adj: Adjacency<V>, source: V, dist: Dist<V>, parent: Parents<V>, u: V, v: V, cand: nat)
    requires Shape(adj, source, dist, parent) && RootsUnreached(source, dist, parent) && v != source && v in dist
    ensures Shape(adj, source, dist[v := Some(cand)], parent[v := Some(u)])
    ensures RootsUnreached(source, dist[v := Some(cand)], parent[v := Some(u)])
  {
  }

  lemma RelaxHeap<V>(dist: Dist<V>, heap: multiset<Entry<V>>, v: V, cand: nat)
    requires HeapSound(dist, heap) && v in dist && (dist[v].None? || cand < dist[v].value)
    ensures heap[(cand, v)] == 0
    ensures HeapSound(dist[v := Some(cand)], heap + multiset{(cand, v)})
  {
    if (cand, v) in heap {
      assert false;
    }
  }

  lemma RelaxBelow<V>(dist: Dist<V>, done: set<V>, heap: multiset<Entry<V>>, v: V, d: nat, cand: nat)
    requires DoneBelowHeap(dist, done, heap) && DoneWithin(dist, done, d) && d <= cand && v !in done
    ensures DoneBelowHeap(dist[v := Some(cand)], done, heap + multiset{(cand, v)})
    ensures DoneWithin(dist[v := Some(cand)], done, d)
  {
    forall e | e in heap + multiset{(cand, v)}
      ensures DoneWithin(dist[v := Some(cand)], done, e.0)
    {
      if e != (cand, v) {
        assert DoneWithin(dist, done, e.0);
      }
    }
  }

  lemma RelaxCurrent<V>(dist: Dist<V>, done: set<V>, heap: multiset<Entry<V>>, v: V, cand: nat)
    requires Current(dist, done, heap) && heap[(cand, v)] == 0 && v !in done
    ensures Current(dist[v := Some(cand)], done, heap + multiset{(cand, v)})
  {
    var dist' := dist[v := Some(cand)];
    forall x | x in dist' && dist'[x].Some?
      ensures (heap + multiset{(cand, v)})[(dist'[x].value, x)] == if x in done then 0 else 1
    {
      if x != v {
        assert (dist'[x].value, x) != (cand, v);
      }
    }
  }

  lemma RelaxSettled<V>(adj: Adjacency<V>, dist: Dist<V>, done: set<V>, u: V, k: nat, v: V, cand: nat)
    requires DoneSettled(adj, dist, done, Some(u)) && v !in done && u in done
    requires u in adj && k < |adj[u]| && adj[u][k].0 == v && u in dist && dist[u].Some?
    requires SettledUpTo(adj, dist, u, k) && cand == dist[u].value + adj[u][k].1
    requires v in dist && (dist[v].None? || cand < dist[v].value)
    ensures DoneSettled(adj, dist[v := Some(cand)], done, Some(u))
    ensures SettledUpTo(adj, dist[v := Some(cand)], u, k + 1)
  {
    var dist' := dist[v := Some(cand)];
    forall x | x in done && Some(x) != Some(u)
      ensures Settled(adj, dist', x)
    {
      forall j | 0 <= j < |adj[x]|
        ensures Relaxed(dist', dist'[x].value, adj[x][j])
      {
        assert Relaxed(dist, dist[x].value, adj[x][j]);
      }
    }
    forall j | 0 <= j < k + 1
      ensures Relaxed(dist', dist'[u].value, adj[u][j])
    {
      if j < k {
        assert Relaxed(dist, dist[u].value, adj[u][j]);
      }
    }
  }

  lemma RelaxLinks<V>(adj: Adjacency<V>, dist: Dist<V>, parent: Parents<V>, done: set<V>, rank: map<V, nat>,
                      u: V, k: nat, v: V, cand: nat)
    requires ParentsLinked(adj, dist, parent) && rank.Keys == done && ParentsDone(parent, done, rank)
    requires u in done && v !in done && u in adj && k < |adj[u]| && adj[u][k].0 == v
    requires u in dist && dist[u].Some? && cand == dist[u].value + adj[u][k].1 && v in dist
    ensures ParentsLinked(adj, dist[v := Some(cand)], parent[v := Some(u)])
    ensures ParentsDone(parent[v := Some(u)], done, rank)
  {
    var dist', parent' := dist[v := Some(cand)], parent[v := Some(u)];
    forall x | x in parent' && parent'[x].Some?
      ensures Linked(adj, dist', parent'[x].value, x)
    {
      if x == v {
        assert adj[u][k] in adj[u];
      } else {
        assert Linked(adj, dist, parent[x].value, x);
      }
    }
  }

  /** An edge that does not shorten the distance of its target is already relaxed. */
  lemma RelaxSkip<V>(adj: Adjacency<V>, source: V, dist: Dist<V>, parent: Parents<V>,
                     heap: multiset<Entry<V>>, done: set<V>, rank: map<V, nat>, u: V, d: nat, k: nat,
                     v: V, w: nat, cand: nat)
    requires InnerInv(adj, source, dist, parent, heap, done, rank, u, d, k) && k < |adj[u]|
    requires adj[u][k] == (v, w) && dist[u].Some? && cand == dist[u].value + w
    requires v in dist && !(dist[v].None? || cand < dist[v].value)
    ensures InnerInv(adj, source, dist, parent, heap, done, rank, u, d, k + 1)
  {
  }

  /** With all edges of `u` relaxed, the outer invariant holds again. */
  lemma FinishVertex<V>(adj: Adjacency<V>, source: V, dist: Dist<V>, parent: Parents<V>,
                        heap: multiset<Entry<V>>, done: set<V>, rank: map<V, nat>, u: V, d: nat)
    requires u in adj && InnerInv(adj, source, dist, parent, heap, done, rank, u, d, |adj[u]|)
    ensures Inv(adj, source, dist, parent, heap, done, rank)
  {
    assert Settled(adj, dist, u);
  }

  /** With the heap empty, every reached vertex is finished, which gives the postcondition of `Dijkstra`. */
  lemma FinalRank<V>(adj: Adjacency<V>, source: V, dist: Dist<V>, parent: Parents<V>,
                     done: set<V>, rank: map<V, nat>) returns (rank': map<V, nat>)
    requires Inv(adj, source, dist, parent, multiset{}, done, rank)
    ensures Shape(adj, source, dist, parent) && Triangle(adj, dist) && ParentsLinked(adj, dist, parent)
    ensures RootsUnreached(source, dist, parent) && Ranked(parent, rank')
  {
    assert forall x | x in dist && dist[x].Some? :: x in done;
    forall u, e | u in adj && e in adj[u] && u in dist && dist[u].Some?
      ensures Relaxed(dist, dist[u].value, e)
    {
      var j :| 0 <= j < |adj[u]| && adj[u][j] == e;
      assert Settled(adj, dist, u);
    }
    rank' := map x | x in adj.Keys :: if x in done then rank[x] else |done|;
    forall v | v in parent
      ensures v in rank' && (parent[v].Some? ==> parent[v].value in rank' && rank'[parent[v].value] < rank'[v])
    {
      if parent[v].Some? {
        assert Linked(adj, dist, parent[v].value, v);
      }
    }
  }

  // ---------------------------------------------------------------------
  // Walks and path reconstruction

  /** The sum of a list of weights. */
  function Sum(ws: seq<nat>): (total: nat)
    ensures ws == [] ==> total == 0
  {
    if ws == [] then 0 else Sum(ws[..|ws| - 1]) + ws[|ws| - 1]
  }

  /** `vs` is a walk in the graph whose `i`-th step uses an edge of weight `ws[i]`. */
  ghost predicate IsWalk<V>(adj: Adjacency<V>, vs: seq<V>, ws: seq<nat>) {
    |vs| == |ws| + 1
    && forall i | 0 <= i < |ws| :: vs[i] in adj && (vs[i + 1], ws[i]) in adj[vs[i]]
  }

  /** `path` follows parent links back from `target` to a vertex without a parent. */
  ghost predicate ParentChain<V>(parent: Parents<V>, path: seq<V>, target: V) {
    path != [] && path[|path| - 1] == target
    && (forall i | 0 <= i < |path| :: path[i] in parent)
    && parent[path[0]] == None
    && forall i | 0 < i < |path| :: parent[path[i]] == Some(path[i - 1])
  }

  /** The last link of a parent chain longer than one vertex is the target's parent. */
  lemma ChainLastLink<V>(parent: Parents<V>, path: seq<V>, target: V)
    requires ParentChain(parent, path, target)
    ensures |path| == 1 ==> path == [target]
    ensures |path| > 1 ==> parent[target] == Some(path[|path| - 2])
  {
  }

  /** Every parent is itself a key of the parent map. */
  ghost predicate ParentsClosed<V>(parent: Parents<V>) {
    forall v | v in parent && parent[v].Some? :: parent[v].value in parent
  }

  /**
   * Follows parent links from `target` until a vertex without a parent,
   * collecting the vertices, and returns them from that vertex to `target`.
   * Looking up a vertex that is not a key fails (`None`); that cannot happen
   * for a target that is a key of a closed parent map.  The ghost `rank`
   * shows that the chain ends.
   */
  method ReconstructPath<V(==)>(parent: Parents<V>, target: V, ghost rank: map<V, nat>) returns (r: Option<seq<V>>)
    requires Ranked(parent, rank)
    ensures r.Some? ==> ParentChain(parent, r.value, target)
    ensures target !in parent ==> r.None?
    ensures target in parent && ParentsClosed(parent) ==> r.Some?
  {
    var path: seq<V> := [];
    var cur: Option<V> := Some(target);
    while cur.Some?
      invariant path == [] ==> cur == Some(target)
      invariant path != [] ==> path[0] == target && path[|path| - 1] in parent && cur == parent[path[|path| - 1]]
      invariant forall i | 0 <= i < |path| :: path[i] in parent
      invariant forall i | 0 < i < |path| :: parent[path[i - 1]] == Some(path[i])
      invariant target in parent && ParentsClosed(parent) ==> cur.None? || cur.value in parent
      decreases if cur.Some? && cur.value in rank then rank[cur.value] + 1 else 0
    {
      if cur.value !in parent {
        return None;
      }
      path := path + [cur.value];
      cur := parent[cur.value];
    }
    return Some(Reverse(path));
  }

  /** Along a walk from the source, the triangle inequality bounds the distance of the end by the walk's cost. */
  lemma {:induction false} WalkLowerBound<V>(adj: Adjacency<V>, source: V, dist: Dist<V>, vs: seq<V>, ws: seq<nat>)
    requires dist.Keys == adj.Keys && source in dist && dist[source] == Some(0) && Triangle(adj, dist)
    requires IsWalk(adj, vs, ws) && vs[0] == source
    ensures vs[|vs| - 1] in dist && dist[vs[|vs| - 1]].Some? && dist[vs[|vs| - 1]].value <= Sum(ws)
    decreases |ws|
  {
    if ws != [] {
      var n := |ws|;
      assert IsWalk(adj, vs[..n], ws[..n - 1]);
      WalkLowerBound(adj, source, dist, vs[..n], ws[..n - 1]);
      assert vs[..n][n - 1] == vs[n - 1];
      assert Relaxed(dist, dist[vs[n - 1]].value, (vs[n], ws[n - 1]));
    }
  }

  /**
   * A chain of parent links ending at a reached target starts at the source,
   * and is a walk whose weights add up to the target's distance.
   */
  lemma {:induction false} ChainCost<V>(adj: Adjacency<V>, source: V, dist: Dist<V>, parent: Parents<V>,
                                        path: seq<V>, target: V) returns (ws: seq<nat>)
    requires Shape(adj, source, dist, parent) && ParentsLinked(adj, dist, parent) && RootsUnreached(source, dist, parent)
    requires ParentChain(parent, path, target) && dist[target].Some?
    ensures path[0] == source && IsWalk(adj, path, ws) && Sum(ws) == dist[target].value
    decreases |path|
  {
    var n := |path|;
    if n == 1 {
      ws := [];
    } else {
      var p := path[n - 2];
      assert parent[target] == Some(p);
      assert Linked(adj, dist, p, target);
      var prefix := path[..n - 1];
      assert ParentChain(parent, prefix, p);
      var ws' := ChainCost(adj, source, dist, parent, prefix, p);
      ws := ws' + [dist[target].value - dist[p].value];
      assert ws[..|ws| - 1] == ws';
      forall i | 0 <= i < |ws|
        ensures path[i] in adj && (path[i + 1], ws[i]) in adj[path[i]]
      {
        if i < |ws| - 1 {
          assert prefix[i] == path[i] && prefix[i + 1] == path[i + 1];
        }
      }
    }
  }

  /**
   * For a result of `Dijkstra` and a reached target, the reconstructed path is
   * a shortest walk: it starts at the source, ends at the target, costs
   * exactly the target's distance, and no walk from the source costs less.
   */
  lemma PathIsShortest<V>(adj: Adjacency<V>, source: V, dist: Dist<V>, parent: Parents<V>, path: seq<V>, target: V)
    returns (ws: seq<nat>)
    requires Shape(adj, source, dist, parent) && Triangle(adj, dist)
    requires ParentsLinked(adj, dist, parent) && RootsUnreached(source, dist, parent)
    requires ParentChain(parent, path, target) && dist[target].Some?
    ensures path[0] == source && path[|path| - 1] == target && IsWalk(adj, path, ws) && Sum(ws) == dist[target].value
    ensures forall vs, ws' | IsWalk(adj, vs, ws') && vs[0] == source && vs[|vs| - 1] == target :: Sum(ws) <= Sum(ws')
  {
    ws := ChainCost(adj, source, dist, parent, path, target);
    forall vs, ws' | IsWalk(adj, vs, ws') && vs[0] == source && vs[|vs| - 1] == target
      ensures Sum(ws) <= Sum(ws')
    {
      WalkLowerBound(adj, source, dist, vs, ws');
    }
  }

  /**
   * For a result of `Dijkstra`, a target at infinite distance has no walk
   * from the source, and its reconstructed path is the target alone.
   */
  lemma Unreachable<V>(adj: Adjacency<V>, source: V, dist: Dist<V>, parent: Parents<V>, path: seq<V>, target: V)
    requires Shape(adj, source, dist, parent) && Triangle(adj, dist) && ParentsLinked(adj, dist, parent)
    requires ParentChain(parent, path, target) && dist[target].None?
    ensures path == [target]
    ensures forall vs, ws | IsWalk(adj, vs, ws) && vs[0] == source :: vs[|vs| - 1] != target
  {
    assert target in parent && parent[target].None?;
    ChainLastLink(parent, path, target);
    forall vs, ws | IsWalk(adj, vs, ws) && vs[0] == source
      ensures vs[|vs| - 1] != target
    {
      WalkLowerBound(adj, source, dist, vs, ws);
    }
  }

  /** The parent map `Dijkstra` returns is closed, so reconstruction succeeds for every vertex. */
  lemma DijkstraParentsClosed<V>(adj: Adjacency<V>, source: V, dist: Dist<V>, parent: Parents<V>)
    requires Shape(adj, source, dist, parent) && ParentsLinked(adj, dist, parent)
    ensures ParentsClosed(parent)
  {
    forall v | v in parent && parent[v].Some?
      ensures parent[v].value in parent
    {
      assert Linked(adj, dist, parent[v].value, v);
    }
  }
}
