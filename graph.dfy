/**
 * A weighted graph stored as an adjacency map: every vertex maps to the list
 * of its outgoing `(neighbour, weight)` pairs, in insertion order.  Weights
 * are natural numbers; the shortest-path algorithm is only meaningful for
 * non-negative weights.
 */
module WeightedGraph {

  type Adjacency<V> = map<V, seq<(V, nat)>>

  /** Every neighbour named in an adjacency list is itself a vertex. */
  ghost predicate Closed<V>(adj: Adjacency<V>) {
    forall u, e | u in adj && e in adj[u] :: e.0 in adj
  }

  /** The list of `x`, or the empty list when `x` is not a vertex yet. */
  function Neighbours<V>(adj: Adjacency<V>, x: V): seq<(V, nat)> {
    if x in adj then adj[x] else []
  }

  /** The three map updates of `AddEdge`, taken together. */
  lemma AddEdgeLists<V>(before: Adjacency<V>, u: V, v: V, w: nat, undirected: bool, after: Adjacency<V>)
    requires var a1 := before[u := Neighbours(before, u) + [(v, w)]];
             var a2 := if v !in a1 then a1[v := []] else a1;
             after == if undirected then a2[v := a2[v] + [(u, w)]] else a2
    ensures after.Keys == before.Keys + {u, v}
    ensures forall x | x in after ::
      after[x] == Neighbours(before, x)
                  + (if x == u then [(v, w)] else [])
                  + (if undirected && x == v then [(u, w)] else [])
    ensures Closed(before) ==> Closed(after)
  {
    forall x | x in after
      ensures after[x] == Neighbours(before, x)
                          + (if x == u then [(v, w)] else [])
                          + (if undirected && x == v then [(u, w)] else [])
    {
      if x == u && x == v && undirected {
        assert after[x] == (Neighbours(before, x) + [(v, w)]) + [(u, w)];
      }
    }
  }

  class Graph<V(==)> {
    var adj: Adjacency<V>

    /**
     * The vertex set, which is the key set of the adjacency map; in a closed
     * map it holds every neighbour named in a list.
     */
    function Vertices(): (vs: set<V>)
      reads this
      ensures Closed(adj) ==> forall x, e | x in adj && e in adj[x] :: x in vs && e.0 in vs
    {
      adj.Keys
    }

    constructor()
      ensures adj == map[] && Closed(adj)
    {
      adj := map[];
    }

    /**
     * Adds the edge `u -> v` of weight `w`, and `v -> u` as well when
     * `undirected`.  Both ends become vertices; existing lists are extended
     * at the end (duplicates are kept) and every other list is unchanged.
     */
    method AddEdge(u: V, v: V, w: nat, undirected: bool)
      modifies this
      ensures adj.Keys == old(adj.Keys) + {u, v}
      ensures forall x | x in adj ::
        adj[x] == Neighbours(old(adj), x)
                  + (if x == u then [(v, w)] else [])
                  + (if undirected && x == v then [(u, w)] else [])
      ensures old(Closed(adj)) ==> Closed(adj)
    {
      ghost var before := adj;
      var lu := if u in adj then adj[u] else [];
      adj := adj[u := lu + [(v, w)]];
      if v !in adj {
        adj := adj[v := []];
      }
      if undirected {
        adj := adj[v := adj[v] + [(u, w)]];
      }
      AddEdgeLists(before, u, v, w, undirected, adj);
    }
  }
}
