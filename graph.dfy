/** The immutable country-adjacency graph of src/graph.js: a vertex map from
    keys to values plus an undirected adjacency map from keys to key sets.
    Every operation returns a new graph; nothing is updated in place. */
module Graphs {
  import opened Common

  /** Vertex keys (country ids). */
  type Key = int

  type AdjacencyMap = map<Key, set<Key>>

  /** The set stored for `k`, or the empty set when `k` has no entry. */
  function SetOf(adj: AdjacencyMap, k: Key): set<Key>
  {
    if k in adj then adj[k] else {}
  }

  /** `j` is listed in `k`'s adjacency set. */
  predicate Linked(adj: AdjacencyMap, k: Key, j: Key)
  {
    j in SetOf(adj, k)
  }

  /** Undirected: whenever `k` lists `j`, `j` has an entry that lists `k`. */
  ghost predicate Symmetric(adj: AdjacencyMap)
  {
    forall k, j :: k in adj && j in adj[k] ==> j in adj && k in adj[j]
  }

  /** Connects `k` and `j` by updating both of their sets. */
  function AddEdgeTo(adj: AdjacencyMap, k: Key, j: Key): (r: AdjacencyMap)
    ensures r.Keys == adj.Keys + {k, j}
    ensures Linked(r, k, j) && Linked(r, j, k)
    ensures SetOf(r, k) == SetOf(adj, k) + {j} && SetOf(r, j) == SetOf(adj, j) + {k}
    ensures forall m :: m in adj && m != k && m != j ==> r[m] == adj[m]
    ensures Symmetric(adj) ==> Symmetric(r)
  {
    var kSet := SetOf(adj, k);
    var jSet := SetOf(adj, j);
    adj[k := kSet + {j}][j := jSet + {k}]
  }

  /** Disconnects `k` and `j` by updating both of their sets; a missing
      entry is created empty. */
  function RemoveEdgeFrom(adj: AdjacencyMap, k: Key, j: Key): (r: AdjacencyMap)
    ensures r.Keys == adj.Keys + {k, j}
    ensures !Linked(r, k, j) && !Linked(r, j, k)
    ensures SetOf(r, k) == SetOf(adj, k) - {j} && SetOf(r, j) == SetOf(adj, j) - {k}
    ensures forall m :: m in adj && m != k && m != j ==> r[m] == adj[m]
    ensures Symmetric(adj) ==> Symmetric(r)
  {
    var kSet := SetOf(adj, k);
    var jSet := SetOf(adj, j);
    adj[k := kSet - {j}][j := jSet - {k}]
  }

  /** `removeVertex` does not throw: every neighbour listed in `k`'s set has
      an entry of its own (it looks that entry up and deletes `k` from it). */
  predicate CanRemove(adj: AdjacencyMap, k: Key)
  {
    k in adj ==> adj[k] <= adj.Keys
  }

  /** On a symmetric map `removeVertex` never throws. */
  lemma SymmetricCanRemove(adj: AdjacencyMap, k: Key)
    requires Symmetric(adj)
    ensures CanRemove(adj, k)
  {
    if k in adj {
      forall j | j in adj[k] ensures j in adj.Keys {
      }
    }
  }

  /** The adjacency half of `removeVertex`: `k` is deleted from the set of
      every neighbour listed in `k`'s own set, then `k`'s entry is dropped.
      Each neighbour is written once, so the order of the fold is immaterial. */
  function RemoveVertexEdges(adj: AdjacencyMap, k: Key): (r: AdjacencyMap)
    requires CanRemove(adj, k)
    ensures r.Keys == adj.Keys - {k}
    ensures forall m :: m in r ==> r[m] == if m in SetOf(adj, k) then adj[m] - {k} else adj[m]
    ensures Symmetric(adj) ==> Symmetric(r) && forall m :: m in r ==> k !in r[m]
  {
    if k in adj then
      (map m | m in adj && m != k :: if m in adj[k] then adj[m] - {k} else adj[m])
    else
      adj
  }

  /** Left fold of `RemoveVertex` over `ks`, as `filter` reduces over the
      keys it drops. */
  function RemoveAll<V>(vm: map<Key, V>, adj: AdjacencyMap, ks: seq<Key>): (r: (map<Key, V>, AdjacencyMap))
    requires Symmetric(adj)
    ensures Symmetric(r.1)
    decreases |ks|
  {
    if ks == [] then (vm, adj)
    else
      SymmetricCanRemove(adj, ks[0]);
      RemoveAll(vm - {ks[0]}, RemoveVertexEdges(adj, ks[0]), ks[1..])
  }

  /** The entries of `adj` outside `dropped`, each without the keys in `dropped`. */
  function Without(adj: AdjacencyMap, dropped: set<Key>): (r: AdjacencyMap)
    ensures r.Keys == adj.Keys - dropped
    ensures Symmetric(adj) ==> Symmetric(r)
  {
    map m | m in adj && m !in dropped :: adj[m] - dropped
  }

  /** One `removeVertex` step, seen through `Without`. */
  lemma RemoveOneWithout(adj: AdjacencyMap, d: Key, rest: set<Key>)
    requires Symmetric(adj)
    ensures CanRemove(adj, d)
    ensures Without(RemoveVertexEdges(adj, d), rest) == Without(adj, rest + {d})
  {
    SymmetricCanRemove(adj, d);
    var adj' := RemoveVertexEdges(adj, d);
    var got := Without(adj', rest);
    var want := Without(adj, rest + {d});
    forall m | m in got ensures got[m] == want[m] {
      assert d in adj[m] ==> m in SetOf(adj, d);
    }
  }

  /** Removing the keys `ks` one at a time from a symmetric map, in any
      order, leaves exactly the other entries, each without the removed keys. */
  lemma {:induction false} RemoveAllClosedForm<V>(vm: map<Key, V>, adj: AdjacencyMap, ks: seq<Key>)
    requires Symmetric(adj)
    ensures RemoveAll(vm, adj, ks).0 == vm - set k | k in ks
    ensures RemoveAll(vm, adj, ks).1 == Without(adj, set k | k in ks)
  {
    if ks == [] {
      assert (set k | k in ks) == {};
      forall m | m in adj ensures Without(adj, {})[m] == adj[m] {
      }
      assert Without(adj, {}) == adj;
    } else {
      var d := ks[0];
      RemoveOneWithout(adj, d, set k | k in ks[1..]);
      var vm', adj' := vm - {d}, RemoveVertexEdges(adj, d);
      assert RemoveAll(vm, adj, ks) == RemoveAll(vm', adj', ks[1..]);
      RemoveAllClosedForm(vm', adj', ks[1..]);
      assert (set k | k in ks) == (set k | k in ks[1..]) + {d};
    }
  }

  /** `Immutable.Map(values.map(v => [v.id, v]))`: every value is stored
      under its id, and of several values with one id the last one wins. */
  function ById<V>(values: seq<V>, id: V -> Key): (r: map<Key, V>)
    ensures forall i :: 0 <= i < |values| ==> id(values[i]) in r
    ensures forall k :: k in r ==> id(r[k]) == k && r[k] in values
    ensures forall i :: 0 <= i < |values| && (forall j :: i < j < |values| ==> id(values[j]) != id(values[i])) ==>
              r[id(values[i])] == values[i]
    decreases |values|
  {
    if values == [] then map[]
    else
      var last := values[|values| - 1];
      var init := values[..|values| - 1];
      var m := ById(init, id);
      assert forall i :: 0 <= i < |init| ==> init[i] == values[i];
      m[id(last) := last]
  }

  /** The keys an edge list mentions at either end. */
  function Endpoints(edges: seq<(Key, Key)>): (r: set<Key>)
    ensures forall k: Key, j: Key :: (k, j) in edges ==> k in r && j in r
    ensures forall x :: x in r ==> exists e :: e in edges && (x == e.0 || x == e.1)
    decreases |edges|
  {
    if edges == [] then {}
    else
      var init := edges[..|edges| - 1];
      assert edges == init + [edges[|edges| - 1]];
      Endpoints(init) + {edges[|edges| - 1].0, edges[|edges| - 1].1}
  }

  /** `edges.reduce(addEdge, Immutable.Map())`. */
  function FromEdges(edges: seq<(Key, Key)>): (r: AdjacencyMap)
    ensures Symmetric(r)
    ensures forall k :: k in r ==> r[k] != {}
    ensures forall k: Key, j: Key :: Linked(r, k, j) <==> (k, j) in edges || (j, k) in edges
    decreases |edges|
  {
    if edges == [] then map[]
    else
      var (k, j) := edges[|edges| - 1];
      var init := edges[..|edges| - 1];
      assert edges == init + [(k, j)];
      AddEdgeTo(FromEdges(init), k, j)
  }

  datatype Graph<V> = Graph(vertexMap: map<Key, V>, adjacencyMap: AdjacencyMap)
  {
    /** The graph invariant: undirected, and no edge mentions a missing vertex. */
    ghost predicate Valid()
    {
      Symmetric(adjacencyMap) && adjacencyMap.Keys <= vertexMap.Keys
    }

    /** `get(k)`. */
    function Get(k: Key): (r: Option<V>)
      ensures r.Some? <==> k in vertexMap
      ensures r.Some? ==> r.value == vertexMap[k]
    {
      if k in vertexMap then Some(vertexMap[k]) else None
    }

    /** `merge(as)`: upsert the values by id; the adjacency map is untouched. */
    function Merge(values: seq<V>, id: V -> Key): (r: Graph<V>)
      ensures r.adjacencyMap == adjacencyMap
      ensures forall k :: k in r.vertexMap <==> k in vertexMap || exists i :: 0 <= i < |values| && id(values[i]) == k
      ensures forall k :: k in vertexMap && (forall i :: 0 <= i < |values| ==> id(values[i]) != k) ==>
                r.vertexMap[k] == vertexMap[k]
      ensures forall i :: 0 <= i < |values| && (forall j :: i < j < |values| ==> id(values[j]) != id(values[i])) ==>
                r.vertexMap[id(values[i])] == values[i]
      ensures Valid() ==> r.Valid()
    {
      this.(vertexMap := vertexMap + ById(values, id))
    }

    /** `update(k, f)`: `f` receives the current value (`None` if absent). */
    function Update(k: Key, f: Option<V> -> V): (r: Graph<V>)
      ensures r.adjacencyMap == adjacencyMap
      ensures r.vertexMap.Keys == vertexMap.Keys + {k}
      ensures r.vertexMap[k] == f(Get(k))
      ensures forall m :: m in vertexMap && m != k ==> r.vertexMap[m] == vertexMap[m]
      ensures Valid() ==> r.Valid()
    {
      this.(vertexMap := vertexMap[k := f(Get(k))])
    }

    /** `addVertex(k, v)`. */
    function AddVertex(k: Key, v: V): (r: Graph<V>)
      ensures r.adjacencyMap == adjacencyMap
      ensures r.vertexMap.Keys == vertexMap.Keys + {k} && r.vertexMap[k] == v
      ensures forall m :: m in vertexMap && m != k ==> r.vertexMap[m] == vertexMap[m]
      ensures Valid() ==> r.Valid()
    {
      this.(vertexMap := vertexMap[k := v])
    }

    /** `edges()`: every ordered pair `(k, j)` with `j` in `k`'s set. */
    function Edges(): (r: set<(Key, Key)>)
      ensures forall k: Key, j: Key :: (k, j) in r <==> Linked(adjacencyMap, k, j)
      ensures Symmetric(adjacencyMap) ==> forall k, j :: (k, j) in r ==> (j, k) in r
    {
      set k, j | k in adjacencyMap && j in adjacencyMap[k] :: (k, j)
    }

    /** `addEdge(k, j)`. */
    function AddEdge(k: Key, j: Key): (r: Graph<V>)
      ensures r.vertexMap == vertexMap
      ensures r.adjacencyMap.Keys == adjacencyMap.Keys + {k, j}
      ensures r.Adjacent(k, j) && r.Adjacent(j, k)
      ensures forall m :: m in adjacencyMap && m != k && m != j ==> r.adjacencyMap[m] == adjacencyMap[m]
      ensures r.adjacencyMap == AddEdgeTo(adjacencyMap, k, j)
      ensures r.AdjacentVertices(k) == AdjacentVertices(k) + {j} && r.AdjacentVertices(j) == AdjacentVertices(j) + {k}
      ensures Symmetric(adjacencyMap) ==> Symmetric(r.adjacencyMap)
      ensures Valid() && k in vertexMap && j in vertexMap ==> r.Valid()
    {
      this.(adjacencyMap := AddEdgeTo(adjacencyMap, k, j))
    }

    /** `removeEdge(k, j)`. */
    function RemoveEdge(k: Key, j: Key): (r: Graph<V>)
      ensures r.vertexMap == vertexMap
      ensures r.adjacencyMap.Keys == adjacencyMap.Keys + {k, j}
      ensures !r.Adjacent(k, j) && !r.Adjacent(j, k)
      ensures forall m :: m in adjacencyMap && m != k && m != j ==> r.adjacencyMap[m] == adjacencyMap[m]
      ensures r.adjacencyMap == RemoveEdgeFrom(adjacencyMap, k, j)
      ensures r.AdjacentVertices(k) == AdjacentVertices(k) - {j} && r.AdjacentVertices(j) == AdjacentVertices(j) - {k}
      ensures Symmetric(adjacencyMap) ==> Symmetric(r.adjacencyMap)
      ensures Valid() && k in vertexMap && j in vertexMap ==> r.Valid()
    {
      this.(adjacencyMap := RemoveEdgeFrom(adjacencyMap, k, j))
    }

    /** `removeVertex(k)`. */
    function RemoveVertex(k: Key): (r: Graph<V>)
      requires CanRemove(adjacencyMap, k)
      ensures r.vertexMap == vertexMap - {k}
      ensures r.adjacencyMap == RemoveVertexEdges(adjacencyMap, k)
      ensures r.adjacencyMap.Keys == adjacencyMap.Keys - {k}
      ensures Valid() ==> r.Valid() && forall m :: m in r.adjacencyMap ==> k !in r.adjacencyMap[m]
    {
      Graph(vertexMap - {k}, RemoveVertexEdges(adjacencyMap, k))
    }

    /** `adjacent(k, j)`. */
    predicate Adjacent(k: Key, j: Key)
    {
      Linked(adjacencyMap, k, j)
    }

    /** `adjacentVertices(k)`, as a set (its array order is the set's). */
    function AdjacentVertices(k: Key): (r: set<Key>)
      ensures forall j :: j in r <==> Adjacent(k, j)
    {
      SetOf(adjacencyMap, k)
    }

    /** `filter(p)`: the subgraph induced by the vertices satisfying `p`. */
    function Filter(p: (V, Key) -> bool): (r: Graph<V>)
      requires Symmetric(adjacencyMap)
      ensures forall k :: k in r.vertexMap <==> k in vertexMap && p(vertexMap[k], k)
      ensures forall k :: k in r.vertexMap ==> r.vertexMap[k] == vertexMap[k]
      ensures forall k :: k in r.adjacencyMap ==> k in adjacencyMap && (k in vertexMap ==> p(vertexMap[k], k))
      ensures forall k, j :: r.Adjacent(k, j) ==> Adjacent(k, j) && (k in vertexMap ==> p(vertexMap[k], k))
      ensures forall k, j :: k in r.vertexMap && j in r.vertexMap && Adjacent(k, j) ==> r.Adjacent(k, j)
      ensures Valid() ==> r.Valid() && forall k, j :: r.Adjacent(k, j) ==> j in r.vertexMap
    {
      var dropped := set k | k in vertexMap && !p(vertexMap[k], k);
      Graph(map k | k in vertexMap && p(vertexMap[k], k) :: vertexMap[k], Without(adjacencyMap, dropped))
    }
  }

  /** The `Graph(values, edges)` constructor. */
  function New<V>(values: seq<V>, edges: seq<(Key, Key)>, id: V -> Key): (r: Graph<V>)
    ensures r.vertexMap == ById(values, id)
    ensures Symmetric(r.adjacencyMap)
    ensures forall k: Key, j: Key :: r.Adjacent(k, j) <==> (k, j) in edges || (j, k) in edges
  {
    Graph(ById(values, id), FromEdges(edges))
  }

  /** A graph built from edges between listed values holds the graph invariant. */
  lemma NewIsValid<V>(values: seq<V>, edges: seq<(Key, Key)>, id: V -> Key)
    requires forall k: Key, j: Key :: (k, j) in edges ==> k in ById(values, id) && j in ById(values, id)
    ensures New(values, edges, id).Valid()
  {
    FromEdgesKeys(edges);
    forall k | k in FromEdges(edges) ensures k in ById(values, id) {
      var e :| e in edges && (k == e.0 || k == e.1);
      assert (e.0, e.1) in edges;
    }
  }

  /** The adjacency map built from an edge list has exactly its endpoints as keys. */
  lemma {:induction false} FromEdgesKeys(edges: seq<(Key, Key)>)
    ensures FromEdges(edges).Keys == Endpoints(edges)
    decreases |edges|
  {
    if edges != [] {
      FromEdgesKeys(edges[..|edges| - 1]);
    }
  }

  /** `filter` folds `removeVertex` over the keys failing `p` in the vertex
      map's iteration order; whatever that order, the result is `Filter(p)`. */
  lemma FilterIsFold<V>(g: Graph<V>, p: (V, Key) -> bool, dropped: seq<Key>)
    requires Symmetric(g.adjacencyMap)
    requires forall k :: k in dropped <==> k in g.vertexMap && !p(g.vertexMap[k], k)
    ensures RemoveAll(g.vertexMap, g.adjacencyMap, dropped) == (g.Filter(p).vertexMap, g.Filter(p).adjacencyMap)
  {
    RemoveAllClosedForm(g.vertexMap, g.adjacencyMap, dropped);
    var ds := set k | k in dropped;
    var fs := set k | k in g.vertexMap && !p(g.vertexMap[k], k);
    forall k ensures k in ds <==> k in fs {
      assert k in ds <==> k in dropped;
    }
    assert ds == fs;
    assert g.vertexMap - ds == map k | k in g.vertexMap && p(g.vertexMap[k], k) :: g.vertexMap[k];
  }

  /** Rebuilding the adjacency map from `edges()` in any order gives back the
      original map, less the entries left empty by `removeEdge`. */
  lemma EdgesRoundTrip<V>(g: Graph<V>, edges: seq<(Key, Key)>)
    requires Symmetric(g.adjacencyMap)
    requires forall e :: e in edges <==> e in g.Edges()
    ensures FromEdges(edges) == map k | k in g.adjacencyMap && g.adjacencyMap[k] != {} :: g.adjacencyMap[k]
  {
    forall k: Key, j: Key ensures (k, j) in edges <==> Linked(g.adjacencyMap, k, j) {
      assert (k, j) in edges <==> (k, j) in g.Edges();
    }
    RebuildAdjacency(g.adjacencyMap, edges);
  }

  lemma RebuildAdjacency(adj: AdjacencyMap, edges: seq<(Key, Key)>)
    requires Symmetric(adj)
    requires forall k: Key, j: Key :: (k, j) in edges <==> Linked(adj, k, j)
    ensures FromEdges(edges) == map k | k in adj && adj[k] != {} :: adj[k]
  {
    var r := FromEdges(edges);
    var want := map k | k in adj && adj[k] != {} :: adj[k];
    forall k ensures SetOf(r, k) == SetOf(adj, k) {
      forall j ensures j in SetOf(r, k) <==> j in SetOf(adj, k) {
        assert Linked(r, k, j) <==> (k, j) in edges || (j, k) in edges;
      }
    }
    forall k ensures k in r <==> k in want {
      if k in r {
        assert r[k] == SetOf(r, k) == SetOf(adj, k);
      }
      if k in want {
        assert SetOf(r, k) == adj[k];
      }
    }
    forall k | k in r ensures r[k] == want[k] {
      assert r[k] == SetOf(r, k) && want[k] == SetOf(adj, k);
    }
    assert r == want;
  }
}
