/** Reachability, breadth-first shortest paths and connected components over
    the adjacency map of a `Graph` (the `traverse`, `shortestPathBy` and
    `connectedComponents` helpers of `graph.js`). */
module GraphSearch {
  import opened Common
  import opened Graphs

  // ---------------------------------------------------------------------
  // Enumerating a set
  // ---------------------------------------------------------------------

  /** `m` is the least element of `s`. */
  predicate IsLeast(m: Key, s: set<Key>)
  {
    m in s && forall x :: x in s ==> m <= x
  }

  /** A nonempty set of keys has a least element. */
  lemma HasLeast(s: set<Key>)
    requires s != {}
    ensures exists m :: IsLeast(m, s)
    decreases s
  {
    if forall x :: x !in s {
      assert false;
    }
    var y :| y in s;
    var rest := s - {y};
    if rest == {} {
      forall x | x in s ensures x == y {
        assert x != y ==> x in rest;
      }
      assert IsLeast(y, s);
    } else {
      HasLeast(rest);
      var m :| IsLeast(m, rest);
      assert forall x :: x in s ==> x == y || x in rest;
      if y < m {
        assert IsLeast(y, s);
      } else {
        assert IsLeast(m, s);
      }
    }
  }

  /** The least key of a nonempty set: the element `first()` yields. */
  function Least(s: set<Key>): (m: Key)
    requires s != {}
    ensures m in s && forall x :: x in s ==> m <= x
  {
    HasLeast(s);
    var m :| IsLeast(m, s);
    m
  }

  /** The elements of `s`, each once, in the order an Immutable set is
      iterated (here ascending). */
  function Elements(s: set<Key>): (r: seq<Key>)
    ensures forall x :: x in r <==> x in s
    ensures |r| == |s|
    decreases s
  {
    if s == {} then [] else [Least(s)] + Elements(s - {Least(s)})
  }

  /** `Elements` lists no key twice. */
  lemma {:induction false} ElementsDistinct(s: set<Key>)
    ensures forall i, j :: 0 <= i < j < |Elements(s)| ==> Elements(s)[i] != Elements(s)[j]
    decreases s
  {
    if s != {} {
      var m := Least(s);
      var rest := Elements(s - {m});
      ElementsDistinct(s - {m});
      assert Elements(s) == [m] + rest;
      forall i, j | 0 <= i < j < |Elements(s)| ensures Elements(s)[i] != Elements(s)[j] {
        assert Elements(s)[j] == rest[j - 1];
        if i > 0 {
          assert Elements(s)[i] == rest[i - 1];
        } else {
          assert rest[j - 1] in s - {m};
        }
      }
    }
  }

  // ---------------------------------------------------------------------
  // Walks
  // ---------------------------------------------------------------------

  /** Every key the adjacency map mentions, as an entry or inside a set. */
  ghost function Mentioned(adj: AdjacencyMap): (r: set<Key>)
    ensures forall k :: k in adj ==> k in r && adj[k] <= r
  {
    var r := adj.Keys + (set k, j | k in adj && j in adj[k] :: j);
    forall k, j | k in adj && j in adj[k] ensures j in r {
      assert j in (set k, j | k in adj && j in adj[k] :: j);
    }
    r
  }

  /** Consecutive keys of `w` are adjacent. */
  ghost predicate IsWalk(adj: AdjacencyMap, w: seq<Key>)
  {
    forall i :: 0 <= i < |w| - 1 ==> Linked(adj, w[i], w[i + 1])
  }

  /** `w` is a walk that starts at `k`. */
  ghost predicate WalkFrom(adj: AdjacencyMap, w: seq<Key>, k: Key)
  {
    |w| > 0 && w[0] == k && IsWalk(adj, w)
  }

  /** Some walk leads from `k` to `x`. */
  ghost predicate Reachable(adj: AdjacencyMap, k: Key, x: Key)
  {
    exists w :: WalkFrom(adj, w, k) && w[|w| - 1] == x
  }

  /** A set that no edge leaves. */
  ghost predicate Closed(adj: AdjacencyMap, s: set<Key>)
  {
    forall x, y :: x in s && Linked(adj, x, y) ==> y in s
  }

  lemma WalkExtend(adj: AdjacencyMap, w: seq<Key>, k: Key, y: Key)
    requires WalkFrom(adj, w, k) && Linked(adj, w[|w| - 1], y)
    ensures WalkFrom(adj, w + [y], k)
  {
    var w' := w + [y];
    forall i | 0 <= i < |w'| - 1 ensures Linked(adj, w'[i], w'[i + 1]) {
      if i < |w| - 1 {
        assert w'[i] == w[i] && w'[i + 1] == w[i + 1];
      }
    }
  }

  lemma WalkPrefix(adj: AdjacencyMap, w: seq<Key>, k: Key, n: nat)
    requires WalkFrom(adj, w, k) && 0 < n <= |w|
    ensures WalkFrom(adj, w[..n], k)
  {
    var w' := w[..n];
    forall i | 0 <= i < |w'| - 1 ensures Linked(adj, w'[i], w'[i + 1]) {
      assert w'[i] == w[i] && w'[i + 1] == w[i + 1];
    }
  }

  /** A walk that starts inside a closed set never leaves it. */
  lemma {:induction false} WalkStaysIn(adj: AdjacencyMap, s: set<Key>, w: seq<Key>, k: Key)
    requires Closed(adj, s) && k in s && WalkFrom(adj, w, k)
    ensures forall i :: 0 <= i < |w| ==> w[i] in s
    decreases |w|
  {
    if |w| > 1 {
      WalkPrefix(adj, w, k, |w| - 1);
      WalkStaysIn(adj, s, w[..|w| - 1], k);
      assert w[|w| - 2] == w[..|w| - 1][|w| - 2];
      assert Linked(adj, w[|w| - 2], w[|w| - 1]);
      forall i | 0 <= i < |w| ensures w[i] in s {
        if i < |w| - 1 {
          assert w[i] == w[..|w| - 1][i];
        }
      }
    }
  }

  // ---------------------------------------------------------------------
  // traverse (graph.js, depth-first recursion folded over the neighbours)
  // ---------------------------------------------------------------------

  /** The `[visited, vertices]` accumulator of `traverse_`. */
  datatype Traversal = Traversal(visited: set<Key>, vertices: set<Key>)

  /** Everything visited was collected, and so was each visited key's neighbours. */
  ghost predicate Consistent(adj: AdjacencyMap, t: Traversal)
  {
    t.visited <= t.vertices && forall x :: x in t.visited ==> SetOf(adj, x) <= t.vertices
  }

  /** `traverse_(acc, k)`: mark `k` visited, collect its neighbours, then fold
      over the neighbours that were not yet visited. `u` bounds the keys that
      can ever be visited and `anc` holds the keys on the current call chain;
      both are there only to show the recursion ends. */
  function Visit(adj: AdjacencyMap, ghost u: set<Key>, t: Traversal, ghost anc: set<Key>, k: Key): (r: Traversal)
    requires Mentioned(adj) <= u && k in u && anc <= t.visited && k !in anc
    ensures t.visited + {k} <= r.visited && t.vertices + SetOf(adj, k) <= r.vertices
    ensures Consistent(adj, t) && k in t.vertices ==>
              Consistent(adj, r) &&
              forall x :: x in r.vertices && x !in r.visited ==> x in t.vertices && x !in t.visited && x != k
    decreases u - anc, 0
  {
    var visited := t.visited + {k};
    var vertices := t.vertices + SetOf(adj, k);
    var ks := Elements(SetOf(adj, k) - visited);
    assert forall j :: j in ks ==> j in SetOf(adj, k) && j !in visited;
    var r := VisitEach(adj, u, Traversal(visited, vertices), anc + {k}, ks);
    assert Consistent(adj, t) && k in t.vertices ==>
             Consistent(adj, Traversal(visited, vertices)) && forall j :: j in ks ==> j in vertices;
    r
  }

  /** The `reduce(traverse_, acc)` over the unvisited neighbours `ks`. */
  function VisitEach(adj: AdjacencyMap, ghost u: set<Key>, t: Traversal, ghost anc: set<Key>, ks: seq<Key>): (r: Traversal)
    requires Mentioned(adj) <= u && anc <= t.visited
    requires forall j :: j in ks ==> j in u && j !in anc
    ensures t.visited <= r.visited && t.vertices <= r.vertices
    ensures forall j :: j in ks ==> j in r.visited
    ensures Consistent(adj, t) && (forall j :: j in ks ==> j in t.vertices) ==>
              Consistent(adj, r) &&
              forall x :: x in r.vertices && x !in r.visited ==> x in t.vertices && x !in t.visited && x !in ks
    decreases u - anc, |ks| + 1
  {
    if ks == [] then t
    else VisitEach(adj, u, Visit(adj, u, t, anc, ks[0]), anc, ks[1..])
  }

  /** `traverse(graph, k)`: the keys collected from `k`, starting from `{k}`. */
  function Traverse<V>(g: Graph<V>, k: Key): (r: set<Key>)
    ensures k in r
    ensures Closed(g.adjacencyMap, r)
  {
    var t := Visit(g.adjacencyMap, Mentioned(g.adjacencyMap) + {k}, Traversal({}, {k}), {}, k);
    assert Consistent(g.adjacencyMap, t) && t.vertices <= t.visited;
    t.vertices
  }

  /** Every key `Visit` collects stays inside any closed set holding what was
      already collected and the key visited. */
  lemma VisitWithin(adj: AdjacencyMap, u: set<Key>, t: Traversal, anc: set<Key>, k: Key, s: set<Key>)
    requires Mentioned(adj) <= u && k in u && anc <= t.visited && k !in anc
    requires Closed(adj, s) && t.vertices <= s && k in s
    ensures Visit(adj, u, t, anc, k).vertices <= s
    decreases u - anc, 0
  {
    forall y | y in SetOf(adj, k) ensures y in s {
      assert Linked(adj, k, y);
    }
    var visited := t.visited + {k};
    VisitEachWithin(adj, u, Traversal(visited, t.vertices + SetOf(adj, k)), anc + {k}, Elements(SetOf(adj, k) - visited), s);
  }

  lemma VisitEachWithin(adj: AdjacencyMap, u: set<Key>, t: Traversal, anc: set<Key>, ks: seq<Key>, s: set<Key>)
    requires Mentioned(adj) <= u && anc <= t.visited
    requires forall j :: j in ks ==> j in u && j !in anc
    requires Closed(adj, s) && t.vertices <= s && forall j :: j in ks ==> j in s
    ensures VisitEach(adj, u, t, anc, ks).vertices <= s
    decreases u - anc, |ks| + 1
  {
    if ks != [] {
      VisitWithin(adj, u, t, anc, ks[0], s);
      VisitEachWithin(adj, u, Visit(adj, u, t, anc, ks[0]), anc, ks[1..], s);
    }
  }

  /** The keys reachable from `k`. */
  ghost function ReachableSet(adj: AdjacencyMap, k: Key): (r: set<Key>)
    ensures Closed(adj, r) && k in r
    ensures forall x :: x in r <==> Reachable(adj, k, x)
  {
    assert WalkFrom(adj, [k], k);
    var r := set x | x in Mentioned(adj) + {k} && Reachable(adj, k, x);
    forall x, y | x in r && Linked(adj, x, y) ensures y in r {
      var w :| WalkFrom(adj, w, k) && w[|w| - 1] == x;
      WalkExtend(adj, w, k, y);
      assert (w + [y])[|w + [y]| - 1] == y;
    }
    forall x | Reachable(adj, k, x) ensures x in r {
      var w :| WalkFrom(adj, w, k) && w[|w| - 1] == x;
      if |w| > 1 {
        assert Linked(adj, w[|w| - 2], w[|w| - 1]);
      }
    }
    r
  }

  /** `traverse(k)` holds exactly the keys reachable from `k`. */
  lemma TraverseIsReachable<V>(g: Graph<V>, k: Key, x: Key)
    ensures x in Traverse(g, k) <==> Reachable(g.adjacencyMap, k, x)
  {
    var adj := g.adjacencyMap;
    var u := Mentioned(adj) + {k};
    VisitWithin(adj, u, Traversal({}, {k}), {}, k, ReachableSet(adj, k));
    if Reachable(adj, k, x) {
      var w :| WalkFrom(adj, w, k) && w[|w| - 1] == x;
      WalkStaysIn(adj, Traverse(g, k), w, k);
    }
  }

  // ---------------------------------------------------------------------
  // Hop distance: a layered reference definition for shortestPathBy
  // ---------------------------------------------------------------------

  /** `p` applied as `shortestPathBy_` applies it: to the (possibly missing)
      value stored under `k`, and to `k`. */
  predicate Satisfies<V>(g: Graph<V>, p: (Option<V>, Key) -> bool, k: Key)
  {
    p(g.Get(k), k)
  }

  /** `s` together with every neighbour of a key in `s`. */
  function Grow(adj: AdjacencyMap, s: set<Key>): (r: set<Key>)
    ensures s <= r
    ensures forall x, y :: x in s && Linked(adj, x, y) ==> y in r
  {
    var r := s + (set x, y | x in s && y in SetOf(adj, x) :: y);
    forall x, y | x in s && Linked(adj, x, y) ensures y in r {
      assert y in (set x, y | x in s && y in SetOf(adj, x) :: y);
    }
    r
  }

  /** What `Grow` adds is a neighbour of some key already there. */
  lemma GrowSource(adj: AdjacencyMap, s: set<Key>, y: Key) returns (x: Key)
    requires y in Grow(adj, s) && y !in s
    ensures x in s && Linked(adj, x, y)
  {
    x :| x in s && y in SetOf(adj, x);
  }

  /** The keys at most `n` steps away from `k`. */
  function Within(adj: AdjacencyMap, k: Key, n: nat): (r: set<Key>)
    ensures k in r
  {
    if n == 0 then {k} else Grow(adj, Within(adj, k, n - 1))
  }

  lemma {:induction false} WithinBounded(adj: AdjacencyMap, k: Key, n: nat)
    ensures Within(adj, k, n) <= Mentioned(adj) + {k}
    decreases n
  {
    if n > 0 {
      WithinBounded(adj, k, n - 1);
      forall y | y in Within(adj, k, n) ensures y in Mentioned(adj) + {k} {
        if y !in Within(adj, k, n - 1) {
          var x := GrowSource(adj, Within(adj, k, n - 1), y);
        }
      }
    }
  }

  /** `y` is within `n` steps of `k` exactly when a walk of at most `n + 1`
      keys leads there. */
  lemma {:induction false} WalkInWithin(adj: AdjacencyMap, k: Key, n: nat, w: seq<Key>)
    requires WalkFrom(adj, w, k) && |w| <= n + 1
    ensures w[|w| - 1] in Within(adj, k, n)
    decreases n
  {
    if n > 0 {
      if |w| <= n {
        WalkInWithin(adj, k, n - 1, w);
      } else {
        WalkPrefix(adj, w, k, |w| - 1);
        WalkInWithin(adj, k, n - 1, w[..|w| - 1]);
        assert w[..|w| - 1][|w| - 2] == w[|w| - 2];
        assert Linked(adj, w[|w| - 2], w[|w| - 1]);
      }
    }
  }

  lemma {:induction false} WithinHasWalk(adj: AdjacencyMap, k: Key, n: nat, y: Key) returns (w: seq<Key>)
    requires y in Within(adj, k, n)
    ensures WalkFrom(adj, w, k) && w[|w| - 1] == y && |w| <= n + 1
    decreases n
  {
    if n == 0 {
      w := [k];
    } else if y in Within(adj, k, n - 1) {
      w := WithinHasWalk(adj, k, n - 1, y);
    } else {
      var x := GrowSource(adj, Within(adj, k, n - 1), y);
      var w' := WithinHasWalk(adj, k, n - 1, x);
      WalkExtend(adj, w', k, y);
      w := w' + [y];
    }
  }

  /** The search behind `Distance`: the least `m >= n` whose layer holds a key
      satisfying `p`, or nothing once the layers stop growing. */
  function DistanceFrom<V>(g: Graph<V>, p: (Option<V>, Key) -> bool, k: Key, n: nat): (r: Option<nat>)
    ensures r.Some? ==> n <= r.value
    decreases Mentioned(g.adjacencyMap) + {k} - Within(g.adjacencyMap, k, n)
  {
    var s := Within(g.adjacencyMap, k, n);
    if exists x :: x in s && Satisfies(g, p, x) then Some(n)
    else if Grow(g.adjacencyMap, s) == s then None
    else
      LayerShrinks(g.adjacencyMap, k, n);
      DistanceFrom(g, p, k, n + 1)
  }

  /** A layer that still grows leaves fewer of the mentioned keys outside it. */
  lemma LayerShrinks(adj: AdjacencyMap, k: Key, n: nat)
    requires Grow(adj, Within(adj, k, n)) != Within(adj, k, n)
    ensures Mentioned(adj) + {k} - Within(adj, k, n + 1) < Mentioned(adj) + {k} - Within(adj, k, n)
  {
    var s := Within(adj, k, n);
    var t := Within(adj, k, n + 1);
    assert t == Grow(adj, s);
    WithinBounded(adj, k, n + 1);
    var y :| y in t && y !in s;
    assert y in Mentioned(adj) + {k} - s;
    assert y !in Mentioned(adj) + {k} - t;
  }

  /** The number of steps from `k` to the nearest key satisfying `p`. */
  function Distance<V>(g: Graph<V>, p: (Option<V>, Key) -> bool, k: Key): (r: Option<nat>)
  {
    DistanceFrom(g, p, k, 0)
  }

  /** A layer that does not grow is closed. */
  lemma StableLayerClosed(adj: AdjacencyMap, s: set<Key>)
    requires Grow(adj, s) == s
    ensures Closed(adj, s)
  {
  }

  /** Layer `d` is the first to hold a key satisfying `p`. */
  ghost predicate LeastLayer<V>(g: Graph<V>, p: (Option<V>, Key) -> bool, k: Key, d: nat)
  {
    (exists x :: x in Within(g.adjacencyMap, k, d) && Satisfies(g, p, x)) &&
    (d > 0 ==> forall x :: x in Within(g.adjacencyMap, k, d - 1) ==> !Satisfies(g, p, x))
  }

  /** No walk from `k` ends at a key satisfying `p`. */
  ghost predicate Unreachable<V>(g: Graph<V>, p: (Option<V>, Key) -> bool, k: Key)
  {
    forall w :: WalkFrom(g.adjacencyMap, w, k) ==> !Satisfies(g, p, w[|w| - 1])
  }

  lemma {:induction false} DistanceFromIsLeast<V>(g: Graph<V>, p: (Option<V>, Key) -> bool, k: Key, n: nat)
    requires n > 0 ==> forall x :: x in Within(g.adjacencyMap, k, n - 1) ==> !Satisfies(g, p, x)
    ensures DistanceFrom(g, p, k, n).Some? ==> LeastLayer(g, p, k, DistanceFrom(g, p, k, n).value)
    ensures DistanceFrom(g, p, k, n).None? ==> Unreachable(g, p, k)
    decreases Mentioned(g.adjacencyMap) + {k} - Within(g.adjacencyMap, k, n)
  {
    var s := Within(g.adjacencyMap, k, n);
    if exists x :: x in s && Satisfies(g, p, x) {
      assert DistanceFrom(g, p, k, n) == Some(n);
    } else if Grow(g.adjacencyMap, s) == s {
      assert DistanceFrom(g, p, k, n) == None;
      StableLayerClosed(g.adjacencyMap, s);
      forall w | WalkFrom(g.adjacencyMap, w, k) ensures !Satisfies(g, p, w[|w| - 1]) {
        WalkStaysIn(g.adjacencyMap, s, w, k);
      }
    } else {
      DistanceFromIsLeast(g, p, k, n + 1);
    }
  }

  /** `Distance` is the length of a shortest walk from `k` to a key satisfying
      `p`, and is missing exactly when no walk from `k` reaches one. */
  lemma DistanceIsShortest<V>(g: Graph<V>, p: (Option<V>, Key) -> bool, k: Key)
    ensures Distance(g, p, k).None? <==>
              forall w :: WalkFrom(g.adjacencyMap, w, k) ==> !Satisfies(g, p, w[|w| - 1])
    ensures Distance(g, p, k).Some? ==>
              (exists w :: WalkFrom(g.adjacencyMap, w, k) && Satisfies(g, p, w[|w| - 1]) &&
                           |w| == Distance(g, p, k).value + 1) &&
              forall w :: WalkFrom(g.adjacencyMap, w, k) && Satisfies(g, p, w[|w| - 1]) ==>
                            Distance(g, p, k).value + 1 <= |w|
  {
    var adj := g.adjacencyMap;
    DistanceFromIsLeast(g, p, k, 0);
    if Distance(g, p, k).Some? {
      var d := Distance(g, p, k).value;
      var x :| x in Within(adj, k, d) && Satisfies(g, p, x);
      var w0 := WithinHasWalk(adj, k, d, x);
      forall w | WalkFrom(adj, w, k) && Satisfies(g, p, w[|w| - 1]) ensures d + 1 <= |w| {
        if |w| < d + 1 {
          WalkInWithin(adj, k, d - 1, w);
        }
      }
      assert |w0| == d + 1;
    }
  }

  /** The distance is zero exactly when `k` itself satisfies `p`. */
  lemma DistanceZero<V>(g: Graph<V>, p: (Option<V>, Key) -> bool, k: Key)
    ensures Distance(g, p, k) == Some(0) <==> Satisfies(g, p, k)
  {
    DistanceIsShortest(g, p, k);
    assert WalkFrom(g.adjacencyMap, [k], k);
    if Distance(g, p, k) == Some(0) {
      var w :| WalkFrom(g.adjacencyMap, w, k) && Satisfies(g, p, w[|w| - 1]) && |w| == 1;
      assert w[|w| - 1] == k;
    }
  }

  /** A neighbour's distance bounds a key's distance from above by one more step. */
  lemma DistanceNeighbour<V>(g: Graph<V>, p: (Option<V>, Key) -> bool, k: Key, y: Key)
    requires Linked(g.adjacencyMap, k, y) && Distance(g, p, y).Some?
    ensures Distance(g, p, k).Some? && Distance(g, p, k).value <= Distance(g, p, y).value + 1
  {
    var adj := g.adjacencyMap;
    DistanceIsShortest(g, p, y);
    DistanceIsShortest(g, p, k);
    var w :| WalkFrom(adj, w, y) && Satisfies(g, p, w[|w| - 1]) && |w| == Distance(g, p, y).value + 1;
    var w' := [k] + w;
    forall i | 0 <= i < |w'| - 1 ensures Linked(adj, w'[i], w'[i + 1]) {
      if i > 0 {
        assert w'[i] == w[i - 1] && w'[i + 1] == w[i];
      }
    }
    assert WalkFrom(adj, w', k) && w'[|w'| - 1] == w[|w| - 1];
  }

  /** Away from a satisfying key, some neighbour is one step closer. */
  lemma DistanceNext<V>(g: Graph<V>, p: (Option<V>, Key) -> bool, k: Key) returns (y: Key)
    requires Distance(g, p, k).Some? && Distance(g, p, k).value > 0
    ensures Linked(g.adjacencyMap, k, y) && Distance(g, p, y) == Some(Distance(g, p, k).value - 1)
  {
    var adj := g.adjacencyMap;
    var e := Distance(g, p, k).value;
    DistanceIsShortest(g, p, k);
    var w :| WalkFrom(adj, w, k) && Satisfies(g, p, w[|w| - 1]) && |w| == e + 1;
    y := w[1];
    assert Linked(adj, w[0], w[1]);
    var v := w[1..];
    forall i | 0 <= i < |v| - 1 ensures Linked(adj, v[i], v[i + 1]) {
      assert v[i] == w[i + 1] && v[i + 1] == w[i + 2];
    }
    assert WalkFrom(adj, v, y) && v[|v| - 1] == w[|w| - 1];
    DistanceIsShortest(g, p, y);
    DistanceNeighbour(g, p, k, y);
  }

  // ---------------------------------------------------------------------
  // shortestPathBy (graph.js): breadth-first search over a parent map
  // ---------------------------------------------------------------------

  /** The parent map of the search, with the (ghost) distance of each key:
      `key` is the root, and every other key was reached from its parent,
      one step further away. */
  ghost predicate Parents(adj: AdjacencyMap, key: Key, path: map<Key, Option<Key>>, dist: map<Key, nat>)
  {
    key in path && path[key] == None && path.Keys == dist.Keys && dist[key] == 0 &&
    forall x :: x in path && x != key ==>
      path[x].Some? && path[x].value in dist && Linked(adj, path[x].value, x) &&
      dist[x] == dist[path[x].value] + 1
  }

  /** The frontier holds mapped keys in order of distance, spanning at most one layer. */
  ghost predicate Ordered(dist: map<Key, nat>, f: seq<Key>)
  {
    (forall i :: 0 <= i < |f| ==> f[i] in dist) &&
    (forall i, j :: 0 <= i <= j < |f| ==> dist[f[i]] <= dist[f[j]]) &&
    (|f| > 0 ==> dist[f[|f| - 1]] <= dist[f[0]] + 1)
  }

  /** The keys taken off the frontier: none satisfies `p`, all their
      neighbours are mapped, and none is further away than the frontier's head. */
  ghost predicate Expanded<V>(g: Graph<V>, p: (Option<V>, Key) -> bool, dist: map<Key, nat>, f: seq<Key>)
  {
    forall x :: x in dist && x !in f ==>
      g.AdjacentVertices(x) <= dist.Keys && !Satisfies(g, p, x) &&
      (|f| > 0 && f[0] in dist ==> dist[x] <= dist[f[0]])
  }

  /** No walk from `key` reaches a mapped key in fewer steps than its distance. */
  ghost predicate NoShortcut(adj: AdjacencyMap, key: Key, dist: map<Key, nat>)
  {
    forall w :: WalkFrom(adj, w, key) && w[|w| - 1] in dist ==> dist[w[|w| - 1]] + 1 <= |w|
  }

  /** A key not yet mapped is more than one step further away than the frontier's head. */
  ghost predicate Unseen(adj: AdjacencyMap, key: Key, dist: map<Key, nat>, f: seq<Key>)
  {
    |f| > 0 && f[0] in dist ==>
      forall w :: WalkFrom(adj, w, key) && w[|w| - 1] !in dist ==> dist[f[0]] + 2 <= |w|
  }

  /** The loop invariant of `shortestPathBy_`. */
  ghost predicate Searching<V>(g: Graph<V>, p: (Option<V>, Key) -> bool, key: Key,
                               path: map<Key, Option<Key>>, dist: map<Key, nat>, f: seq<Key>)
  {
    Parents(g.adjacencyMap, key, path, dist) && Ordered(dist, f) && Expanded(g, p, dist, f) &&
    NoShortcut(g.adjacencyMap, key, dist) && Unseen(g.adjacencyMap, key, dist, f)
  }

  /** What the `forEach` over the neighbours of `next` leaves behind: every
      neighbour mapped, the old entries kept, and each new key, listed in
      `added`, a neighbour of `next` one step further away than it. */
  ghost predicate Expansion<V>(g: Graph<V>, next: Key,
                               path0: map<Key, Option<Key>>, dist0: map<Key, nat>,
                               path: map<Key, Option<Key>>, dist: map<Key, nat>, added: seq<Key>)
  {
    next in dist0 && path.Keys == dist.Keys &&
    (forall x :: x in path0 ==> x in path && path[x] == path0[x]) &&
    (forall x :: x in dist0 ==> x in dist && dist[x] == dist0[x]) &&
    (forall x :: x in path && x !in path0 ==> x in added) &&
    (forall i :: 0 <= i < |added| ==>
       added[i] in path && added[i] !in path0 && path[added[i]] == Some(next) &&
       dist[added[i]] == dist0[next] + 1 && added[i] in g.AdjacentVertices(next))
  }

  lemma ExpandParents<V>(g: Graph<V>, p: (Option<V>, Key) -> bool, key: Key,
                         path0: map<Key, Option<Key>>, dist0: map<Key, nat>, f0: seq<Key>,
                         path: map<Key, Option<Key>>, dist: map<Key, nat>, added: seq<Key>)
    requires Searching(g, p, key, path0, dist0, f0) && |f0| > 0
    requires Expansion(g, f0[0], path0, dist0, path, dist, added)
    ensures Parents(g.adjacencyMap, key, path, dist)
  {
    forall x | x in path && x != key
      ensures path[x].Some? && path[x].value in dist && Linked(g.adjacencyMap, path[x].value, x) &&
              dist[x] == dist[path[x].value] + 1
    {
      if x !in path0 {
        var i :| 0 <= i < |added| && added[i] == x;
      }
    }
  }

  lemma ExpandOrdered<V>(g: Graph<V>, p: (Option<V>, Key) -> bool, key: Key,
                         path0: map<Key, Option<Key>>, dist0: map<Key, nat>, f0: seq<Key>,
                         path: map<Key, Option<Key>>, dist: map<Key, nat>, added: seq<Key>)
    requires Ordered(dist0, f0) && |f0| > 0
    requires Expansion(g, f0[0], path0, dist0, path, dist, added)
    ensures Ordered(dist, f0[1..] + added)
    ensures |f0[1..] + added| > 0 ==> dist0[f0[0]] <= dist[(f0[1..] + added)[0]] <= dist0[f0[0]] + 1
  {
    var f := f0[1..] + added;
    var d0 := dist0[f0[0]];
    assert forall i :: 0 <= i < |f| ==> f[i] in dist && d0 <= dist[f[i]] <= d0 + 1 by {
      forall i | 0 <= i < |f| ensures f[i] in dist && d0 <= dist[f[i]] <= d0 + 1 {
        if i < |f0| - 1 {
          assert f[i] == f0[i + 1];
        } else {
          assert f[i] == added[i - (|f0| - 1)];
        }
      }
    }
    forall i, j | 0 <= i <= j < |f| ensures dist[f[i]] <= dist[f[j]] {
      if j < |f0| - 1 {
        assert f[i] == f0[i + 1] && f[j] == f0[j + 1];
      } else if i >= |f0| - 1 {
        assert f[i] == added[i - (|f0| - 1)] && f[j] == added[j - (|f0| - 1)];
      } else {
        assert f[i] == f0[i + 1] && f[j] == added[j - (|f0| - 1)];
        assert dist0[f0[i + 1]] <= dist0[f0[|f0| - 1]];
      }
    }
  }

  lemma ExpandExpanded<V>(g: Graph<V>, p: (Option<V>, Key) -> bool, key: Key,
                          path0: map<Key, Option<Key>>, dist0: map<Key, nat>, f0: seq<Key>,
                          path: map<Key, Option<Key>>, dist: map<Key, nat>, added: seq<Key>)
    requires path0.Keys == dist0.Keys && Ordered(dist0, f0) && Expanded(g, p, dist0, f0)
    requires |f0| > 0 && !Satisfies(g, p, f0[0])
    requires Expansion(g, f0[0], path0, dist0, path, dist, added)
    requires g.AdjacentVertices(f0[0]) <= path.Keys
    ensures Expanded(g, p, dist, f0[1..] + added)
  {
    var f := f0[1..] + added;
    ExpandOrdered(g, p, key, path0, dist0, f0, path, dist, added);
    forall x | x in dist && x !in f
      ensures g.AdjacentVertices(x) <= dist.Keys && !Satisfies(g, p, x) &&
              (|f| > 0 && f[0] in dist ==> dist[x] <= dist[f[0]])
    {
      assert x !in added by {
        assert forall i :: 0 <= i < |added| ==> f[|f0| - 1 + i] == added[i];
      }
      assert x in path0;
      if x == f0[0] {
        assert g.AdjacentVertices(x) <= dist.Keys;
      } else {
        assert x !in f0 by {
          assert forall i :: 1 <= i < |f0| ==> f[i - 1] == f0[i];
        }
        assert g.AdjacentVertices(x) <= dist0.Keys;
        forall y | y in g.AdjacentVertices(x) ensures y in dist.Keys {
          assert y in dist0;
        }
        assert dist[x] == dist0[x] <= dist0[f0[0]];
      }
    }
  }

  lemma ExpandNoShortcut<V>(g: Graph<V>, p: (Option<V>, Key) -> bool, key: Key,
                            path0: map<Key, Option<Key>>, dist0: map<Key, nat>, f0: seq<Key>,
                            path: map<Key, Option<Key>>, dist: map<Key, nat>, added: seq<Key>)
    requires Searching(g, p, key, path0, dist0, f0) && |f0| > 0
    requires Expansion(g, f0[0], path0, dist0, path, dist, added)
    ensures NoShortcut(g.adjacencyMap, key, dist)
  {
    forall w | WalkFrom(g.adjacencyMap, w, key) && w[|w| - 1] in dist
      ensures dist[w[|w| - 1]] + 1 <= |w|
    {
      var x := w[|w| - 1];
      if x !in dist0 {
        var i :| 0 <= i < |added| && added[i] == x;
      }
    }
  }

  lemma ExpandUnseen<V>(g: Graph<V>, p: (Option<V>, Key) -> bool, key: Key,
                        path0: map<Key, Option<Key>>, dist0: map<Key, nat>, f0: seq<Key>,
                        path: map<Key, Option<Key>>, dist: map<Key, nat>, added: seq<Key>)
    requires Searching(g, p, key, path0, dist0, f0) && |f0| > 0 && !Satisfies(g, p, f0[0])
    requires Expansion(g, f0[0], path0, dist0, path, dist, added)
    requires g.AdjacentVertices(f0[0]) <= path.Keys
    ensures Unseen(g.adjacencyMap, key, dist, f0[1..] + added)
  {
    var adj := g.adjacencyMap;
    var f := f0[1..] + added;
    var d0 := dist0[f0[0]];
    ExpandOrdered(g, p, key, path0, dist0, f0, path, dist, added);
    ExpandExpanded(g, p, key, path0, dist0, f0, path, dist, added);
    ExpandNoShortcut(g, p, key, path0, dist0, f0, path, dist, added);
    if |f| > 0 {
      forall w | WalkFrom(adj, w, key) && w[|w| - 1] !in dist ensures dist[f[0]] + 2 <= |w| {
        var y := w[|w| - 1];
        assert y !in dist0 by {
          assert y in dist0 ==> y in dist;
        }
        assert d0 + 2 <= |w|;
        if dist[f[0]] == d0 + 1 {
          // The key before `y` on the walk is mapped but not expanded, so it
          // lies on the frontier, at least `d0 + 1` steps away.
          var z := w[|w| - 2];
          WalkPrefix(adj, w, key, |w| - 1);
          var w' := w[..|w| - 1];
          assert w'[|w'| - 1] == z;
          assert y in g.AdjacentVertices(z);
          assert z in dist && z !in f ==> g.AdjacentVertices(z) <= dist.Keys;
          assert z in dist0 ==> z in dist;
          assert z !in dist0 ==> d0 + 2 <= |w'|;
          assert z in dist ==> dist[z] + 1 <= |w'|;
          HeadIsNearest(dist, f, z);
        }
      }
    }
  }

  /** The head of an ordered frontier is no further away than any key on it. */
  lemma HeadIsNearest(dist: map<Key, nat>, f: seq<Key>, z: Key)
    requires Ordered(dist, f)
    ensures z in f ==> dist[f[0]] <= dist[z]
  {
    if z in f {
      var i :| 0 <= i < |f| && f[i] == z;
      assert dist[f[0]] <= dist[f[i]];
    }
  }

  /** Mapping one more neighbour of `next` extends the expansion. */
  lemma ExpansionGrows<V>(g: Graph<V>, next: Key,
                          path0: map<Key, Option<Key>>, dist0: map<Key, nat>,
                          path: map<Key, Option<Key>>, dist: map<Key, nat>, added: seq<Key>, v: Key)
    requires Expansion(g, next, path0, dist0, path, dist, added)
    requires v !in path && v in g.AdjacentVertices(next)
    ensures Expansion(g, next, path0, dist0, path[v := Some(next)], dist[v := dist[next] + 1], added + [v])
  {
    var added' := added + [v];
    assert forall i :: 0 <= i < |added| ==> added'[i] == added[i];
  }

  /** A round either maps a new key or leaves the parent map as it was. */
  lemma SearchProgresses<V>(g: Graph<V>, next: Key,
                            path0: map<Key, Option<Key>>, dist0: map<Key, nat>,
                            path: map<Key, Option<Key>>, dist: map<Key, nat>, added: seq<Key>, u: set<Key>)
    requires Expansion(g, next, path0, dist0, path, dist, added) && path.Keys <= u
    ensures added == [] ==> path.Keys == path0.Keys
    ensures added != [] ==> u - path.Keys < u - path0.Keys
  {
    forall x ensures x in path.Keys <==> x in path0.Keys || x in added {
      assert x in path && x !in path0 ==> x in added;
      assert x in added ==> x in path;
    }
    if added != [] {
      assert added[0] in u - path0.Keys && added[0] !in u - path.Keys;
    }
  }

  /** `frontier.shift()` after pushing `added`. */
  lemma DropHead(f: seq<Key>, added: seq<Key>)
    requires |f| > 0
    ensures (f + added)[1..] == f[1..] + added
  {
  }

  /** The state `shortestPathBy` starts from satisfies the invariant. */
  lemma SearchStarts<V>(g: Graph<V>, p: (Option<V>, Key) -> bool, key: Key)
    ensures Searching(g, p, key, map[key := None], map[key := 0], [key])
  {
  }

  /** One round of `shortestPathBy_` that does not stop keeps the invariant. */
  lemma ExpandStep<V>(g: Graph<V>, p: (Option<V>, Key) -> bool, key: Key,
                      path0: map<Key, Option<Key>>, dist0: map<Key, nat>, f0: seq<Key>,
                      path: map<Key, Option<Key>>, dist: map<Key, nat>, added: seq<Key>)
    requires Searching(g, p, key, path0, dist0, f0) && |f0| > 0 && !Satisfies(g, p, f0[0])
    requires Expansion(g, f0[0], path0, dist0, path, dist, added)
    requires g.AdjacentVertices(f0[0]) <= path.Keys
    ensures Searching(g, p, key, path, dist, f0[1..] + added)
  {
    ExpandParents(g, p, key, path0, dist0, f0, path, dist, added);
    ExpandOrdered(g, p, key, path0, dist0, f0, path, dist, added);
    ExpandExpanded(g, p, key, path0, dist0, f0, path, dist, added);
    ExpandNoShortcut(g, p, key, path0, dist0, f0, path, dist, added);
    ExpandUnseen(g, p, key, path0, dist0, f0, path, dist, added);
  }

  /** When the head of the frontier satisfies `p`, no walk reaches a key
      satisfying `p` in fewer steps. */
  lemma FoundIsNearest<V>(g: Graph<V>, p: (Option<V>, Key) -> bool, key: Key,
                          path: map<Key, Option<Key>>, dist: map<Key, nat>, f: seq<Key>)
    requires Searching(g, p, key, path, dist, f) && |f| > 0
    ensures forall w :: WalkFrom(g.adjacencyMap, w, key) && Satisfies(g, p, w[|w| - 1]) ==>
                          dist[f[0]] + 1 <= |w|
  {
    forall w | WalkFrom(g.adjacencyMap, w, key) && Satisfies(g, p, w[|w| - 1])
      ensures dist[f[0]] + 1 <= |w|
    {
      var y := w[|w| - 1];
      if y in dist && y in f {
        var i :| 0 <= i < |f| && f[i] == y;
        assert dist[f[0]] <= dist[f[i]];
      }
    }
  }

  /** When the frontier runs empty, no walk reaches a key satisfying `p`. */
  lemma ExhaustedUnreachable<V>(g: Graph<V>, p: (Option<V>, Key) -> bool, key: Key,
                                path: map<Key, Option<Key>>, dist: map<Key, nat>)
    requires Searching(g, p, key, path, dist, [])
    ensures Unreachable(g, p, key)
  {
    var adj := g.adjacencyMap;
    forall x, y | x in dist.Keys && Linked(adj, x, y) ensures y in dist.Keys {
      assert y in g.AdjacentVertices(x);
    }
    forall w | WalkFrom(adj, w, key) ensures !Satisfies(g, p, w[|w| - 1]) {
      WalkStaysIn(adj, dist.Keys, w, key);
    }
  }

  /** `reconstructPath_`: follow the parent links from `k` back to the root. */
  function Reconstruct(ghost adj: AdjacencyMap, ghost key: Key, path: map<Key, Option<Key>>,
                       ghost dist: map<Key, nat>, k: Key): (r: seq<Key>)
    requires Parents(adj, key, path, dist) && k in path
    ensures WalkFrom(adj, r, key) && r[|r| - 1] == k && |r| == dist[k] + 1
    decreases dist[k]
  {
    match path[k]
    case None => [k]
    case Some(j) =>
      var w := Reconstruct(adj, key, path, dist, j);
      WalkExtend(adj, w, key, k);
      w + [k]
  }

  /** `reconstructPath`: nothing when the search found no key. */
  function ReconstructPath(ghost adj: AdjacencyMap, ghost key: Key, found: Option<Key>,
                           path: map<Key, Option<Key>>, ghost dist: map<Key, nat>): (r: seq<Key>)
    requires Parents(adj, key, path, dist) && (found.Some? ==> found.value in path)
    ensures found.None? <==> r == []
    ensures found.Some? ==> WalkFrom(adj, r, key) && r[|r| - 1] == found.value && |r| == dist[found.value] + 1
  {
    match found
    case None => []
    case Some(k) => Reconstruct(adj, key, path, dist, k)
  }

  /** The `forEach` of `shortestPathBy_`: every neighbour of `next` not yet in
      the parent map gets `next` as its parent and joins the frontier. */
  method EnqueueNeighbours<V>(g: Graph<V>, next: Key, path: map<Key, Option<Key>>, frontier: seq<Key>,
                              ghost dist: map<Key, nat>)
    returns (path': map<Key, Option<Key>>, frontier': seq<Key>, ghost dist': map<Key, nat>, ghost added: seq<Key>)
    requires next in dist && path.Keys == dist.Keys
    ensures Expansion(g, next, path, dist, path', dist', added)
    ensures frontier' == frontier + added
    ensures g.AdjacentVertices(next) <= path'.Keys
    ensures path'.Keys <= path.Keys + g.AdjacentVertices(next)
    ensures forall x :: x in added <==> x in g.AdjacentVertices(next) && x !in path
    ensures forall i, j :: 0 <= i < j < |added| ==> added[i] != added[j]
  {
    path', frontier', dist', added := path, frontier, dist, [];
    var todo := g.AdjacentVertices(next);
    while todo != {}
      invariant todo <= g.AdjacentVertices(next)
      invariant forall y :: y in g.AdjacentVertices(next) && y !in todo ==> y in path'
      invariant frontier' == frontier + added
      invariant Expansion(g, next, path, dist, path', dist', added)
      invariant path'.Keys <= path.Keys + g.AdjacentVertices(next)
      invariant forall y :: y in g.AdjacentVertices(next) && y !in todo && y !in path ==> y in added
      invariant forall i, j :: 0 <= i < j < |added| ==> added[i] != added[j]
      decreases todo
    {
      assert exists v :: v in todo by {
        if forall v :: v !in todo {
          assert false;
        }
      }
      var v :| v in todo;
      if v !in path' {
        ExpansionGrows(g, next, path, dist, path', dist', added, v);
        frontier' := frontier' + [v];
        path' := path'[v := Some(next)];
        dist' := dist'[v := dist'[next] + 1];
        added := added + [v];
      }
      todo := todo - {v};
    }
    forall y | y in g.AdjacentVertices(next) ensures y in path'.Keys {
      assert y !in todo;
    }
    forall x | x in added ensures x in g.AdjacentVertices(next) && x !in path {
      var i :| 0 <= i < |added| && added[i] == x;
    }
  }

  /** What the path rebuilt at the end of the search satisfies. */
  lemma SearchEnds<V>(g: Graph<V>, p: (Option<V>, Key) -> bool, key: Key,
                      path: map<Key, Option<Key>>, dist: map<Key, nat>, f: seq<Key>,
                      found: Option<Key>, r: seq<Key>)
    requires Searching(g, p, key, path, dist, f)
    requires found.None? ==> f == []
    requires found.Some? ==> |f| > 0 && found.value == f[0] && Satisfies(g, p, f[0])
    requires r == ReconstructPath(g.adjacencyMap, key, found, path, dist)
    ensures r != [] ==> WalkFrom(g.adjacencyMap, r, key) && Satisfies(g, p, r[|r| - 1])
    ensures r != [] ==> forall w :: WalkFrom(g.adjacencyMap, w, key) && Satisfies(g, p, w[|w| - 1]) ==> |r| <= |w|
    ensures r == [] <==> Unreachable(g, p, key)
    ensures Satisfies(g, p, key) ==> r == [key]
    ensures Distance(g, p, key) == if r == [] then None else Some(|r| - 1)
  {
    var adj := g.adjacencyMap;
    DistanceIsShortest(g, p, key);
    if found.Some? {
      FoundIsNearest(g, p, key, path, dist, f);
      if Satisfies(g, p, key) {
        assert WalkFrom(adj, [key], key);
        assert r == [key];
      }
    } else {
      ExhaustedUnreachable(g, p, key, path, dist);
    }
  }

  /** `shortestPathBy(graph, p, key)`: the keys of a shortest walk from `key`
      to a key satisfying `p`, or none when no such key is reachable. */
  method ShortestPathBy<V>(g: Graph<V>, p: (Option<V>, Key) -> bool, key: Key) returns (r: seq<Key>)
    ensures r != [] ==> WalkFrom(g.adjacencyMap, r, key) && Satisfies(g, p, r[|r| - 1])
    ensures r != [] ==> forall w :: WalkFrom(g.adjacencyMap, w, key) && Satisfies(g, p, w[|w| - 1]) ==> |r| <= |w|
    ensures r == [] <==> Unreachable(g, p, key)
    ensures Satisfies(g, p, key) ==> r == [key]
    ensures Distance(g, p, key) == if r == [] then None else Some(|r| - 1)
  {
    ghost var adj := g.adjacencyMap;
    ghost var u := Mentioned(adj) + {key};
    var path: map<Key, Option<Key>> := map[key := None];
    var frontier: seq<Key> := [key];
    var found: Option<Key> := None;
    ghost var dist: map<Key, nat> := map[key := 0];
    SearchStarts(g, p, key);
    while frontier != []
      invariant Searching(g, p, key, path, dist, frontier)
      invariant path.Keys <= u
      decreases u - path.Keys, |frontier|
    {
      var next := frontier[0];
      if Satisfies(g, p, next) {
        found := Some(next);
        break;
      }
      ghost var path0, dist0, f0 := path, dist, frontier;
      ghost var added;
      path, frontier, dist, added := EnqueueNeighbours(g, next, path, frontier, dist);
      assert path.Keys <= u by {
        assert g.AdjacentVertices(next) <= Mentioned(adj);
      }
      ExpandStep(g, p, key, path0, dist0, f0, path, dist, added);
      DropHead(f0, added);
      frontier := frontier[1..];
      SearchProgresses(g, next, path0, dist0, path, dist, added, u);
    }
    r := ReconstructPath(adj, key, found, path, dist);
    SearchEnds(g, p, key, path, dist, frontier, found, r);
  }

  /** `shortestPath(j, k)`: the search for the key `k` itself. */
  method ShortestPath<V>(g: Graph<V>, j: Key, k: Key) returns (r: seq<Key>)
    ensures r != [] ==> WalkFrom(g.adjacencyMap, r, j) && r[|r| - 1] == k
    ensures r != [] ==> forall w :: WalkFrom(g.adjacencyMap, w, j) && w[|w| - 1] == k ==> |r| <= |w|
    ensures r == [] <==> !Reachable(g.adjacencyMap, j, k)
  {
    r := ShortestPathBy(g, (_, a) => a == k, j);
  }

  // ---------------------------------------------------------------------
  // connectedComponents (graph.js)
  // ---------------------------------------------------------------------

  lemma WalkConcat(adj: AdjacencyMap, w1: seq<Key>, w2: seq<Key>, k: Key)
    requires WalkFrom(adj, w1, k) && WalkFrom(adj, w2, w1[|w1| - 1])
    ensures WalkFrom(adj, w1 + w2[1..], k) && (w1 + w2[1..])[|w1 + w2[1..]| - 1] == w2[|w2| - 1]
  {
    var w := w1 + w2[1..];
    forall i | 0 <= i < |w| - 1 ensures Linked(adj, w[i], w[i + 1]) {
      if i < |w1| - 1 {
        assert w[i] == w1[i] && w[i + 1] == w1[i + 1];
      } else {
        assert w[i] == w2[i - |w1| + 1] && w[i + 1] == w2[i - |w1| + 2];
      }
    }
  }

  lemma WalkReverse(adj: AdjacencyMap, w: seq<Key>, k: Key) returns (v: seq<Key>)
    requires Symmetric(adj) && WalkFrom(adj, w, k)
    ensures WalkFrom(adj, v, w[|w| - 1]) && v[|v| - 1] == k
  {
    v := seq(|w|, i requires 0 <= i < |w| => w[|w| - 1 - i]);
    forall i | 0 <= i < |v| - 1 ensures Linked(adj, v[i], v[i + 1]) {
      assert Linked(adj, w[|w| - 2 - i], w[|w| - 1 - i]);
    }
  }

  /** What a reached key reaches is reached too. */
  lemma ReachableTrans(adj: AdjacencyMap, x: Key, y: Key, z: Key)
    requires Reachable(adj, x, y) && Reachable(adj, y, z)
    ensures Reachable(adj, x, z)
  {
    var w1 :| WalkFrom(adj, w1, x) && w1[|w1| - 1] == y;
    var w2 :| WalkFrom(adj, w2, y) && w2[|w2| - 1] == z;
    WalkConcat(adj, w1, w2, x);
  }

  /** On an undirected map, reachability goes both ways. */
  lemma ReachableBack(adj: AdjacencyMap, x: Key, y: Key)
    requires Symmetric(adj) && Reachable(adj, x, y)
    ensures Reachable(adj, y, x)
  {
    var w :| WalkFrom(adj, w, x) && w[|w| - 1] == y;
    var back := WalkReverse(adj, w, x);
  }

  /** On an undirected map, every key reached from `x` reaches exactly what `x` reaches. */
  lemma SameComponent<V>(g: Graph<V>, x: Key, y: Key)
    requires Symmetric(g.adjacencyMap)
    ensures y in Traverse(g, x) ==> Traverse(g, y) == Traverse(g, x)
  {
    var adj := g.adjacencyMap;
    TraverseIsReachable(g, x, y);
    if y in Traverse(g, x) {
      ReachableBack(adj, x, y);
      forall z ensures z in Traverse(g, y) <==> z in Traverse(g, x) {
        TraverseIsReachable(g, x, z);
        TraverseIsReachable(g, y, z);
        if z in Traverse(g, y) {
          ReachableTrans(adj, x, y, z);
        }
        if z in Traverse(g, x) {
          ReachableTrans(adj, y, x, z);
        }
      }
    }
  }

  /** In a valid graph, a traversal from a vertex meets only vertices. */
  lemma TraverseWithinVertices<V>(g: Graph<V>, x: Key)
    requires g.Valid() && x in g.vertexMap
    ensures Traverse(g, x) <= g.vertexMap.Keys
  {
    var adj := g.adjacencyMap;
    forall a, b | a in g.vertexMap.Keys && Linked(adj, a, b) ensures b in g.vertexMap.Keys {
      assert b in adj;
    }
    forall y | y in Traverse(g, x) ensures y in g.vertexMap.Keys {
      TraverseIsReachable(g, x, y);
      var w :| WalkFrom(adj, w, x) && w[|w| - 1] == y;
      WalkStaysIn(adj, g.vertexMap.Keys, w, x);
    }
  }

  /** `traverseComponents(remaining, subgraphs)`: traverse from the first
      remaining key, record that traversal, subtract it and go on. */
  function Components<V>(g: Graph<V>, remaining: set<Key>): (r: seq<set<Key>>)
    ensures |r| <= |remaining|
    decreases remaining
  {
    if remaining == {} then []
    else
      var c := Traverse(g, Least(remaining));
      assert |remaining - c| < |remaining| by {
        assert remaining - c <= remaining - {Least(remaining)};
      }
      [c] + Components(g, remaining - c)
  }

  /** The sets of `r` together hold exactly the keys of `s`. */
  ghost predicate Covers(r: seq<set<Key>>, s: set<Key>)
  {
    forall x :: x in s <==> exists i :: 0 <= i < |r| && x in r[i]
  }

  /** No key lies in two sets of `r`, and none of them is empty. */
  ghost predicate Disjoint(r: seq<set<Key>>)
  {
    (forall i :: 0 <= i < |r| ==> r[i] != {}) &&
    (forall i, j :: 0 <= i < j < |r| ==> r[i] !! r[j])
  }

  /** Each set of `r` is the traversal from every one of its keys. */
  ghost predicate Traversals<V>(g: Graph<V>, r: seq<set<Key>>)
  {
    forall i, x :: 0 <= i < |r| && x in r[i] ==> Traverse(g, x) == r[i]
  }

  lemma ConsCovers(c: set<Key>, r: seq<set<Key>>, s: set<Key>)
    requires Covers(r, s - c) && c <= s
    ensures Covers([c] + r, s)
  {
    var r' := [c] + r;
    forall x | x in s ensures exists i :: 0 <= i < |r'| && x in r'[i] {
      if x in c {
        assert x in r'[0];
      } else {
        assert x in s - c;
        var i :| 0 <= i < |r| && x in r[i];
        assert x in r'[i + 1];
      }
    }
    forall x, i | 0 <= i < |r'| && x in r'[i] ensures x in s {
      if i > 0 {
        assert x in r[i - 1];
        assert x in s - c;
      }
    }
  }

  lemma ConsDisjoint(c: set<Key>, r: seq<set<Key>>, s: set<Key>)
    requires Covers(r, s - c) && Disjoint(r) && c != {}
    ensures Disjoint([c] + r)
  {
    var r' := [c] + r;
    forall i | 0 <= i < |r'| ensures r'[i] != {} {
      if i > 0 {
        assert r'[i] == r[i - 1];
      }
    }
    forall i, j | 0 <= i < j < |r'| ensures r'[i] !! r'[j] {
      assert r'[j] == r[j - 1];
      if i > 0 {
        assert r'[i] == r[i - 1];
      } else {
        forall x | x in r'[j] ensures x !in c {
          assert x in s - c;
        }
      }
    }
  }

  lemma ConsTraversals<V>(g: Graph<V>, x0: Key, r: seq<set<Key>>)
    requires Symmetric(g.adjacencyMap) && Traversals(g, r)
    ensures Traversals(g, [Traverse(g, x0)] + r)
  {
    var r' := [Traverse(g, x0)] + r;
    forall i, x | 0 <= i < |r'| && x in r'[i] ensures Traverse(g, x) == r'[i] {
      if i == 0 {
        SameComponent(g, x0, x);
      } else {
        assert r'[i] == r[i - 1];
      }
    }
  }

  /** What is left after subtracting a traversal is again a set no traversal leaves. */
  lemma RestIsClosed<V>(g: Graph<V>, remaining: set<Key>, x0: Key)
    requires Symmetric(g.adjacencyMap)
    requires forall x :: x in remaining ==> Traverse(g, x) <= remaining
    ensures forall y :: y in remaining - Traverse(g, x0) ==> Traverse(g, y) <= remaining - Traverse(g, x0)
  {
    var c := Traverse(g, x0);
    forall y | y in remaining - c ensures Traverse(g, y) <= remaining - c {
      forall z | z in Traverse(g, y) ensures z !in c {
        SameComponent(g, y, z);
        SameComponent(g, x0, z);
      }
    }
  }

  /** In a valid graph, the traversals recorded from a set of vertices that
      no traversal leaves partition it, and each is the traversal from any
      of its keys. */
  lemma {:induction false} ComponentsPartition<V>(g: Graph<V>, remaining: set<Key>)
    requires g.Valid()
    requires forall x :: x in remaining ==> Traverse(g, x) <= remaining
    ensures Covers(Components(g, remaining), remaining)
    ensures Disjoint(Components(g, remaining))
    ensures Traversals(g, Components(g, remaining))
    decreases remaining
  {
    if remaining != {} {
      var x0 := Least(remaining);
      var c := Traverse(g, x0);
      RestIsClosed(g, remaining, x0);
      ComponentsPartition(g, remaining - c);
      var r' := Components(g, remaining - c);
      assert Components(g, remaining) == [c] + r';
      ConsCovers(c, r', remaining);
      ConsDisjoint(c, r', remaining);
      ConsTraversals(g, x0, r');
    }
  }

  /** The subgraph a set of keys induces, as `connectedComponents()` filters it. */
  function Induced<V>(g: Graph<V>, c: set<Key>): (r: Graph<V>)
    requires Symmetric(g.adjacencyMap)
    ensures r.vertexMap.Keys == c * g.vertexMap.Keys
    ensures g.Valid() ==> r.Valid()
  {
    g.Filter((v: V, k: Key) => k in c)
  }

  /** `connectedComponents()`: each traversal as the subgraph it induces. */
  function ConnectedComponents<V>(g: Graph<V>): (r: seq<Graph<V>>)
    requires Symmetric(g.adjacencyMap)
    ensures |r| == |Components(g, g.vertexMap.Keys)|
  {
    var islands := Components(g, g.vertexMap.Keys);
    seq(|islands|, i requires 0 <= i < |islands| => Induced(g, islands[i]))
  }

  /** The subgraph a component induces keeps its values and every edge of its vertices. */
  lemma InducedComponent<V>(g: Graph<V>, c: set<Key>)
    requires g.Valid() && c <= g.vertexMap.Keys
    requires forall x :: x in c ==> Traverse(g, x) == c
    ensures Induced(g, c).vertexMap.Keys == c
    ensures forall k :: k in c ==> Induced(g, c).vertexMap[k] == g.vertexMap[k]
    ensures forall k, j :: k in c ==> (Induced(g, c).Adjacent(k, j) <==> g.Adjacent(k, j))
  {
    var h := Induced(g, c);
    forall k, j | k in c && g.Adjacent(k, j) ensures h.Adjacent(k, j) {
      TraverseIsReachable(g, k, j);
      assert IsWalk(g.adjacencyMap, [k, j]);
      assert WalkFrom(g.adjacencyMap, [k, j], k);
      assert j in Traverse(g, k);
    }
  }

  /** A set of `r` holds only keys of a set `r` covers. */
  lemma CoveredWithin(r: seq<set<Key>>, s: set<Key>, i: nat)
    requires Covers(r, s) && i < |r|
    ensures r[i] <= s
  {
    forall x | x in r[i] ensures x in s { }
  }

  /** The traversals from the vertices of a valid graph partition them. */
  lemma VertexComponents<V>(g: Graph<V>)
    requires g.Valid()
    ensures Covers(Components(g, g.vertexMap.Keys), g.vertexMap.Keys)
    ensures Disjoint(Components(g, g.vertexMap.Keys))
    ensures Traversals(g, Components(g, g.vertexMap.Keys))
  {
    forall x | x in g.vertexMap.Keys ensures Traverse(g, x) <= g.vertexMap.Keys {
      TraverseWithinVertices(g, x);
    }
    ComponentsPartition(g, g.vertexMap.Keys);
  }

  /** Each traversal recorded from the vertices of a valid graph holds only vertices. */
  lemma ComponentWithin<V>(g: Graph<V>, i: nat)
    requires g.Valid() && i < |Components(g, g.vertexMap.Keys)|
    ensures Components(g, g.vertexMap.Keys)[i] <= g.vertexMap.Keys
  {
    VertexComponents(g);
    CoveredWithin(Components(g, g.vertexMap.Keys), g.vertexMap.Keys, i);
  }

  /** The `i`-th component subgraph is valid and its vertices are the `i`-th traversal. */
  lemma ComponentAt<V>(g: Graph<V>, i: nat)
    requires g.Valid() && i < |ConnectedComponents(g)|
    ensures ConnectedComponents(g)[i] == Induced(g, Components(g, g.vertexMap.Keys)[i])
    ensures ConnectedComponents(g)[i].vertexMap.Keys == Components(g, g.vertexMap.Keys)[i]
    ensures ConnectedComponents(g)[i].Valid()
  {
    ComponentWithin(g, i);
  }

  /** The component subgraphs of a valid graph: valid, and their vertex sets
      partition the graph's. */
  lemma ConnectedComponentsPartition<V>(g: Graph<V>)
    requires g.Valid()
    ensures forall i :: 0 <= i < |ConnectedComponents(g)| ==> ConnectedComponents(g)[i].Valid()
    ensures Covers(VertexSets(ConnectedComponents(g)), g.vertexMap.Keys)
    ensures Disjoint(VertexSets(ConnectedComponents(g)))
  {
    var r := ConnectedComponents(g);
    forall i | 0 <= i < |r| ensures r[i].Valid() && VertexSets(r)[i] == Components(g, g.vertexMap.Keys)[i] {
      ComponentAt(g, i);
    }
    assert VertexSets(r) == Components(g, g.vertexMap.Keys);
    VertexComponents(g);
  }

  /** Every vertex's component subgraph holds exactly what a traversal from
      it reaches, with the graph's values and every edge of its vertices. */
  lemma ConnectedComponentsAreTraversals<V>(g: Graph<V>, i: nat, k: Key, j: Key)
    requires g.Valid() && i < |ConnectedComponents(g)| && k in ConnectedComponents(g)[i].vertexMap
    ensures ConnectedComponents(g)[i].vertexMap.Keys == Traverse(g, k)
    ensures ConnectedComponents(g)[i].vertexMap[k] == g.vertexMap[k]
    ensures ConnectedComponents(g)[i].Adjacent(k, j) <==> g.Adjacent(k, j)
  {
    var islands := Components(g, g.vertexMap.Keys);
    VertexComponents(g);
    ComponentAt(g, i);
    CoveredWithin(islands, g.vertexMap.Keys, i);
    InducedComponent(g, islands[i]);
  }

  /** Notation only: the vertex keys of each graph, in order, so that partition
      facts about component subgraphs can be stated on their key sets. */
  function VertexSets<V>(gs: seq<Graph<V>>): (r: seq<set<Key>>)
    ensures |r| == |gs| && forall i :: 0 <= i < |gs| ==> r[i] == gs[i].vertexMap.Keys
  {
    seq(|gs|, i requires 0 <= i < |gs| => gs[i].vertexMap.Keys)
  }
}
