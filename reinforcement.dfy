/**
 * The reinforcement engine (reinforcement.js): the depth index that buckets
 * a player's countries by their distance to the nearest foreign country,
 * the total reinforcement budget, and the fold that hands that budget out
 * bucket by bucket.
 */
module Reinforcement {
  import opened Common
  import opened Graphs
  import opened GraphSearch
  import opened Entities

  /** The error `depthIndex` throws when a country has no path to a foreign one. */
  const EmptyPathError := "Can't calculate depth map from empty path."

  // ---------------------------------------------------------------------
  // depthIndex
  // ---------------------------------------------------------------------

  /** `subgraphs[0].first().player`: the player of the first country of the
      first subgraph (its key-least country, standing in for the map's
      iteration order). */
  function FirstPlayer(subgraphs: seq<Graph<Country>>): (r: Option<Player>)
    requires |subgraphs| > 0 && subgraphs[0].vertexMap.Keys != {}
    ensures exists k :: k in subgraphs[0].vertexMap && subgraphs[0].vertexMap[k].player == r
  {
    var k := Least(subgraphs[0].vertexMap.Keys);
    subgraphs[0].vertexMap[k].player
  }

  /** The search predicate of `depthIndex`: a country not occupied by `player`. */
  function Foreign(player: Option<Player>): (Option<Country>, Key) -> bool
  {
    (c: Option<Country>, k: Key) => c.Some? && c.value.player != player
  }

  /** `k` is a country of `graph` occupied by `player`. */
  predicate Owned(graph: Graph<Country>, player: Option<Player>, k: Key)
  {
    k in graph.vertexMap && graph.vertexMap[k].player == player
  }

  /** `k` is a vertex of one of the subgraphs. */
  ghost predicate InSubgraphs(subgraphs: seq<Graph<Country>>, k: Key)
  {
    exists i :: 0 <= i < |subgraphs| && k in subgraphs[i].vertexMap
  }

  /** `F.concat(subgraphs.map(subgraph => subgraph.keys()))`. */
  function SubgraphKeys(subgraphs: seq<Graph<Country>>): (r: seq<Key>)
    ensures forall k :: k in r <==> InSubgraphs(subgraphs, k)
  {
    if subgraphs == [] then []
    else
      var r := Elements(subgraphs[0].vertexMap.Keys) + SubgraphKeys(subgraphs[1..]);
      forall k ensures k in r <==> InSubgraphs(subgraphs, k) {
        if InSubgraphs(subgraphs, k) {
          var i :| 0 <= i < |subgraphs| && k in subgraphs[i].vertexMap;
          if i > 0 {
            assert k in subgraphs[1..][i - 1].vertexMap;
          }
        }
        if k in SubgraphKeys(subgraphs[1..]) {
          var i :| 0 <= i < |subgraphs[1..]| && k in subgraphs[1..][i].vertexMap;
          assert k in subgraphs[i + 1].vertexMap;
        }
      }
      r
  }

  /** `path.length - 2` for a country of `player`: one less than its distance
      to a foreign country, or nothing when no path reaches one. */
  function Depth(graph: Graph<Country>, player: Option<Player>, k: Key): (r: Option<nat>)
    requires Owned(graph, player, k)
    ensures r.None? <==> Distance(graph, Foreign(player), k).None?
    ensures r.Some? ==> Distance(graph, Foreign(player), k) == Some(r.value + 1)
  {
    match Distance(graph, Foreign(player), k)
    case None => None
    case Some(d) =>
      DistanceZero(graph, Foreign(player), k);
      Some(d - 1)
  }

  /** `list.update(depth, set => (set || Immutable.Set()).add(key))`: slots
      the list has not reached yet are padded with empty sets. */
  function Place(list: seq<set<Key>>, depth: nat, key: Key): (r: seq<set<Key>>)
    ensures |r| == if depth < |list| then |list| else depth + 1
    ensures forall i :: 0 <= i < |r| ==>
              r[i] == (if i < |list| then list[i] else {}) + (if i == depth then {key} else {})
  {
    if depth < |list| then list[depth := list[depth] + {key}]
    else list + seq(depth - |list|, _ => {}) + [{key}]
  }

  /** The `keys.reduce` of `depthIndex`, folding the keys from the left. */
  function DepthsOf(graph: Graph<Country>, player: Option<Player>, keys: seq<Key>): (r: Result<seq<set<Key>>, string>)
    requires forall k :: k in keys ==> Owned(graph, player, k)
    ensures r.Failure? ==> r.error == EmptyPathError
    decreases |keys|
  {
    if keys == [] then Success([])
    else
      var key := keys[|keys| - 1];
      match DepthsOf(graph, player, keys[..|keys| - 1])
      case Failure(e) => Failure(e)
      case Success(list) =>
        match Depth(graph, player, key)
        case None => Failure(EmptyPathError)
        case Some(d) => Success(Place(list, d, key))
  }

  /** Bucket `i` of `list` holds exactly the keys of depth `i`, every key
      has a bucket, and the last bucket is not empty. */
  ghost predicate Bucketed(graph: Graph<Country>, player: Option<Player>, keys: seq<Key>, list: seq<set<Key>>)
    requires forall k :: k in keys ==> Owned(graph, player, k)
  {
    (forall k :: k in keys ==> Depth(graph, player, k).Some? && Depth(graph, player, k).value < |list|) &&
    (forall i, k :: 0 <= i < |list| ==> (k in list[i] <==> k in keys && Depth(graph, player, k) == Some(i))) &&
    (|list| > 0 ==> list[|list| - 1] != {})
  }

  /** Placing one more key at its depth keeps the buckets exact. */
  lemma PlaceKeepsBuckets(graph: Graph<Country>, player: Option<Player>, front: seq<Key>, key: Key, list: seq<set<Key>>)
    requires forall k :: k in front + [key] ==> Owned(graph, player, k)
    requires Bucketed(graph, player, front, list) && Depth(graph, player, key).Some?
    ensures Bucketed(graph, player, front + [key], Place(list, Depth(graph, player, key).value, key))
  {
    var keys := front + [key];
    var d := Depth(graph, player, key).value;
    var r := Place(list, d, key);
    forall i, k | 0 <= i < |r| ensures k in r[i] <==> k in keys && Depth(graph, player, k) == Some(i) {
      assert k in keys <==> k in front || k == key;
    }
    assert |r| > 0 ==> (|r| - 1 == d || r[|r| - 1] == list[|list| - 1]);
  }

  /** The fold fails, with the empty-path error, exactly when some key has no
      depth; otherwise its buckets are exact. */
  lemma {:induction false} DepthsOfBuckets(graph: Graph<Country>, player: Option<Player>, keys: seq<Key>)
    requires forall k :: k in keys ==> Owned(graph, player, k)
    ensures DepthsOf(graph, player, keys).Failure? <==> exists k :: k in keys && Depth(graph, player, k).None?
    ensures DepthsOf(graph, player, keys).Failure? ==> DepthsOf(graph, player, keys).error == EmptyPathError
    ensures DepthsOf(graph, player, keys).Success? ==> Bucketed(graph, player, keys, DepthsOf(graph, player, keys).value)
    decreases |keys|
  {
    if keys != [] {
      var key := keys[|keys| - 1];
      var front := keys[..|keys| - 1];
      assert keys == front + [key];
      DepthsOfBuckets(graph, player, front);
      assert forall k :: k in keys <==> k in front || k == key;
      if DepthsOf(graph, player, front).Success? && Depth(graph, player, key).Some? {
        PlaceKeepsBuckets(graph, player, front, key, DepthsOf(graph, player, front).value);
      }
    }
  }

  /** The countries of the subgraphs all belong to one player. */
  ghost predicate OwnedSubgraphs(graph: Graph<Country>, subgraphs: seq<Graph<Country>>)
    requires |subgraphs| > 0 && subgraphs[0].vertexMap.Keys != {}
  {
    forall k :: InSubgraphs(subgraphs, k) ==> Owned(graph, FirstPlayer(subgraphs), k)
  }

  /** `depthIndex(graph, subgraphs)`. */
  function DepthIndex(graph: Graph<Country>, subgraphs: seq<Graph<Country>>): (r: Result<seq<set<Key>>, string>)
    requires |subgraphs| > 0 && subgraphs[0].vertexMap.Keys != {}
    requires graph.Valid() && OwnedSubgraphs(graph, subgraphs)
  {
    DepthsOf(graph, FirstPlayer(subgraphs), SubgraphKeys(subgraphs))
  }

  /** `depthIndex` throws exactly when some country of the subgraphs has no
      path to a country another player (or nobody) occupies. */
  lemma DepthIndexFails(graph: Graph<Country>, subgraphs: seq<Graph<Country>>)
    requires |subgraphs| > 0 && subgraphs[0].vertexMap.Keys != {}
    requires graph.Valid() && OwnedSubgraphs(graph, subgraphs)
    ensures DepthIndex(graph, subgraphs).Failure? <==>
              exists k :: InSubgraphs(subgraphs, k) && Unreachable(graph, Foreign(FirstPlayer(subgraphs)), k)
    ensures DepthIndex(graph, subgraphs).Failure? ==> DepthIndex(graph, subgraphs).error == EmptyPathError
  {
    var player := FirstPlayer(subgraphs);
    var keys := SubgraphKeys(subgraphs);
    DepthsOfBuckets(graph, player, keys);
    forall k | k in keys ensures Depth(graph, player, k).None? <==> Unreachable(graph, Foreign(player), k) {
      DistanceIsShortest(graph, Foreign(player), k);
    }
  }

  /** On success, bucket `d` holds exactly the countries of the subgraphs at
      distance `d + 1` from a foreign country, that is, those whose shortest
      path has `d + 2` keys. */
  lemma DepthIndexBuckets(graph: Graph<Country>, subgraphs: seq<Graph<Country>>)
    requires |subgraphs| > 0 && subgraphs[0].vertexMap.Keys != {}
    requires graph.Valid() && OwnedSubgraphs(graph, subgraphs)
    requires DepthIndex(graph, subgraphs).Success?
    ensures forall d, k :: 0 <= d < |DepthIndex(graph, subgraphs).value| ==>
              (k in DepthIndex(graph, subgraphs).value[d] <==>
                 InSubgraphs(subgraphs, k) && Distance(graph, Foreign(FirstPlayer(subgraphs)), k) == Some(d + 1))
  {
    forall d, k | 0 <= d < |DepthIndex(graph, subgraphs).value|
      ensures k in DepthIndex(graph, subgraphs).value[d] <==>
                InSubgraphs(subgraphs, k) && Distance(graph, Foreign(FirstPlayer(subgraphs)), k) == Some(d + 1)
    {
      BucketAt(graph, subgraphs, d, k);
    }
  }

  lemma BucketAt(graph: Graph<Country>, subgraphs: seq<Graph<Country>>, d: nat, k: Key)
    requires |subgraphs| > 0 && subgraphs[0].vertexMap.Keys != {}
    requires graph.Valid() && OwnedSubgraphs(graph, subgraphs)
    requires DepthIndex(graph, subgraphs).Success? && d < |DepthIndex(graph, subgraphs).value|
    ensures k in DepthIndex(graph, subgraphs).value[d] <==>
              InSubgraphs(subgraphs, k) && Distance(graph, Foreign(FirstPlayer(subgraphs)), k) == Some(d + 1)
  {
    var keys := SubgraphKeys(subgraphs);
    DepthIndexBucketed(graph, subgraphs);
    BucketMember(graph, FirstPlayer(subgraphs), keys, DepthIndex(graph, subgraphs).value, d, k);
    assert k in keys <==> InSubgraphs(subgraphs, k);
  }

  /** The depth index's buckets are exact for the keys of the subgraphs. */
  lemma DepthIndexBucketed(graph: Graph<Country>, subgraphs: seq<Graph<Country>>)
    requires |subgraphs| > 0 && subgraphs[0].vertexMap.Keys != {}
    requires graph.Valid() && OwnedSubgraphs(graph, subgraphs)
    requires DepthIndex(graph, subgraphs).Success?
    ensures forall k :: k in SubgraphKeys(subgraphs) ==> Owned(graph, FirstPlayer(subgraphs), k)
    ensures Bucketed(graph, FirstPlayer(subgraphs), SubgraphKeys(subgraphs), DepthIndex(graph, subgraphs).value)
  {
    DepthsOfBuckets(graph, FirstPlayer(subgraphs), SubgraphKeys(subgraphs));
  }

  lemma BucketMember(graph: Graph<Country>, player: Option<Player>, keys: seq<Key>, r: seq<set<Key>>, d: nat, k: Key)
    requires forall k :: k in keys ==> Owned(graph, player, k)
    requires Bucketed(graph, player, keys, r) && d < |r|
    ensures k in r[d] <==> k in keys && Distance(graph, Foreign(player), k) == Some(d + 1)
  {
    if k in keys {
      assert Depth(graph, player, k) == Some(d) <==> Distance(graph, Foreign(player), k) == Some(d + 1);
    }
  }

  /** On success, every country of the subgraphs lies in a bucket. */
  lemma DepthIndexCovers(graph: Graph<Country>, subgraphs: seq<Graph<Country>>)
    requires |subgraphs| > 0 && subgraphs[0].vertexMap.Keys != {}
    requires graph.Valid() && OwnedSubgraphs(graph, subgraphs)
    requires DepthIndex(graph, subgraphs).Success?
    ensures forall k :: InSubgraphs(subgraphs, k) ==>
              exists d :: 0 <= d < |DepthIndex(graph, subgraphs).value| && k in DepthIndex(graph, subgraphs).value[d]
  {
    var player := FirstPlayer(subgraphs);
    var keys := SubgraphKeys(subgraphs);
    DepthsOfBuckets(graph, player, keys);
    var r := DepthIndex(graph, subgraphs).value;
    assert Bucketed(graph, player, keys, r);
    forall k | InSubgraphs(subgraphs, k) ensures exists d :: 0 <= d < |r| && k in r[d] {
      assert k in keys;
      var d := Depth(graph, player, k).value;
      assert k in r[d];
    }
  }

  /** On success there is at least one bucket, and the last one is not empty. */
  lemma LastBucketTaken(graph: Graph<Country>, subgraphs: seq<Graph<Country>>)
    requires |subgraphs| > 0 && subgraphs[0].vertexMap.Keys != {}
    requires graph.Valid() && OwnedSubgraphs(graph, subgraphs)
    requires DepthIndex(graph, subgraphs).Success?
    ensures |DepthIndex(graph, subgraphs).value| > 0
    ensures DepthIndex(graph, subgraphs).value[|DepthIndex(graph, subgraphs).value| - 1] != {}
  {
    var player := FirstPlayer(subgraphs);
    var keys := SubgraphKeys(subgraphs);
    DepthsOfBuckets(graph, player, keys);
    var k0 := Least(subgraphs[0].vertexMap.Keys);
    assert InSubgraphs(subgraphs, k0);
    assert k0 in keys;
  }

  /** A country of the subgraphs next to a country of another player has depth 0. */
  lemma FrontierHasDepthZero(graph: Graph<Country>, subgraphs: seq<Graph<Country>>, k: Key, j: Key)
    requires |subgraphs| > 0 && subgraphs[0].vertexMap.Keys != {}
    requires graph.Valid() && OwnedSubgraphs(graph, subgraphs)
    requires InSubgraphs(subgraphs, k) && graph.Adjacent(k, j)
    requires j in graph.vertexMap && graph.vertexMap[j].player != FirstPlayer(subgraphs)
    ensures DepthIndex(graph, subgraphs).Success? ==>
              |DepthIndex(graph, subgraphs).value| > 0 && k in DepthIndex(graph, subgraphs).value[0]
  {
    var player := FirstPlayer(subgraphs);
    var p := Foreign(player);
    DistanceZero(graph, p, j);
    DistanceNeighbour(graph, p, k, j);
    DistanceZero(graph, p, k);
    if DepthIndex(graph, subgraphs).Success? {
      DepthIndexBuckets(graph, subgraphs);
      DepthIndexCovers(graph, subgraphs);
    }
  }

  /** Every occupied country next to one of the subgraphs' countries that its
      player occupies is itself in a subgraph: the subgraphs are the whole of
      the player's connected territories. */
  ghost predicate WholeTerritories(graph: Graph<Country>, subgraphs: seq<Graph<Country>>)
    requires |subgraphs| > 0 && subgraphs[0].vertexMap.Keys != {}
  {
    forall k, j :: InSubgraphs(subgraphs, k) && graph.Adjacent(k, j) && Owned(graph, FirstPlayer(subgraphs), j) ==>
      InSubgraphs(subgraphs, j)
  }

  /** A country at depth `d + 1` has a neighbour in the subgraphs at depth `d`. */
  lemma DepthStep(graph: Graph<Country>, subgraphs: seq<Graph<Country>>, k: Key, d: nat) returns (y: Key)
    requires graph.Valid() && |subgraphs| > 0 && subgraphs[0].vertexMap.Keys != {}
    requires OwnedSubgraphs(graph, subgraphs) && WholeTerritories(graph, subgraphs)
    requires InSubgraphs(subgraphs, k) && Distance(graph, Foreign(FirstPlayer(subgraphs)), k) == Some(d + 2)
    ensures InSubgraphs(subgraphs, y) && Distance(graph, Foreign(FirstPlayer(subgraphs)), y) == Some(d + 1)
  {
    var player := FirstPlayer(subgraphs);
    var p := Foreign(player);
    y := DistanceNext(graph, p, k);
    assert y in graph.adjacencyMap;
    DistanceZero(graph, p, y);
    assert graph.Get(y) == Some(graph.vertexMap[y]);
    assert Owned(graph, player, y);
  }

  /** Bucket `d` of `r` holds exactly the countries of the subgraphs whose
      distance to a foreign country is `d + 1`. */
  ghost predicate Layered(graph: Graph<Country>, subgraphs: seq<Graph<Country>>, r: seq<set<Key>>)
    requires |subgraphs| > 0 && subgraphs[0].vertexMap.Keys != {}
  {
    forall d, k :: 0 <= d < |r| ==>
      (k in r[d] <==> InSubgraphs(subgraphs, k) && Distance(graph, Foreign(FirstPlayer(subgraphs)), k) == Some(d + 1))
  }

  /** The depth index is layered by distance. */
  lemma DepthIndexLayered(graph: Graph<Country>, subgraphs: seq<Graph<Country>>)
    requires |subgraphs| > 0 && subgraphs[0].vertexMap.Keys != {}
    requires graph.Valid() && OwnedSubgraphs(graph, subgraphs)
    requires DepthIndex(graph, subgraphs).Success?
    ensures Layered(graph, subgraphs, DepthIndex(graph, subgraphs).value)
  {
    DepthIndexBuckets(graph, subgraphs);
  }

  /** When the subgraphs are whole territories, a list layered by distance
      whose last bucket is taken has every bucket taken. */
  lemma LayersHaveNoGaps(graph: Graph<Country>, subgraphs: seq<Graph<Country>>)
    requires graph.Valid() && |subgraphs| > 0 && subgraphs[0].vertexMap.Keys != {}
    requires OwnedSubgraphs(graph, subgraphs) && WholeTerritories(graph, subgraphs)
    ensures forall r :: Layered(graph, subgraphs, r) && |r| > 0 && r[|r| - 1] != {} ==>
              forall d :: 0 <= d < |r| ==> r[d] != {}
  {
    forall r | Layered(graph, subgraphs, r) && |r| > 0 && r[|r| - 1] != {}
      ensures forall d :: 0 <= d < |r| ==> r[d] != {}
    {
      TakenBelow(graph, subgraphs, r, |r| - 1);
    }
  }

  /** When the subgraphs are whole territories, a taken bucket's predecessor is taken too. */
  lemma BucketBelow(graph: Graph<Country>, subgraphs: seq<Graph<Country>>, r: seq<set<Key>>, d: nat)
    requires graph.Valid() && |subgraphs| > 0 && subgraphs[0].vertexMap.Keys != {}
    requires OwnedSubgraphs(graph, subgraphs) && WholeTerritories(graph, subgraphs)
    requires Layered(graph, subgraphs, r)
    requires 0 < d < |r| && r[d] != {}
    ensures r[d - 1] != {}
  {
    var k := Least(r[d]);
    assert InSubgraphs(subgraphs, k) && Distance(graph, Foreign(FirstPlayer(subgraphs)), k) == Some(d + 1);
    var y := DepthStep(graph, subgraphs, k, d - 1);
    assert y in r[d - 1];
  }

  /** When the subgraphs are whole territories, the depth index has no empty
      bucket: every depth below the deepest is taken by some country. */
  lemma DepthIndexHasNoGaps(graph: Graph<Country>, subgraphs: seq<Graph<Country>>)
    requires graph.Valid() && |subgraphs| > 0 && subgraphs[0].vertexMap.Keys != {}
    requires OwnedSubgraphs(graph, subgraphs) && WholeTerritories(graph, subgraphs)
    requires DepthIndex(graph, subgraphs).Success?
    ensures forall d :: 0 <= d < |DepthIndex(graph, subgraphs).value| ==> DepthIndex(graph, subgraphs).value[d] != {}
  {
    LastBucketTaken(graph, subgraphs);
    DepthIndexLayered(graph, subgraphs);
    LayersHaveNoGaps(graph, subgraphs);
  }

  /** When the subgraphs are whole territories, every bucket up to a taken
      one is taken. */
  lemma {:induction false} TakenBelow(graph: Graph<Country>, subgraphs: seq<Graph<Country>>, r: seq<set<Key>>, d: nat)
    requires graph.Valid() && |subgraphs| > 0 && subgraphs[0].vertexMap.Keys != {}
    requires OwnedSubgraphs(graph, subgraphs) && WholeTerritories(graph, subgraphs)
    requires Layered(graph, subgraphs, r)
    requires d < |r| && r[d] != {}
    ensures forall e :: 0 <= e <= d ==> r[e] != {}
    decreases d
  {
    if d > 0 {
      BucketBelow(graph, subgraphs, r, d);
      TakenBelow(graph, subgraphs, r, d - 1);
    }
  }

  // ---------------------------------------------------------------------
  // calculateTotalReinforcements
  // ---------------------------------------------------------------------

  /** The number of countries of a subgraph (`subgraph.size`). */
  function Size(g: Graph<Country>): nat
  {
    |g.vertexMap.Keys|
  }

  /** `F.maximumBy(core.bySize, subgraphs).size`: the size of the largest subgraph. */
  function MaxSize(subgraphs: seq<Graph<Country>>): (r: nat)
    requires |subgraphs| > 0
    ensures forall i :: 0 <= i < |subgraphs| ==> Size(subgraphs[i]) <= r
    ensures exists i :: 0 <= i < |subgraphs| && Size(subgraphs[i]) == r
  {
    if |subgraphs| == 1 then Size(subgraphs[0])
    else
      var m := MaxSize(subgraphs[1..]);
      assert forall i :: 1 <= i < |subgraphs| ==> subgraphs[i] == subgraphs[1..][i - 1];
      var i :| 0 <= i < |subgraphs[1..]| && Size(subgraphs[1..][i]) == m;
      assert subgraphs[i + 1] == subgraphs[1..][i];
      if Size(subgraphs[0]) >= m then Size(subgraphs[0]) else m
  }

  /** The sum of the available slots of some countries. */
  function SlotSum(cs: seq<Country>): int
  {
    if cs == [] then 0 else cs[0].availableSlots + SlotSum(cs[1..])
  }

  /** `subgraph.values()`, in key order: position `i` holds the value of the
      `i`-th key, and `ElementsDistinct` lists each key once. */
  function Values(g: Graph<Country>): (r: seq<Country>)
    ensures |r| == Size(g) && |r| == |Elements(g.vertexMap.Keys)|
    ensures forall i :: 0 <= i < |r| ==> r[i] == g.vertexMap[Elements(g.vertexMap.Keys)[i]]
    ensures forall c :: c in r <==> c in g.vertexMap.Values
  {
    var ks := Elements(g.vertexMap.Keys);
    var r := seq(|ks|, i requires 0 <= i < |ks| => g.vertexMap[ks[i]]);
    forall c | c in g.vertexMap.Values ensures c in r {
      var k :| k in g.vertexMap && g.vertexMap[k] == c;
      var i :| 0 <= i < |ks| && ks[i] == k;
      assert r[i] == c;
    }
    r
  }

  /** The available slots summed over every country of the subgraphs. */
  function TotalAvailableSlots(subgraphs: seq<Graph<Country>>): int
  {
    if subgraphs == [] then 0 else SlotSum(Values(subgraphs[0])) + TotalAvailableSlots(subgraphs[1..])
  }

  /** `calculateTotalReinforcements(subgraphs)`: the smaller of the largest
      subgraph's size and the total available slots. */
  function CalculateTotalReinforcements(subgraphs: seq<Graph<Country>>): (r: int)
    requires |subgraphs| > 0
    ensures r <= TotalAvailableSlots(subgraphs)
    ensures forall i :: 0 <= i < |subgraphs| ==> r <= MaxSize(subgraphs) && Size(subgraphs[i]) <= MaxSize(subgraphs)
    ensures r == MaxSize(subgraphs) || r == TotalAvailableSlots(subgraphs)
  {
    var m := MaxSize(subgraphs);
    var t := TotalAvailableSlots(subgraphs);
    if m <= t then m else t
  }

  /** No country of the subgraphs reports a negative number of available slots. */
  ghost predicate WithinSlots(subgraphs: seq<Graph<Country>>)
  {
    forall i, k :: 0 <= i < |subgraphs| && k in subgraphs[i].vertexMap ==>
      subgraphs[i].vertexMap[k].availableSlots >= 0
  }

  lemma {:induction false} SlotSumNonNegative(cs: seq<Country>)
    requires forall c :: c in cs ==> c.availableSlots >= 0
    ensures SlotSum(cs) >= 0
    decreases |cs|
  {
    if cs != [] {
      assert forall c :: c in cs[1..] ==> c in cs;
      SlotSumNonNegative(cs[1..]);
    }
  }

  /** When no country reports negative available slots, the budget is not negative. */
  lemma {:induction false} BudgetNonNegative(subgraphs: seq<Graph<Country>>)
    requires |subgraphs| > 0 && WithinSlots(subgraphs)
    ensures CalculateTotalReinforcements(subgraphs) >= 0
  {
    TotalSlotsNonNegative(subgraphs);
  }

  lemma {:induction false} TotalSlotsNonNegative(subgraphs: seq<Graph<Country>>)
    requires WithinSlots(subgraphs)
    ensures TotalAvailableSlots(subgraphs) >= 0
    decreases |subgraphs|
  {
    if subgraphs != [] {
      var vs := Values(subgraphs[0]);
      forall c | c in vs ensures c.availableSlots >= 0 {
        var k :| k in subgraphs[0].vertexMap && subgraphs[0].vertexMap[k] == c;
      }
      SlotSumNonNegative(vs);
      forall i, k | 0 <= i < |subgraphs[1..]| && k in subgraphs[1..][i].vertexMap
        ensures subgraphs[1..][i].vertexMap[k].availableSlots >= 0
      {
        assert subgraphs[1..][i] == subgraphs[i + 1];
      }
      TotalSlotsNonNegative(subgraphs[1..]);
    }
  }

  // ---------------------------------------------------------------------
  // reinforcementMap
  // ---------------------------------------------------------------------

  /** One `[key, bs[index]]` pair; the amount is missing (`undefined`) when
      `distribute` returned fewer amounts than there are keys. */
  type Pair = (Key, Option<int>)

  /** `core.distribute(n, as)`: amounts for the availabilities `as`, given a
      budget `n`; its definition is not part of this model. */
  type Distribute = (int, seq<int>) -> seq<int>

  /** `F.sum`. */
  function Sum(s: seq<int>): int
  {
    if s == [] then 0 else s[0] + Sum(s[1..])
  }

  /** Every key of the buckets is a country of the graph. */
  predicate Listed(graph: Graph<Country>, buckets: seq<seq<Key>>)
  {
    forall d, i :: 0 <= d < |buckets| && 0 <= i < |buckets[d]| ==> buckets[d][i] in graph.vertexMap
  }

  /** `keys.map(key => graph.get(key)).map(F.get('availableSlots'))`. */
  function Availability(graph: Graph<Country>, keys: seq<Key>): (r: seq<int>)
    requires forall i :: 0 <= i < |keys| ==> keys[i] in graph.vertexMap
    ensures |r| == |keys| && forall i :: 0 <= i < |keys| ==> r[i] == graph.vertexMap[keys[i]].availableSlots
  {
    seq(|keys|, i requires 0 <= i < |keys| => graph.vertexMap[keys[i]].availableSlots)
  }

  /** The pairs one bucket appends, `keys.reduce((result, key, index) =>
      F.append([key, bs[index]], result), result)`: each key with the amount
      at its position. When there is one amount per key, the pairs carry
      exactly the amounts `distribute` handed out. */
  function Pairs(keys: seq<Key>, bs: seq<int>): (r: seq<Pair>)
    ensures |r| == |keys|
    ensures forall i :: 0 <= i < |keys| ==> r[i].0 == keys[i] && (r[i].1.Some? <==> i < |bs|)
    ensures forall i :: 0 <= i < |keys| && i < |bs| ==> r[i].1 == Some(bs[i])
    ensures |bs| == |keys| ==> Emitted(r) == Sum(bs)
  {
    var r := seq(|keys|, i requires 0 <= i < |keys| => (keys[i], if i < |bs| then Some(bs[i]) else None));
    if |bs| == |keys| then EmittedAmounts(r, bs); r else r
  }

  /** The `depthIndex.reduce` of `reinforcementMap`: the remaining budget and
      the pairs emitted so far, after walking the buckets in order. */
  function Run(graph: Graph<Country>, distribute: Distribute, n: int, buckets: seq<seq<Key>>): (r: (int, seq<Pair>))
    requires Listed(graph, buckets)
    decreases |buckets|
  {
    if buckets == [] then (n, [])
    else
      var front := buckets[..|buckets| - 1];
      var keys := buckets[|buckets| - 1];
      var (m, result) := Run(graph, distribute, n, front);
      var bs := distribute(m, Availability(graph, keys));
      (m - Sum(bs), result + Pairs(keys, bs))
  }

  /** `reinforcementMap(graph, subgraphs, depthIndex)`: one pair per key of
      the depth index, in bucket-then-position order. */
  function ReinforcementMap(graph: Graph<Country>, subgraphs: seq<Graph<Country>>, depthIndex: seq<seq<Key>>,
                            distribute: Distribute): (r: seq<Pair>)
    requires |subgraphs| > 0 && Listed(graph, depthIndex)
    ensures |r| == |Flatten(depthIndex)|
    ensures forall i :: 0 <= i < |r| ==> r[i].0 == Flatten(depthIndex)[i]
  {
    RunKeys(graph, distribute, CalculateTotalReinforcements(subgraphs), depthIndex);
    Run(graph, distribute, CalculateTotalReinforcements(subgraphs), depthIndex).1
  }

  /** The buckets' keys in bucket-then-position order. */
  function Flatten(buckets: seq<seq<Key>>): (r: seq<Key>)
    decreases |buckets|
  {
    if buckets == [] then [] else Flatten(buckets[..|buckets| - 1]) + buckets[|buckets| - 1]
  }

  /** The budget handed to bucket `d`. */
  function Budget(graph: Graph<Country>, distribute: Distribute, n: int, buckets: seq<seq<Key>>, d: nat): int
    requires Listed(graph, buckets) && d <= |buckets|
  {
    Run(graph, distribute, n, buckets[..d]).0
  }

  /** The fold over a prefix of the buckets is the start of the fold over all of them. */
  lemma {:induction false} RunPrefix(graph: Graph<Country>, distribute: Distribute, n: int, buckets: seq<seq<Key>>, d: nat)
    requires Listed(graph, buckets) && d <= |buckets|
    ensures Run(graph, distribute, n, buckets[..d]).1 <= Run(graph, distribute, n, buckets).1
    ensures |Flatten(buckets[..d])| <= |Flatten(buckets)|
    decreases |buckets|
  {
    if d < |buckets| {
      var front := buckets[..|buckets| - 1];
      assert buckets[..d] == front[..d];
      RunPrefix(graph, distribute, n, front, d);
    } else {
      assert buckets[..d] == buckets;
    }
  }

  /** `reinforcementMap` emits one pair for each key of the buckets, in
      bucket-then-position order. */
  lemma {:induction false} RunKeys(graph: Graph<Country>, distribute: Distribute, n: int, buckets: seq<seq<Key>>)
    requires Listed(graph, buckets)
    ensures |Run(graph, distribute, n, buckets).1| == |Flatten(buckets)|
    ensures forall i :: 0 <= i < |Flatten(buckets)| ==> Run(graph, distribute, n, buckets).1[i].0 == Flatten(buckets)[i]
    decreases |buckets|
  {
    if buckets != [] {
      var front := buckets[..|buckets| - 1];
      RunKeys(graph, distribute, n, front);
      var r := Run(graph, distribute, n, buckets).1;
      var f := Flatten(buckets);
      var keys := buckets[|buckets| - 1];
      var bs := distribute(Run(graph, distribute, n, front).0, Availability(graph, keys));
      assert r == Run(graph, distribute, n, front).1 + Pairs(keys, bs);
      forall i | 0 <= i < |f| ensures r[i].0 == f[i] {
        if i >= |Flatten(front)| {
          assert f[i] == keys[i - |Flatten(front)|];
        }
      }
    }
  }

  /** The key at position `i` of bucket `d` is emitted at its place in the
      flattened order, with the amount at position `i` of what `distribute`
      returned for bucket `d` from the budget left for it. */
  lemma RunPositions(graph: Graph<Country>, distribute: Distribute, n: int, buckets: seq<seq<Key>>, d: nat, i: nat)
    requires Listed(graph, buckets) && d < |buckets| && i < |buckets[d]|
    ensures var bs := distribute(Budget(graph, distribute, n, buckets, d), Availability(graph, buckets[d]));
            var r := Run(graph, distribute, n, buckets).1;
            |Flatten(buckets[..d])| + i < |r| &&
            r[|Flatten(buckets[..d])| + i] == (buckets[d][i], if i < |bs| then Some(bs[i]) else None)
  {
    var b := buckets[..d + 1];
    var before := Run(graph, distribute, n, buckets[..d]);
    var bs := distribute(before.0, Availability(graph, buckets[d]));
    var ps := Pairs(buckets[d], bs);
    BucketStep(graph, distribute, n, buckets, d);
    RunPrefix(graph, distribute, n, buckets, d + 1);
    RunKeys(graph, distribute, n, buckets[..d]);
    PrefixAt(before.1, ps, Run(graph, distribute, n, buckets).1, i);
  }

  lemma PrefixAt(front: seq<Pair>, ps: seq<Pair>, whole: seq<Pair>, i: nat)
    requires front + ps <= whole && i < |ps|
    ensures |front| + i < |whole| && whole[|front| + i] == ps[i]
  {
    assert (front + ps)[|front| + i] == ps[i];
  }

  /** Bucket `d` appends its pairs to those of the buckets before it. */
  lemma BucketStep(graph: Graph<Country>, distribute: Distribute, n: int, buckets: seq<seq<Key>>, d: nat)
    requires Listed(graph, buckets) && d < |buckets|
    ensures Run(graph, distribute, n, buckets[..d + 1]).1 ==
              Run(graph, distribute, n, buckets[..d]).1 +
              Pairs(buckets[d], distribute(Budget(graph, distribute, n, buckets, d), Availability(graph, buckets[d])))
  {
    var b := buckets[..d + 1];
    assert b[..|b| - 1] == buckets[..d];
    assert b[|b| - 1] == buckets[d];
  }

  /** The sum of the amounts present in some pairs. */
  function Emitted(pairs: seq<Pair>): int
  {
    if pairs == [] then 0 else (if pairs[0].1.Some? then pairs[0].1.value else 0) + Emitted(pairs[1..])
  }

  /** Pairs carrying, position by position, the amounts `bs` emit their sum. */
  lemma {:induction false} EmittedAmounts(r: seq<Pair>, bs: seq<int>)
    requires |r| == |bs| && forall i :: 0 <= i < |r| ==> r[i].1 == Some(bs[i])
    ensures Emitted(r) == Sum(bs)
    decreases |r|
  {
    if r != [] {
      EmittedAmounts(r[1..], bs[1..]);
    }
  }

  lemma {:induction false} EmittedAppend(a: seq<Pair>, b: seq<Pair>)
    ensures Emitted(a + b) == Emitted(a) + Emitted(b)
    decreases |a|
  {
    if a != [] {
      assert (a + b)[0] == a[0];
      assert (a + b)[1..] == a[1..] + b;
      assert Emitted(a + b) == (if a[0].1.Some? then a[0].1.value else 0) + Emitted(a[1..] + b);
      EmittedAppend(a[1..], b);
    } else {
      assert a + b == b;
    }
  }

  /** `distribute` returns one amount per availability. */
  ghost predicate DistributesAll(distribute: Distribute)
  {
    forall m, avail: seq<int> :: |distribute(m, avail)| == |avail|
  }

  /** When `distribute` returns one amount per country, the budget left after
      the buckets is the initial budget less every amount emitted for them;
      applied to `buckets[..d]`, it is the budget bucket `d` receives. */
  lemma {:induction false} RunBudget(graph: Graph<Country>, distribute: Distribute, n: int, buckets: seq<seq<Key>>)
    requires Listed(graph, buckets) && DistributesAll(distribute)
    ensures Run(graph, distribute, n, buckets).0 == n - Emitted(Run(graph, distribute, n, buckets).1)
    decreases |buckets|
  {
    if buckets != [] {
      var front := buckets[..|buckets| - 1];
      RunBudget(graph, distribute, n, front);
      var keys := buckets[|buckets| - 1];
      var (m, result) := Run(graph, distribute, n, front);
      var bs := distribute(m, Availability(graph, keys));
      EmittedAppend(result, Pairs(keys, bs));
    }
  }

  /** `distribute` never hands out more than its budget, nor a negative total. */
  ghost predicate WithinBudget(distribute: Distribute)
  {
    forall m, avail: seq<int> :: m >= 0 ==> 0 <= Sum(distribute(m, avail)) <= m
  }

  /** When `distribute` keeps within its budget, a non-negative budget stays
      non-negative and never grows from bucket to bucket. */
  lemma {:induction false} RunStaysWithinBudget(graph: Graph<Country>, distribute: Distribute, n: int, buckets: seq<seq<Key>>)
    requires Listed(graph, buckets) && WithinBudget(distribute) && n >= 0
    ensures 0 <= Run(graph, distribute, n, buckets).0 <= n
    ensures forall d :: 0 <= d < |buckets| ==>
              Budget(graph, distribute, n, buckets, d + 1) <= Budget(graph, distribute, n, buckets, d)
    decreases |buckets|
  {
    if buckets != [] {
      var front := buckets[..|buckets| - 1];
      RunStaysWithinBudget(graph, distribute, n, front);
      forall d | 0 <= d < |buckets|
        ensures Budget(graph, distribute, n, buckets, d + 1) <= Budget(graph, distribute, n, buckets, d)
      {
        var b := buckets[..d + 1];
        assert b[..|b| - 1] == buckets[..d];
        RunStaysWithinBudget(graph, distribute, n, buckets[..d]);
      }
    }
  }

  /** The buckets of a depth index, each in ascending key order. */
  function BucketLists(buckets: seq<set<Key>>): (r: seq<seq<Key>>)
    ensures |r| == |buckets| && forall d :: 0 <= d < |buckets| ==> r[d] == Elements(buckets[d])
  {
    seq(|buckets|, d requires 0 <= d < |buckets| => Elements(buckets[d]))
  }

  /** No key appears twice. */
  ghost predicate Distinct(s: seq<Key>)
  {
    forall i, j :: 0 <= i < j < |s| ==> s[i] != s[j]
  }

  /** Flattening buckets that list distinct keys and share none lists every
      key of theirs once. */
  lemma {:induction false} FlattenDistinct(buckets: seq<seq<Key>>)
    requires forall d :: 0 <= d < |buckets| ==> Distinct(buckets[d])
    requires forall d, e, k :: 0 <= d < e < |buckets| && k in buckets[d] ==> k !in buckets[e]
    ensures Distinct(Flatten(buckets))
    ensures forall k :: k in Flatten(buckets) <==> exists d :: 0 <= d < |buckets| && k in buckets[d]
    decreases |buckets|
  {
    if buckets != [] {
      var front := buckets[..|buckets| - 1];
      var last := buckets[|buckets| - 1];
      FlattenDistinct(front);
      var f := Flatten(front);
      assert Flatten(buckets) == f + last;
      forall i, j | 0 <= i < j < |f + last| ensures (f + last)[i] != (f + last)[j] {
        if i < |f| && j >= |f| {
          assert (f + last)[i] == f[i];
          assert f[i] in f;
          var d :| 0 <= d < |front| && (f + last)[i] in front[d];
          assert (f + last)[j] == last[j - |f|];
        } else if i >= |f| {
          assert (f + last)[i] == last[i - |f|] && (f + last)[j] == last[j - |f|];
        }
      }
      forall k ensures k in f + last <==> exists d :: 0 <= d < |buckets| && k in buckets[d] {
        if k in last {
          assert k in buckets[|buckets| - 1];
        }
        if k in f {
          var d :| 0 <= d < |front| && k in front[d];
          assert k in buckets[d];
        }
        if exists d :: 0 <= d < |buckets| && k in buckets[d] {
          var d :| 0 <= d < |buckets| && k in buckets[d];
          if d < |front| {
            assert k in front[d];
          }
        }
      }
    }
  }

  /** The keys of a successful depth index are countries of the graph. */
  lemma DepthIndexListed(graph: Graph<Country>, subgraphs: seq<Graph<Country>>)
    requires |subgraphs| > 0 && subgraphs[0].vertexMap.Keys != {}
    requires graph.Valid() && OwnedSubgraphs(graph, subgraphs) && DepthIndex(graph, subgraphs).Success?
    ensures Listed(graph, BucketLists(DepthIndex(graph, subgraphs).value))
  {
    var b := DepthIndex(graph, subgraphs).value;
    var lists := BucketLists(b);
    forall d, i | 0 <= d < |lists| && 0 <= i < |lists[d]| ensures lists[d][i] in graph.vertexMap {
      assert lists[d][i] in b[d];
      BucketAt(graph, subgraphs, d, lists[d][i]);
    }
  }

  /** The flattened depth index lists each country of the subgraphs once. */
  lemma FlatDepthIndex(graph: Graph<Country>, subgraphs: seq<Graph<Country>>)
    requires |subgraphs| > 0 && subgraphs[0].vertexMap.Keys != {}
    requires graph.Valid() && OwnedSubgraphs(graph, subgraphs) && DepthIndex(graph, subgraphs).Success?
    ensures Distinct(Flatten(BucketLists(DepthIndex(graph, subgraphs).value)))
    ensures forall k :: k in Flatten(BucketLists(DepthIndex(graph, subgraphs).value)) <==> InSubgraphs(subgraphs, k)
  {
    DepthIndexLayered(graph, subgraphs);
    DepthIndexCovers(graph, subgraphs);
    assert Covering(subgraphs, DepthIndex(graph, subgraphs).value);
    FlatLayers(graph, subgraphs);
  }

  /** Every country of the subgraphs lies in some bucket of `r`. */
  ghost predicate Covering(subgraphs: seq<Graph<Country>>, r: seq<set<Key>>)
  {
    forall k :: InSubgraphs(subgraphs, k) ==> exists d :: 0 <= d < |r| && k in r[d]
  }

  /** Flattening a list layered by distance that covers the subgraphs lists
      each country of the subgraphs once. */
  lemma FlatLayers(graph: Graph<Country>, subgraphs: seq<Graph<Country>>)
    requires |subgraphs| > 0 && subgraphs[0].vertexMap.Keys != {}
    ensures forall r :: Layered(graph, subgraphs, r) && Covering(subgraphs, r) ==>
              Distinct(Flatten(BucketLists(r))) &&
              forall k :: k in Flatten(BucketLists(r)) <==> InSubgraphs(subgraphs, k)
  {
    forall r | Layered(graph, subgraphs, r) && Covering(subgraphs, r)
      ensures Distinct(Flatten(BucketLists(r)))
      ensures forall k :: k in Flatten(BucketLists(r)) <==> InSubgraphs(subgraphs, k)
    {
      LayersApart(graph, subgraphs, r);
      FlatBuckets(subgraphs, r);
    }
  }

  /** The buckets of a list layered by distance share no key and hold only
      countries of the subgraphs. */
  lemma LayersApart(graph: Graph<Country>, subgraphs: seq<Graph<Country>>, r: seq<set<Key>>)
    requires |subgraphs| > 0 && subgraphs[0].vertexMap.Keys != {}
    requires Layered(graph, subgraphs, r)
    ensures forall d, e, k :: 0 <= d < e < |r| && k in r[d] ==> k !in r[e]
    ensures forall d, k :: 0 <= d < |r| && k in r[d] ==> InSubgraphs(subgraphs, k)
  {
    var p := Foreign(FirstPlayer(subgraphs));
    forall d, e, k | 0 <= d < e < |r| && k in r[d] ensures k !in r[e] {
      assert Distance(graph, p, k) == Some(d + 1);
    }
  }

  /** Flattening buckets that share no key and cover the subgraphs with their
      countries lists each country of the subgraphs once. */
  lemma FlatBuckets(subgraphs: seq<Graph<Country>>, r: seq<set<Key>>)
    requires forall d, e, k :: 0 <= d < e < |r| && k in r[d] ==> k !in r[e]
    requires forall d, k :: 0 <= d < |r| && k in r[d] ==> InSubgraphs(subgraphs, k)
    requires Covering(subgraphs, r)
    ensures Distinct(Flatten(BucketLists(r)))
    ensures forall k :: k in Flatten(BucketLists(r)) <==> InSubgraphs(subgraphs, k)
  {
    var lists := BucketLists(r);
    forall d | 0 <= d < |lists| ensures Distinct(lists[d]) {
      ElementsDistinct(r[d]);
    }
    forall d, e, k | 0 <= d < e < |lists| && k in lists[d] ensures k !in lists[e] {
      assert k in r[d];
    }
    FlattenDistinct(lists);
    forall k ensures k in Flatten(lists) <==> InSubgraphs(subgraphs, k) {
      if InSubgraphs(subgraphs, k) {
        var d :| 0 <= d < |r| && k in r[d];
        assert k in lists[d];
      }
      if k in Flatten(lists) {
        var d :| 0 <= d < |lists| && k in lists[d];
        assert k in r[d];
      }
    }
  }

  /** Reinforcing from a successful depth index emits one pair for each
      country of the subgraphs, and for no other key. */
  lemma ReinforcedOnce(graph: Graph<Country>, subgraphs: seq<Graph<Country>>, distribute: Distribute)
    requires |subgraphs| > 0 && subgraphs[0].vertexMap.Keys != {}
    requires graph.Valid() && OwnedSubgraphs(graph, subgraphs) && DepthIndex(graph, subgraphs).Success?
    requires Listed(graph, BucketLists(DepthIndex(graph, subgraphs).value))
    ensures var r := ReinforcementMap(graph, subgraphs, BucketLists(DepthIndex(graph, subgraphs).value), distribute);
            (forall k :: InSubgraphs(subgraphs, k) <==> exists i :: 0 <= i < |r| && r[i].0 == k) &&
            (forall i, j :: 0 <= i < j < |r| ==> r[i].0 != r[j].0)
  {
    var lists := BucketLists(DepthIndex(graph, subgraphs).value);
    var n := CalculateTotalReinforcements(subgraphs);
    FlatDepthIndex(graph, subgraphs);
    RunKeys(graph, distribute, n, lists);
    KeyColumn(Run(graph, distribute, n, lists).1, Flatten(lists));
  }

  /** Pairs whose keys are, position by position, a list of distinct keys
      hold each key of that list once and no other key. */
  lemma KeyColumn(r: seq<Pair>, f: seq<Key>)
    requires |r| == |f| && forall i :: 0 <= i < |f| ==> r[i].0 == f[i]
    requires Distinct(f)
    ensures forall k :: k in f <==> exists i :: 0 <= i < |r| && r[i].0 == k
    ensures forall i, j :: 0 <= i < j < |r| ==> r[i].0 != r[j].0
  {
    forall k ensures k in f <==> exists i :: 0 <= i < |r| && r[i].0 == k {
      if k in f {
        var i :| 0 <= i < |f| && f[i] == k;
        assert r[i].0 == k;
      }
      if exists i :: 0 <= i < |r| && r[i].0 == k {
        var i :| 0 <= i < |r| && r[i].0 == k;
        assert f[i] in f;
      }
    }
  }
}
