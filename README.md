# Risk: graph, reinforcement, game and world core in Dafny

This project models the core of a browser Risk game. The core has four parts:

- **The country graph** (`src/graph.js`). An immutable map from keys to country values and an undirected adjacency map. On it sit:
  - the structural edits: add or remove an edge, remove a vertex, filter, merge, update;
  - the depth-first `traverse`;
  - the breadth-first `shortestPathBy`, which rebuilds its path from a parent map;
  - the connected-component decomposition.
- **The reinforcement engine** (`src/reinforcement.js`):
  - `depthIndex` buckets a player's countries by the length of the shortest path to a country that player does not occupy;
  - `calculateTotalReinforcements` is the budget: the smaller of the largest territory's size and the total free slots;
  - `reinforcementMap` hands the budget out bucket by bucket.
- **The game's selection state machine** (`src/game.js`): its legality predicates and its transitions, each returning a new snapshot.
- **The legacy `World#move`** (`src/world.js`): a guarded update, in place, of two army counters.

## Module layout

| file | module | form |
|---|---|---|
| `common.dfy` | `Common` | `Option` and `Result` |
| `entities.dfy` | `Entities` | `Player` and `Country` values |
| `graph.dfy` | `Graphs` | datatype `Graph<V>` with member functions, and the adjacency-map helpers |
| `graph_search.dfy` | `GraphSearch` | `traverse` and `connectedComponents` as functions; `shortestPathBy` as a method |
| `reinforcement.dfy` | `Reinforcement` | functions over sequences |
| `game.dfy` | `Games` | datatype `Game<W>` |
| `world.dfy` | `Worlds` | classes `World` and `Country` with field-level `modifies` |

More on specific parts:

- **Shortest path.** `shortestPathBy` is a method with a `while` loop over the frontier queue and the parent map. It is proved against `Distance`, a function giving the breadth-first layer at which the predicate first holds.
- **Reinforcement.** `depthIndex` is expressed through `Distance`, because a function cannot call the method. The method is proved to return a path of exactly that length.
- **Game.** The world operations the game calls are parameters: `assignPlayers`, `countriesOccupiedByPlayer`, `reinforce`, the three-argument `move`, and `hasNeighbour`.
- **Distribution.** `core.distribute` is a function parameter. Facts about the budget are proved under stated assumptions about it.

## Model

| member | source | states |
|---|---|---|
| Graphs.AddEdgeTo | src/graph.js:15-19 | `addEdge` links `k` to `j` and `j` to `k`, creating missing sets. No other key's set changes, and a symmetric map stays symmetric |
| Graphs.RemoveEdgeFrom | src/graph.js:21-25 | `removeEdge` unlinks both directions and leaves (possibly empty) entries for both keys. No other key's set changes, and symmetry is kept |
| Graphs.RemoveVertexEdges | src/graph.js:27-42 | removing `k` drops `k`'s entry and deletes `k` from exactly the neighbours in `k`'s set; with no entry for `k` the map is unchanged. On a symmetric map no remaining set mentions `k` |
| Graphs.RemoveAll | src/graph.js:299-302 | the fold of `removeVertex` over a list of keys keeps the adjacency map symmetric |
| Graphs.RemoveAllClosedForm | src/graph.js:299-302 | folding `removeVertex` over a list of keys, in any order, removes exactly those keys from the vertex map and from the adjacency map, and every mention of them |
| Graphs.ById | src/graph.js:151-153 | the vertex map holds every value's id, maps each id to a value with that id, and on repeated ids keeps the last value |
| Graphs.FromEdges | src/graph.js:155-158 | the adjacency map reduced from an edge list is symmetric, has no empty set, and links `k` and `j` exactly when `[k, j]` or `[j, k]` is an edge |
| Graphs.FromEdgesKeys | src/graph.js:155-158 | the keys of that adjacency map are exactly the edges' endpoints |
| Graphs.New | src/graph.js:147-160 | the constructor's vertex map is keyed by id, its adjacency is symmetric, and two keys are adjacent exactly when an edge joins them in either direction |
| Graphs.NewIsValid | src/graph.js:147-160 | when every edge joins two listed values, the new graph has symmetric adjacency and no adjacency key outside the vertex map |
| Graphs.Graph.Get | src/graph.js:184-186 | `get(k)` is the value at `k`, or nothing when `k` is absent |
| Graphs.Graph.Merge | src/graph.js:191-195 | `merge(as)` upserts the values by id, with the last of equal ids winning. Keys neither in `as` nor before stay absent, other values are kept, the adjacency map is untouched and the invariant is kept |
| Graphs.Graph.Update | src/graph.js:200-203 | `update(k, f)` sets vertex `k` to `f` of its old value (or of nothing). Every other vertex and the adjacency map are unchanged |
| Graphs.Graph.AddVertex | src/graph.js:235-238 | `addVertex(k, v)` sets `k` to `v` and changes nothing else |
| Graphs.Graph.Edges | src/graph.js:222-230 | `edges()` holds `(k, j)` exactly when `j` is in `k`'s set. On a symmetric map it holds each edge in both directions |
| Graphs.EdgesRoundTrip | src/graph.js:222-230 | rebuilding a graph from its `edges()`, in any order, gives back its adjacency map less the entries left empty by `removeEdge` |
| Graphs.Graph.AddEdge | src/graph.js:255-258 | after `addEdge(k, j)` the adjacency map is exactly `AddEdgeTo` of the old one: `k`'s neighbours gain `j` and `j`'s gain `k`, nothing else changes, the vertex map is unchanged, any symmetric graph stays symmetric, and the invariant holds when both vertices exist |
| Graphs.Graph.RemoveEdge | src/graph.js:263-266 | after `removeEdge(k, j)` the adjacency map is exactly `RemoveEdgeFrom` of the old one: `k`'s neighbours lose `j` and `j`'s lose `k`, nothing else changes, the vertex map is unchanged, any symmetric graph stays symmetric, and the invariant holds when both vertices exist |
| Graphs.Graph.RemoveVertex | src/graph.js:243-250 | `removeVertex(k)` deletes `k` from the vertex map, and its adjacency map is exactly `RemoveVertexEdges` of the old one, so every other vertex and every other set stays as it was except for `k`'s removal. On a valid graph the result is valid and no set mentions `k` |
| Graphs.Graph.Adjacent | src/graph.js:272-275 | `adjacent(k, j)`: `j` is in `k`'s set, a missing set counting as empty. No contract of its own; `AdjacentVertices` and `Edges` are stated through it |
| Graphs.Graph.AdjacentVertices | src/graph.js:280-283 | `adjacentVertices(k)` holds exactly the keys adjacent to `k` |
| Graphs.Graph.Filter | src/graph.js:296-305 | `filter(p)` keeps exactly the vertices satisfying `p`, with their values; it adds no edge and keeps every edge between two kept vertices. On a valid graph the result is valid and no set mentions a dropped key |
| Graphs.FilterIsFold | src/graph.js:296-305 | reducing `removeVertex` over the failing keys in whatever order the map lists them gives exactly `Filter(p)` |
| GraphSearch.Least | src/graph.js:170-172 | the least key of a non-empty set: a member below every other. It stands in for the map's "first" entry |
| GraphSearch.Elements | src/graph.js:208-210 | a listing of a key set holds exactly its members, one entry per member |
| GraphSearch.ElementsDistinct | src/graph.js:208-210 | that listing has no repeated entry |
| GraphSearch.Visit | src/graph.js:45-58 | one call of `traverse_` marks `k` visited and collects `k`'s neighbours, keeping everything collected before. Started consistently, every collected key not yet visited was already collected, unvisited and not `k` |
| GraphSearch.VisitEach | src/graph.js:55-57 | the fold of `traverse_` over the unvisited neighbours visits each of them and loses nothing collected; started consistently, it stays consistent and leaves none of them unvisited |
| GraphSearch.Traverse | src/graph.js:44-66 | `traverse(k)` contains `k` and is closed under adjacency |
| GraphSearch.TraverseIsReachable | src/graph.js:311-313 | a key is in `traverse(k)` exactly when some walk along the adjacency map leads from `k` to it |
| GraphSearch.SameComponent | src/graph.js:44-66 | on a symmetric adjacency map, traversing from any key found by `traverse(x)` finds the same set |
| GraphSearch.DistanceIsShortest | src/graph.js:68-98 | `Distance` is nothing exactly when no walk from `k` ends at a vertex satisfying `p`. Otherwise such a walk of `d + 1` keys exists and none is shorter |
| GraphSearch.DistanceZero | src/graph.js:86-88 | the distance is 0 exactly when the start vertex itself satisfies `p` |
| GraphSearch.Reconstruct | src/graph.js:107-115 | following parent links from `k` back to the start and unshifting each key gives a walk from the start to `k` of `dist[k] + 1` keys |
| GraphSearch.ReconstructPath | src/graph.js:100-116 | with no found key the path is empty; otherwise it is a walk from the start ending at the found key |
| GraphSearch.EnqueueNeighbours | src/graph.js:90-95 | the keys appended to the frontier are exactly the neighbours of `next` not yet in the parent map, with no key appended twice; each gets `next` as its parent and one more than `next`'s layer. Old entries are kept, afterwards every neighbour of `next` is in the map, and nothing else was added |
| GraphSearch.ShortestPathBy | src/graph.js:68-117 | a non-empty result is a walk from `k` to a vertex satisfying `p`, and no such walk is shorter. The result is empty exactly when no reachable vertex satisfies `p`, it is `[k]` when `k` satisfies `p`, and its length is one more than `Distance` |
| GraphSearch.ShortestPath | src/graph.js:318-320 | `shortestPath(j, k)` is a shortest walk from `j` to `k`, and is empty exactly when `k` is not reachable from `j` |
| GraphSearch.Components | src/graph.js:120-136 | `traverseComponents` records at most one traversal per remaining key, so the recursion ends; `ComponentsPartition` states what the traversals are |
| GraphSearch.ComponentsPartition | src/graph.js:119-144 | the traversals `traverseComponents` collects cover the remaining keys, are pairwise disjoint, and each is the traversal from each of its keys |
| GraphSearch.Induced | src/graph.js:334-335 | filtering to an island keeps exactly the island's vertices of the graph, and a valid graph gives a valid subgraph |
| GraphSearch.ConnectedComponents | src/graph.js:333-337 | `connectedComponents()` yields one subgraph per traversal |
| GraphSearch.ConnectedComponentsPartition | src/graph.js:333-337 | the component subgraphs are valid, and their key sets (`VertexSets`, one per subgraph) cover the graph's keys and are pairwise disjoint |
| GraphSearch.ConnectedComponentsAreTraversals | src/graph.js:333-337 | a component holding `k` has as its keys exactly `traverse(k)`, with `k`'s value and every edge of `k` from the whole graph |
| Reinforcement.Foreign | src/reinforcement.js:12 | the search predicate: a country not occupied by the first player. No contract of its own; `Depth` and `DepthIndexFails` are stated through it |
| Reinforcement.FirstPlayer | src/reinforcement.js:6 | the player is the occupant of a country of the first subgraph |
| Reinforcement.SubgraphKeys | src/reinforcement.js:9 | the concatenated keys are exactly the keys of the subgraphs |
| Reinforcement.Depth | src/reinforcement.js:18 | a country's depth is one less than its distance to a foreign country (`path.length - 2`), and is absent exactly when no foreign country is reachable |
| Reinforcement.Place | src/reinforcement.js:20-22 | `list.update(depth, …)` adds the key to slot `depth` only, padding any missing slots below with empty sets |
| Reinforcement.DepthsOf | src/reinforcement.js:11-23 | the `keys.reduce` of `depthIndex`; the only error it can give is the empty-path error |
| Reinforcement.DepthsOfBuckets | src/reinforcement.js:11-23 | the fold fails, with the empty-path error, exactly when some key has no depth. Otherwise slot `d` holds exactly the keys of depth `d` |
| Reinforcement.DepthIndex | src/reinforcement.js:5-24 | `depthIndex(graph, subgraphs)`. No contract of its own; `DepthIndexFails`, `DepthIndexBuckets`, `DepthIndexCovers`, `LastBucketTaken`, `FrontierHasDepthZero`, `DepthIndexHasNoGaps` and `FlatDepthIndex` state what it returns |
| Reinforcement.DepthIndexFails | src/reinforcement.js:14-16 | `depthIndex` throws "Can't calculate depth map from empty path." exactly when some country of the subgraphs has no path to a country its player does not occupy |
| Reinforcement.DepthIndexBuckets | src/reinforcement.js:11-23 | on success bucket `d` holds exactly the subgraphs' countries whose shortest path to a foreign country has `d + 2` keys |
| Reinforcement.DepthIndexCovers | src/reinforcement.js:9-23 | on success every country of the subgraphs lands in a bucket (exactly one, by `DepthIndexBuckets`) |
| Reinforcement.LastBucketTaken | src/reinforcement.js:11-23 | on success the index has at least one bucket, and its last bucket is not empty |
| Reinforcement.FrontierHasDepthZero | src/reinforcement.js:18 | a country of the subgraphs adjacent to a country of another player lands in bucket 0 |
| Reinforcement.DepthIndexHasNoGaps | src/reinforcement.js:20-22 | when the subgraphs are the player's whole territories, no bucket below the last is left empty (no `undefined` hole remains) |
| Reinforcement.MaxSize | src/reinforcement.js:30 | the size of the largest subgraph: no subgraph is larger and one has exactly that size |
| Reinforcement.Values | src/graph.js:215-217 | `values()` has one entry per vertex, entry `i` being the value of the `i`-th listed key (each key listed once), so it holds the vertex map's values and nothing else |
| Reinforcement.TotalAvailableSlots | src/reinforcement.js:31-32 | the available slots summed over the subgraphs' countries. No contract of its own; `TotalSlotsNonNegative` and `CalculateTotalReinforcements` are stated through it |
| Reinforcement.CalculateTotalReinforcements | src/reinforcement.js:29-34 | the budget is at most the largest subgraph's size and at most the total available slots, and equals one of them |
| Reinforcement.TotalSlotsNonNegative | src/reinforcement.js:31-32 | when no country reports a negative number of available slots, the total available slots are not negative |
| Reinforcement.BudgetNonNegative | src/reinforcement.js:29-34 | when no country reports a negative number of available slots, the budget is not negative |
| Reinforcement.Pairs | src/reinforcement.js:54 | one bucket appends `[key, bs[index]]` for each key in order, with nothing where `bs` has no entry at that position; when `bs` has one amount per key, the amounts emitted add up to `Sum(bs)`, the amount taken off the budget |
| Reinforcement.Run | src/reinforcement.js:43-57 | the `depthIndex.reduce` of `reinforcementMap`. No contract of its own; `RunKeys`, `RunPositions`, `RunBudget` and `RunStaysWithinBudget` state what it returns |
| Reinforcement.RunKeys | src/reinforcement.js:43-57 | `reinforcementMap` emits one pair per key of the buckets, in bucket-then-position order |
| Reinforcement.RunPositions | src/reinforcement.js:43-57 | the key at position `i` of bucket `d` is paired with entry `i` of what `distribute` returned for bucket `d`, given the budget left after buckets `0..d-1` and the availability list, which holds each bucket key's available slots in order (`Availability`) |
| Reinforcement.RunBudget | src/reinforcement.js:50-52 | when `distribute` returns one amount per country, the budget left after a run of buckets is the initial budget less everything emitted for them |
| Reinforcement.RunStaysWithinBudget | src/reinforcement.js:50-52 | when `distribute` spends between 0 and its budget, the budget stays between 0 and the initial budget and never grows from bucket to bucket |
| Reinforcement.FlatDepthIndex | src/reinforcement.js:9-23 | the depth index's buckets, listed in order, hold every country of the subgraphs exactly once |
| Reinforcement.ReinforcementMap | src/reinforcement.js:40-61 | `reinforcementMap` emits one pair per key of the depth index, in bucket-then-position order |
| Reinforcement.ReinforcedOnce | src/reinforcement.js:40-61 | reinforcing from a successful depth index emits exactly one pair for each country of the subgraphs, and none for any other key |
| Games.Players | src/game.js:17-19 | the players are `Player(0)` … `Player(n - 1)` in order, and no two of them share an id |
| Games.NewGame | src/game.js:12-29 | a new game has `PLAYERS` players numbered from 0, placed on the world by `assignPlayers`, with no current player and no selection |
| Games.Game.ArmiesForPlayer | src/game.js:36-41 | `armiesForPlayer` is the sum of the armies of the countries the world reports for the player: 0 with no countries, and at least their number when each holds an army |
| Games.SumArmiesAppend | src/game.js:39-40 | the sum of armies over two lists joined is the sum of the two sums |
| Games.SumArmiesPermutation | src/game.js:36-41 | the sum of armies does not depend on the order the world lists the countries in |
| Games.Game.CanSelectPlayer | src/game.js:44-46 | `canSelectPlayer`: a player that is not `null` and not the current one. No contract of its own; `SelectPlayerOnce` states what it admits |
| Games.Game.CanSetCountry | src/game.js:55-57 | a country the current player may select can become the selection without breaking the state invariant |
| Games.Game.CanUnsetCountry | src/game.js:61-65 | a country the current player may deselect is one they may select |
| Games.Game.CanMoveToCountry | src/game.js:69-76 | a move target is never a country to select or deselect, and the selected country holds more than one army |
| Games.Game.CanSelectCountry | src/game.js:49-51 | a selectable country is not `null`, and exactly one of the two reasons holds: it is a move target or an own country |
| Games.Game.MoveToCountry | src/game.js:111-120 | `moveToCountry` replaces the world by `world.move(currentPlayer, selectedCountry, country)` and clears the selection; players and current player are unchanged |
| Games.Game.SelectCountry | src/game.js:96-107 | `selectCountry` moves when a move is legal. Otherwise it keeps the world and toggles the selection of an own country, and when nothing is legal it returns the same game |
| Games.SelectCountryActs | src/game.js:49-51 | `canSelectCountry` holds exactly when `selectCountry` changes the selection; when it does not hold, and only then, the game comes back unchanged |
| Games.Game.SelectPlayer | src/game.js:79-93 | `selectPlayer` throws "The player is already selected" exactly when the player is already current. Otherwise it makes the player current, clears the selection, and reinforces the outgoing player only if there was one |
| Games.SelectPlayerOnce | src/game.js:44-46 | selecting a selectable player succeeds; afterwards that player is no longer selectable and selecting them again fails |
| Games.TransitionsKeepValid | src/game.js:79-120 | every transition keeps the selected country, if any, owned by the current player |
| Games.SelectDeselect | src/game.js:101-104 | with nothing selected, selecting an own country twice selects and then deselects it, giving back the original game |
| Worlds.World.constructor | src/world.js:5-9 | the world holds the hexagons, countries and cells it was given |
| Worlds.World.Attack | src/world.js:14-16 | `attack` changes neither the world nor either country |
| Worlds.World.Move | src/world.js:19-39 | `move` fails, changing nothing, for a source not in the world, then a target not in the world, then a source with at most one army. Otherwise the target gets the source's armies less one and the source keeps one; only those two army counts are written |

## Left out

- `src/builder.js` (Voronoi tessellation, floating-point geometry, random seeds), `src/core.js` (`rollDice` is randomness, `log` is console output), the React components, the views and the DOM bootstrap are not part of this model.
- Iteration order of the immutable maps and sets. It is not specified, so the model fixes ascending key order: `first()` is the least key, and `keys()` and `values()` list keys in ascending order. `traverse` is modelled as a set, because its result holds each key once and its order is that of the set; the `toArray` order of `traverse`, `edges` and `connectedComponents` is not modelled.
- GraphSearch.ShortestPathBy: enqueues the neighbours of each vertex in an order the model leaves open. Which of several equally short paths the source returns depends on the set's iteration order, so the contract states validity and minimality, not which path comes back.
- `last()` and `adjacentValues` are thin reads that the modelled code does not use, and are not modelled. `Graph#size`, which `calculateTotalReinforcements` reads, appears as `Reinforcement.Size`.
- Graphs.RemoveVertexEdges: requires that every neighbour in `k`'s set has an entry of its own. The source would call `remove` on `undefined` and throw a `TypeError` otherwise; on a symmetric map the requirement always holds.
- Graphs.Graph.Filter: requires symmetric adjacency, since it folds `removeVertex`. Every graph the API builds is symmetric (`New`, `AddEdge`, `RemoveEdge` and `RemoveVertex` keep it so), so no constructed graph is excluded.
- Reinforcement.DepthIndex: requires every country of the subgraphs to be occupied by the first subgraph's player. `depthIndex` takes its player from the first subgraph's first country (`src/reinforcement.js:6`), so it is meant for subgraphs that one player occupies. Otherwise such a country would get a path of one key and depth −1. That index would go to `Immutable.List#update`'s negative indexing from the end, which is not modelled.
- Reinforcement.DepthIndex: also requires a valid graph, one whose adjacency names only vertices of the graph. On a dangling neighbour the source applies its predicate to `undefined`, and `country.player` throws a `TypeError`; Reinforcement.Foreign returns false for a missing country instead, which on a valid graph never happens.
- Reinforcement.FirstPlayer and Reinforcement.DepthIndex: require a first subgraph with at least one country. On an empty list or an empty first subgraph `subgraphs[0].first().player` throws a `TypeError`; that exception is not modelled.
- Reinforcement.MaxSize and Reinforcement.CalculateTotalReinforcements: require at least one subgraph. On an empty list the source reads `.size` of `undefined` and throws a `TypeError`; that exception is not modelled.
- Reinforcement.ReinforcementMap: requires every key of the depth index to be a vertex of the graph. For an unlisted key `graph.get` gives `undefined` and reading `availableSlots` of it throws a `TypeError`; that exception is not modelled.
- Reinforcement.ReinforcementMap: the depth index is a list of lists. An `undefined` slot, which `depthIndex` can leave below its last bucket, makes `keys.map` throw in the source; the model has no such slot, and an empty bucket emits nothing, though `distribute` is still called for it. `DepthIndexHasNoGaps` shows no hole arises for a player's whole territories.
- `core.range(n)` is not part of this model and is taken to list `0 … n - 1` in order, which is what `Games.Players` builds.
- `src/country.js` is not part of this model: a country's `availableSlots` is a field of the `Country` value rather than computed from its slots and armies.
- Reinforcement.Place: an index skipped by `list.update` becomes an `undefined` slot in the source and an empty set here. `DepthIndexHasNoGaps` shows no such slot arises when the subgraphs are the player's whole territories.
- Reinforcement.MaxSize: `core.bySize` is not part of this model and is taken to compare subgraphs by `size`. On equal sizes only the size matters, so the tie-break does not.
- `core.distribute` is uninterpreted and not part of this model. Reinforcement.RunBudget assumes it returns one amount per availability; Reinforcement.RunStaysWithinBudget assumes a non-negative total of at most its budget. A position `bs[index]` that `distribute` does not fill is `undefined` in the source and `None` here.
- Object identity: `===` on players and countries is modelled as structural equality of their values, and `null` as `None`.
- Games.Game.MoveToCountry: `world.move` is called with three arguments, which does not match the two-argument `World#move` in `src/world.js`. Game's world operations therefore stay abstract parameters, and `copy`/`set` are record updates. `assignPlayers`' random placement is a parameter.
- Worlds.World.Move follows the code: the target gets the source's armies less one and the source keeps one. The world test expects two and two for a four-army source; that test exercises a graph-based world not part of this model. When source and target are the same country, the last write wins and it keeps one army.
- `console.log` calls inside `attack`, `move` and the game transitions are output only and are left out.
