# Dijkstra exercise generators, modelled in Dafny

The repository generates shortest-path exercises. It has three
implementations of Dijkstra's algorithm, each with its own edge reading and
stopping rule. Each sits next to a small builder that draws a random graph or
a random instance. This project models those four pieces and proves what
they promise:

- `StepDijkstra` (`step_dijkstra.dfy`) models `Asier/dijkstra.py`.
  - It reads every edge in both directions and runs a heap until the heap is empty.
  - A visited set makes stale heap entries harmless.
  - Every accepted relaxation is logged as a step.
  - The model returns the distance table and the log, or the `KeyError` the
    script raises for a source or an endpoint that is not a node, naming the
    key it raises for.
  - Proved: every distance is the length of a shortest undirected walk.
  - Proved: every edge satisfies the triangle inequality both ways.
  - Proved: the log replays to the table, each step is sound for the final table, and the steps of each node are consecutive.
- `TargetDijkstra` (`target_dijkstra.dfy`) models `Asier/main.py`.
  - `dijkstra` reads edges in their given direction and stops when the target leaves the heap.
  - It rebuilds the path through `prev`.
  - `generate_graph` keeps each pair of cities with probability one half and adds the pair in both directions.
- `CityDijkstra` (`city_dijkstra.dfy`) models the `dijkstra` of `Asier/files/main2.py`.
  - On each round it selects the least unvisited node with `min`.
  - It stops at an infinite minimum or at the target.
- `CityGraph` (`city_graph.dfy`) models `generate_random_city_graph` of the same file.
  - It chains the cities in shuffled order.
  - It then offers every pair not yet joined.
- `FiveNodes` (`five_nodes.dfy`) models the weight assignment of
  `build_5node_instances` in `Omid/5-Nodes-Graph/main.py`.
  - It chooses one of four A→E paths and weighs that path's links.
  - It then weighs every other pair heavier than the whole path.
  - Proved: the chosen path is the unique shortest A→E walk.
- `Graph` (`graph.dfy`) holds what the three searches share:
  - edges, walks and their weights;
  - shortest distances, specified as a lower bound on every walk plus one walk that achieves it;
  - the frontier argument that makes each search correct;
  - the adjacency lists;
  - heap and `min` extraction as nondeterministic choice.

Conventions:

- Weights are `nat`.
- `float('inf')` is the value `Inf` of `Dist`.
- A heap is a multiset of `(d, node)` entries. A pop takes any entry of least `d`, because the tie-break between equal entries is left open.
- `min(unvisited, key=dist)` takes any node of least distance.
- Random draws are inputs:
  - a shuffle is a permutation of the cities;
  - `rng.random()` is a `real` per pair;
  - `randint(a, b)` is a `nat` in `[a, b]`, one per call site and position.

The generated exercises are only read by the scripts that write the
exercise files, so the generators are modelled on values passed in. The
searches are imperative: dictionaries are maps, the heap and visited sets
are multisets and sets, and their loops keep the invariants shown below.

One property depends on the reading of the edges. The chain that
`generate_random_city_graph` builds joins all cities only when its edges
are read in both directions. The `dijkstra` next to it reads them one way
only, so a target can be unreachable: `CityGraph.ChainOneWay` exhibits such
a graph. Both readings are modelled; `CityGraph.CityEdgesConnected` states
the undirected guarantee.

## Model

| member | source | states |
|---|---|---|
| Graph.Undirected | Asier/dijkstra.py:6-8 | the arcs of the undirected reading are the edges, each followed by its reverse, twice as many as the edges |
| Graph.UndirectedArcs | Asier/dijkstra.py:7-8 | an arc is read from the edge list exactly when it or its reverse is one of the edges |
| Graph.HopsMembers | Asier/main.py:40-42 | an adjacency list of x holds (v, w) exactly when (x, v, w) is an arc |
| Graph.DirectedAdjacency | Asier/main.py:40-42 | every node gets a list; graph[x] lists, in edge order, the (v, w) of every edge leaving x |
| Graph.HeapPop | Asier/dijkstra.py:18 | heappop removes one entry of least distance and the heap shrinks by one |
| Graph.LeastNode | Asier/files/main2.py:70 | the chosen node is unvisited and no unvisited node has a smaller distance |
| Graph.PopLeast | Asier/dijkstra.py:18-21 | a first pop of a node finds its distance finite and equal to the popped d; a pop of a visited node leaves the heap invariant intact |
| Graph.ChainWalk | Asier/main.py:54-64 | following prev back from any node of finite distance reaches the source along a walk whose weight is that distance |
| Graph.ScanOfRelaxes | Asier/main.py:53-57 | the scan of a list from distance d pushes at most one entry per list entry, each at d plus the weight of one of the listed arcs; afterwards no distance rose and every listed arc is relaxed from d |
| Graph.FrontierBound | Asier/files/main2.py:68-82 | once the settled distances are at most m and the unsettled ones at least m, no walk to a settled node is lighter than its distance and no walk to an unsettled one lighter than m |
| StepDijkstra.ReplayIsLastUpdate | Asier/dijkstra.py:24-33 | replaying the log leaves each node at the new_dist of its last step, or at its initial distance when no step names it |
| StepDijkstra.ReplaySnoc | Asier/dijkstra.py:25-33 | a new step applies its update, and keeps the log consistent exactly when its old_dist is the node's current distance |
| StepDijkstra.FirstMissing | Asier/dijkstra.py:6-8 | the key the build fails on is the first endpoint in edge order, tail before head, that is not a node; there is none exactly when every endpoint is a node |
| StepDijkstra.BuildAdjacency | Asier/dijkstra.py:5-8 | KeyError for exactly that first missing endpoint; otherwise graph[x] lists the undirected arcs leaving x |
| StepDijkstra.ScanLogReplays | Asier/dijkstra.py:24-33 | the log of one scan replays from the table before it to the table ScanOf gives after it, and each old_dist is the distance it replaced |
| StepDijkstra.ScanLogPushes | Asier/dijkstra.py:27-33 | one scan logs exactly one step per push, in order: the k-th step is from u and names the node and new distance of the k-th pushed entry |
| StepDijkstra.ScanArc | Asier/dijkstra.py:24-33 | one entry (v, w) of u's list: when d + w beats dist[v] the table, heap and log gain exactly the lowering, the entry (d + w, v) and the step (v, old, d + w, u); otherwise nothing changes |
| StepDijkstra.ScanNeighbours | Asier/dijkstra.py:23-33 | the table, heap and log after the scan are exactly those of ScanOf and ScanLogOf: one push and one step from u per lowering, in list order, nothing else; every arc of u is relaxed |
| StepDijkstra.Visit | Asier/dijkstra.py:18-33 | the popped entry is a least one; a pop of a visited node removes that entry and changes nothing else; a fresh pop finds the node at the popped distance, adds exactly that node to visited, and leaves the table, the rest of the heap plus the pushed entries, and the log plus the steps of ScanOf and ScanLogOf over its list; either way the table, heap, witness and log invariants hold |
| StepDijkstra.StartVisits | Asier/dijkstra.py:11-15 | the initial table, the heap [(0, source)] and the empty log meet the loop invariants |
| StepDijkstra.Conclude | Asier/dijkstra.py:17-34 | with the heap empty, every distance is shortest and every edge is relaxed in both directions |
| StepDijkstra.Dijkstra | Asier/dijkstra.py:3-34 | KeyError exactly for a source or endpoint that is not a node, reporting the first missing endpoint, or the source when every endpoint is a node; otherwise dist[source] is 0, each dist[t] is the least weight of an undirected walk (inf if none), the triangle inequality holds both ways, the log replays to dist, every step lowers a non-source node to the final distance of from_node plus an edge weight, and each node's steps are consecutive |
| TargetDijkstra.RelaxArc | Asier/main.py:54-57 | one entry (v, w) of u's list: when dist[u] + w beats dist[v], dist[v] drops to it, prev[v] becomes u and (dist[v], v) is pushed once; otherwise nothing changes |
| TargetDijkstra.Relax | Asier/main.py:53-57 | the table and heap after the scan are those of ScanOf from dist[u]: one push per drop, nothing else; every arc of u's list is relaxed, a distance only drops, and when it drops prev becomes u |
| TargetDijkstra.Expand | Asier/main.py:50-57 | a pop other than the target keeps the table, heap and prev invariants, and settles a node or shrinks the heap |
| TargetDijkstra.Search | Asier/main.py:44-57 | when the target is popped or the heap runs empty, dist[target] bounds every directed walk to the target from below and prev records how each finite distance was reached |
| TargetDijkstra.Rebuild | Asier/main.py:59-64 | with no node named "", the path is the node sequence of a walk from the source of weight dist[target], or [target] when the target is at inf; it is [source] when the target is a non-empty source, and [] when the target is "" |
| TargetDijkstra.Dijkstra | Asier/main.py:39-65 | the distance is the least weight of a directed walk from source to target (inf if none), 0 when they coincide; with no node named "", the path traces such a walk, or is [target] when unreachable; source = target, not "", gives [source], and target "" gives [] |
| TargetDijkstra.GenerateGraph | Asier/main.py:27-36 | the nested loops build the edges of the kept pairs i < j, in loop order |
| TargetDijkstra.GeneratedPaired | Asier/main.py:34-35 | the edge list has even length and each edge at an even position is followed by its reverse |
| TargetDijkstra.GeneratedMembers | Asier/main.py:30-35 | an edge is generated exactly when it is one direction of a pair i < j whose coin is below 0.5, with that pair's weight |
| TargetDijkstra.GeneratedBounds | Asier/main.py:30-35 | endpoints are cities, weights lie in [1, 10], and over distinct cities no edge is a self-loop |
| TargetDijkstra.GeneratedSymmetric | Asier/main.py:34-35 | the reverse of every generated edge is generated too |
| TargetDijkstra.GeneratedEmpty | Asier/main.py:29-35 | there is no connectivity guarantee: when no coin comes up below 0.5 there is no edge at all |
| TargetDijkstra.GeneratedComplete | Asier/main.py:30-35 | when every coin comes up below 0.5 there are n(n-1) directed edges |
| CityDijkstra.Scan | Asier/files/main2.py:78-82 | every arc of current is relaxed; a distance only drops, and when it drops prev becomes current along an arc of that weight |
| CityDijkstra.Visit | Asier/files/main2.py:68-82 | a round that does not stop removes exactly one node from unvisited and keeps the round invariant |
| CityDijkstra.StopBound | Asier/files/main2.py:72 | stopping at an infinite minimum, at the target, or with nothing unvisited leaves dist[target] a lower bound on every walk to it |
| CityDijkstra.Search | Asier/files/main2.py:63-82 | the rounds end with dist[source] = 0, dist[target] a lower bound on every directed walk to it, and prev recording how every finite distance was reached |
| CityDijkstra.Rebuild | Asier/files/main2.py:85-89 | the path traces a walk from the source of weight dist[target], is [target] when unreachable, and [source] when target is the source |
| CityDijkstra.Dijkstra | Asier/files/main2.py:56-91 | the distance is the least weight of a directed walk from source to target (inf if none); the path traces such a walk, or is [target] when unreachable; source = target gives 0 and [source] |
| CityGraph.Chain | Asier/files/main2.py:104-106 | the k-th chain link runs from the k-th shuffled city to the next with the k-th drawn weight |
| CityGraph.GenerateRandomCityGraph | Asier/files/main2.py:94-120 | the chain loop and the pair loops build the edge list of the draws |
| CityGraph.CityEdgesShape | Asier/files/main2.py:104-118 | the chain comes first; endpoints are cities and weights lie in [wmin, wmax]; over distinct cities there are no self-loops and no two edges join the same pair |
| CityGraph.CityEdgesJoined | Asier/files/main2.py:109-118 | over distinct cities a pair is joined exactly when the chain joins it or its coin is below connectivity |
| CityGraph.CityEdgesConnected | Asier/files/main2.py:101-106 | read in both directions, the edges join every two cities by a walk |
| CityGraph.ChainOneWay | Asier/files/main2.py:101-106 | read in their given direction, the edges can leave a city unreachable, here B from A, although the undirected reading joins them |
| CityGraph.CityEdgesCount | Asier/files/main2.py:102-120 | over distinct cities there are at least n - 1 and at most n(n-1)/2 edges |
| FiveNodes.CandidatePaths | Omid/5-Nodes-Graph/main.py:78-83 | each candidate path has distinct nodes, runs from A to E, and each consecutive pair is one of the ten pairs |
| FiveNodes.BaseLinks | Omid/5-Nodes-Graph/main.py:88-91 | base_weights holds exactly the links between consecutive letters, each with its own draw |
| FiveNodes.BuildInstance | Omid/5-Nodes-Graph/main.py:86-124 | the chosen path, DISTANCE, EDGES, nodes_str and path_str computed by the loops are those of the draws |
| FiveNodes.InstanceDistance | Omid/5-Nodes-Graph/main.py:93-117 | the edges of EDGES along the chosen path form a directed walk from A to E that traces the path and weighs DISTANCE |
| FiveNodes.InstanceWeights | Omid/5-Nodes-Graph/main.py:88-102 | a link between consecutive letters weighs its base draw, in [3, 7]; any other link weighs its skip draw, in [4, 9] |
| FiveNodes.InstancePairs | Omid/5-Nodes-Graph/main.py:107-120 | EDGES has the ten pairs, in order and directed from the earlier letter; a pair off the path weighs DISTANCE plus a draw in [2, 8] |
| FiveNodes.OffPathHeavier | Omid/5-Nodes-Graph/main.py:118-119 | every edge is on the chosen path or weighs more than the whole path |
| FiveNodes.InstanceShortest | Omid/5-Nodes-Graph/main.py:62-120 | DISTANCE is the shortest A→E distance in EDGES, and the chosen path is the only walk that achieves it |
| FiveNodes.SplitJoin | Omid/5-Nodes-Graph/main.py:122-124 | cutting a comma join at its commas gives the parts back, for one or more comma-free parts |
| FiveNodes.InstanceStrings | Omid/5-Nodes-Graph/main.py:122-124 | nodes_str and path_str read back as NODES and the chosen path |

## Left out

- Rendering (`render_graph_image`), base64 encoding, timestamps, the exercise-file and XML formatting, and the `build_*_instances` drivers are not modelled. They are calls into graphviz and helper modules that are not part of this model, plus file I/O.
- The random generator is not modelled. Each call site's draws are passed in as sequences, one per call site, instead of one shared stream. The relative order of `randint` calls across call sites is therefore not modelled; this includes the default at `Omid/5-Nodes-Graph/main.py:117`, which is drawn even when the key is present.
- Float arithmetic is not modelled: weights are `nat` and `float('inf')` is `Inf`. Negative weights are excluded by the types, since no implementation checks for them.
- `randint(wmin, wmax)` with `wmin > wmax` raises `ValueError` at the first draw. With two or more cities the chain always draws, and the model has no such draw, so `CityDraws` cannot be met then.
- `edges_str` and `dist_str` (`Omid/5-Nodes-Graph/main.py:123,125`), the decimal rendering of weights and distances, are not modelled. The `edges_str` join has no separator between edges.
- TargetDijkstra.Dijkstra: requires the source, the target and every edge endpoint to be nodes. Its one caller (`Asier/main.py:104-109`) always passes such inputs, since the source and target come from `CITIES` and `generate_graph` joins only cities; those other inputs are not modelled. On them the script does not always raise. A tail that is not a node raises `KeyError` while the lists are built. A head that is not a node raises only if its tail is popped before the target, and otherwise goes unnoticed. A source that is not a node raises at `graph[source]` on its first pop, unless it is also the target. A target that is not a node raises at `prev[target]` when the path is rebuilt, or at `dist[target]` when it is named `""`, except that a source and target both named `""` and not a node give `(0, [])`.
- CityDijkstra.Dijkstra: requires the source, the target and every edge endpoint to be nodes. Its one caller (`Asier/files/main2.py:145-154`) always passes such inputs, since the source and target are sampled from the cities and `generate_random_city_graph` joins only cities; those other inputs are not modelled. On them the script does not always raise. A tail that is not a node raises `KeyError` while the lists are built. A head that is not a node raises only if its tail is selected before the rounds stop. A source that is not a node raises nothing when the target is a node: `dist[source] = 0` adds a key that `unvisited` lacks, every node is at inf, the first round stops, and the result is `([target], inf)`. A target that is not a node raises at `prev[target]` when the path is rebuilt.
- TargetDijkstra.Rebuild: for a graph with a node named `""`, the path loop stops at that node because the name is not truthy. The model follows this, but its contract states the path only when no node is named `""`.
- Which of several equal heap entries `heappop` returns, and which of several equal nodes `min` returns, are left open. The distance results do not depend on the choice; the path can.
