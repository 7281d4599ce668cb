/** Omid/5-Nodes-Graph/main.py, build_5node_instances: one
    instance picks an A -> E path among four candidates, gives the links of
    the chain A, B, C, D, E weights in [3, 7] and each skip link on the
    path a weight in [4, 9], and makes every edge off the path weigh the
    path's cost plus [2, 8]. The chosen path is then the unique shortest
    directed A -> E walk and DISTANCE is its cost. */
module FiveNodes {
  import opened Graph

  type Pair = (Node, Node)

  /** The five node names. */
  const NODES: seq<Node> := ["A", "B", "C", "D", "E"]
  /** The endpoints every instance asks about. */
  const SOURCE: Node := "A"
  const TARGET: Node := "E"

  /** The candidate shortest paths: the full chain and the three that skip one inner node. */
  const POSSIBLE_PATHS: seq<seq<Node>> := [
    ["A", "B", "C", "D", "E"],
    ["A", "C", "D", "E"],
    ["A", "B", "D", "E"],
    ["A", "B", "C", "E"]
  ]

  /** The ten node pairs, in the order the edges are listed. */
  const ALL_EDGES_PAIRS: seq<Pair> := [
    ("A", "B"), ("A", "C"), ("A", "D"), ("A", "E"),
    ("B", "C"), ("B", "D"), ("B", "E"),
    ("C", "D"), ("C", "E"),
    ("D", "E")
  ]

  /** The links of a node sequence: its consecutive pairs. */
  function Link(path: seq<Node>, i: nat): Pair
    requires i + 1 < |path|
  {
    (path[i], path[i + 1])
  }

  /** Every candidate path goes from A to E without repeating a node, and
      each of its links is one of the ten pairs. */
  lemma CandidatePaths(c: nat)
    requires c < |POSSIBLE_PATHS|
    ensures var path := POSSIBLE_PATHS[c];
      && 2 <= |path| && path[0] == SOURCE && Last(path) == TARGET && Distinct(path)
      && forall i :: 0 <= i < |path| - 1 ==> Link(path, i) in ALL_EDGES_PAIRS
  {
  }

  // ---------------------------------------------------------------------
  // The draws and what each loop builds

  /** The draws of one instance, one sequence per call site: choice is
      rnd.choice of a path, base[i] the randint(3, 7) for chain link i,
      skips[i] the randint(4, 9) for a skip link at path step i, eager[k]
      the randint(3, 7) evaluated as the default of base_weights.get, and
      extras[k] the randint(2, 8) of an off-path edge, for pair k. */
  predicate InstanceDraws(choice: nat, base: seq<nat>, skips: seq<nat>, eager: seq<nat>, extras: seq<nat>) {
    && choice < |POSSIBLE_PATHS|
    && |base| == |NODES| - 1 && (forall i :: 0 <= i < |base| ==> 3 <= base[i] <= 7)
    && |skips| == |NODES| - 1 && (forall i :: 0 <= i < |skips| ==> 4 <= skips[i] <= 9)
    && |eager| == |ALL_EDGES_PAIRS| && (forall k :: 0 <= k < |eager| ==> 3 <= eager[k] <= 7)
    && |extras| == |ALL_EDGES_PAIRS| && (forall k :: 0 <= k < |extras| ==> 2 <= extras[k] <= 8)
  }

  /** base_weights after the first i chain links. */
  function BaseWeights(base: seq<nat>, i: nat): map<Pair, nat>
    requires i <= |base| && i < |NODES|
  {
    if i == 0 then map[] else BaseWeights(base, i - 1)[Link(NODES, i - 1) := base[i - 1]]
  }

  /** base_weights holds exactly the first i chain links, each with its
      own draw. */
  lemma {:induction false} BaseLinks(base: seq<nat>, i: nat)
    requires i <= |base| && i < |NODES|
    ensures forall e :: e in BaseWeights(base, i) <==> exists j :: 0 <= j < i && e == Link(NODES, j)
    ensures forall j :: 0 <= j < i ==> BaseWeights(base, i)[Link(NODES, j)] == base[j]
  {
    if i > 0 {
      BaseLinks(base, i - 1);
      assert forall j :: 0 <= j < i - 1 ==> Link(NODES, j) != Link(NODES, i - 1);
    }
  }

  /** base_weights, path_edges and path_cost while the path is walked. */
  datatype Progress = Progress(weights: map<Pair, nat>, onPath: set<Pair>, cost: nat)

  /** The walk along SHORTEST_PATH: the state after the first k links of the path. */
  function Walked(path: seq<Node>, start: map<Pair, nat>, skips: seq<nat>, k: nat): Progress
    requires k < |path| && k <= |skips|
  {
    if k == 0 then Progress(start, {}, 0)
    else
      Step(Walked(path, start, skips, k - 1), Link(path, k - 1), skips[k - 1])
  }

  /** The walk along SHORTEST_PATH, one link: it joins path_edges, and its weight is the
      one in base_weights, or the skip draw, which is then recorded. */
  function Step(p: Progress, e: Pair, skip: nat): Progress {
    if e in p.weights then Progress(p.weights, p.onPath + {e}, p.cost + p.weights[e])
    else Progress(p.weights[e := skip], p.onPath + {e}, p.cost + skip)
  }

  /** The EDGES loop: the first k edges, one per pair in order, from the
      pair's first node to its second, with that pair's weight. */
  function Weighted(pairs: seq<Pair>, k: nat, p: Progress, eager: seq<nat>, extras: seq<nat>): (r: seq<Edge>)
    requires k <= |pairs| && k <= |eager| && k <= |extras|
    ensures |r| == k
  {
    seq(k, i requires 0 <= i < k => Edge(pairs[i].0, pairs[i].1, EdgeWeight(pairs[i], p, eager[i], extras[i])))
  }

  /** One more pair adds its edge at the end. */
  lemma WeightedSnoc(pairs: seq<Pair>, k: nat, p: Progress, eager: seq<nat>, extras: seq<nat>)
    requires k < |pairs| && k < |eager| && k < |extras|
    ensures Weighted(pairs, k + 1, p, eager, extras)
         == Weighted(pairs, k, p, eager, extras) + [Edge(pairs[k].0, pairs[k].1, EdgeWeight(pairs[k], p, eager[k], extras[k]))]
  {
  }

  /** The EDGES loop: the weight of one pair. */
  function EdgeWeight(e: Pair, p: Progress, eager: nat, extra: nat): nat {
    if e in p.onPath then (if e in p.weights then p.weights[e] else eager)
    else p.cost + extra
  }

  /** The state once the chosen path has been walked. */
  function Chosen(choice: nat, base: seq<nat>, skips: seq<nat>, eager: seq<nat>, extras: seq<nat>): Progress
    requires InstanceDraws(choice, base, skips, eager, extras)
  {
    var path := POSSIBLE_PATHS[choice];
    assert |path| <= |NODES|;
    Walked(path, BaseWeights(base, |NODES| - 1), skips, |path| - 1)
  }

  /** EDGES for the given draws. */
  function InstanceEdges(choice: nat, base: seq<nat>, skips: seq<nat>, eager: seq<nat>, extras: seq<nat>): seq<Edge>
    requires InstanceDraws(choice, base, skips, eager, extras)
  {
    Weighted(ALL_EDGES_PAIRS, |ALL_EDGES_PAIRS|, Chosen(choice, base, skips, eager, extras), eager, extras)
  }

  /** ",".join(parts), as for nodes_str and path_str. */
  function Join(parts: seq<string>): string
    decreases |parts|
  {
    if parts == [] then ""
    else if |parts| == 1 then parts[0]
    else parts[0] + "," + Join(parts[1..])
  }

  /** Cuts a string at every comma: the reading a consumer of the
      instance's strings applies to them. */
  function Split(s: string): (r: seq<string>)
    ensures |r| >= 1
  {
    if s == [] then [""]
    else if s[0] == ',' then [""] + Split(s[1..])
    else var rest := Split(s[1..]); [[s[0]] + rest[0]] + rest[1..]
  }

  predicate CommaFree(s: string) {
    forall i :: 0 <= i < |s| ==> s[i] != ','
  }

  /** A comma-free head is split off whole at the first comma. */
  lemma {:induction false} SplitHead(a: string, rest: string)
    requires CommaFree(a)
    ensures Split(a) == [a]
    ensures Split(a + "," + rest) == [a] + Split(rest)
    decreases |a|
  {
    if a == [] {
      assert a + "," + rest == [','] + rest;
    } else {
      assert CommaFree(a[1..]);
      SplitHead(a[1..], rest);
      assert (a + "," + rest)[1..] == a[1..] + "," + rest;
      assert [a[0]] + a[1..] == a;
    }
  }

  /** Splitting the joined string gives the parts back, provided there is at
      least one part and none holds a comma. */
  lemma {:induction false} SplitJoin(parts: seq<string>)
    requires |parts| >= 1
    requires forall i :: 0 <= i < |parts| ==> CommaFree(parts[i])
    ensures Split(Join(parts)) == parts
    decreases |parts|
  {
    if |parts| == 1 {
      SplitHead(parts[0], "");
    } else {
      SplitJoin(parts[1..]);
      SplitHead(parts[0], Join(parts[1..]));
      assert [parts[0]] + parts[1..] == parts;
    }
  }

  /** nodes_str and path_str read back as the node
      list and the path. */
  lemma InstanceStrings(choice: nat)
    requires choice < |POSSIBLE_PATHS|
    ensures Split(Join(NODES)) == NODES
    ensures Split(Join(POSSIBLE_PATHS[choice])) == POSSIBLE_PATHS[choice]
  {
    CandidatePaths(choice);
    var path := POSSIBLE_PATHS[choice];
    assert forall i :: 0 <= i < |NODES| ==> CommaFree(NODES[i]);
    assert forall i :: 0 <= i < |path| ==> path[i] in NODES;
    SplitJoin(NODES);
    SplitJoin(path);
  }

  /** One instance of build_5node_instances, built by the same loops, with the
      draws passed in. */
  method BuildInstance(choice: nat, base: seq<nat>, skips: seq<nat>, eager: seq<nat>, extras: seq<nat>)
    returns (shortestPath: seq<Node>, distance: nat, edges: seq<Edge>, nodesStr: string, pathStr: string)
    requires InstanceDraws(choice, base, skips, eager, extras)
    ensures shortestPath == POSSIBLE_PATHS[choice]
    ensures distance == Chosen(choice, base, skips, eager, extras).cost
    ensures edges == InstanceEdges(choice, base, skips, eager, extras)
    ensures nodesStr == Join(NODES) && pathStr == Join(shortestPath)
  {
    shortestPath := POSSIBLE_PATHS[choice];
    assert |shortestPath| <= |NODES|;
    var baseWeights: map<Pair, nat> := map[];
    for i := 0 to |NODES| - 1
      invariant baseWeights == BaseWeights(base, i)
    {
      var u, v := NODES[i], NODES[i + 1];
      baseWeights := baseWeights[(u, v) := base[i]];
    }
    ghost var start := baseWeights;
    var pathCost := 0;
    var pathEdges: set<Pair> := {};
    for i := 0 to |shortestPath| - 1
      invariant Walked(shortestPath, start, skips, i) == Progress(baseWeights, pathEdges, pathCost)
    {
      var u, v := shortestPath[i], shortestPath[i + 1];
      pathEdges := pathEdges + {(u, v)};
      if (u, v) in baseWeights {
        pathCost := pathCost + baseWeights[(u, v)];
      } else {
        var w := skips[i];
        baseWeights := baseWeights[(u, v) := w];
        pathCost := pathCost + w;
      }
    }
    distance := pathCost;
    ghost var p := Progress(baseWeights, pathEdges, pathCost);
    edges := [];
    for k := 0 to |ALL_EDGES_PAIRS|
      invariant edges == Weighted(ALL_EDGES_PAIRS, k, p, eager, extras)
    {
      var (u, v) := ALL_EDGES_PAIRS[k];
      var w;
      if (u, v) in pathEdges {
        w := if (u, v) in baseWeights then baseWeights[(u, v)] else eager[k];
      } else {
        w := pathCost + extras[k];
      }
      assert w == EdgeWeight((u, v), p, eager[k], extras[k]);
      WeightedSnoc(ALL_EDGES_PAIRS, k, p, eager, extras);
      edges := edges + [Edge(u, v, w)];
    }
    nodesStr := Join(NODES);
    pathStr := Join(shortestPath);
  }

  // ---------------------------------------------------------------------
  // Walks along a path of distinct nodes

  /** The edges along the first k links of path, weighted by weights. */
  function Arcs(path: seq<Node>, weights: map<Pair, nat>, k: nat): (r: seq<Edge>)
    requires k < |path| && forall i :: 0 <= i < k ==> Link(path, i) in weights
    ensures |r| == k
  {
    seq(k, i requires 0 <= i < k && Link(path, i) in weights => Edge(path[i], path[i + 1], weights[Link(path, i)]))
  }

  /** One more link adds its edge at the end. */
  lemma ArcsSnoc(path: seq<Node>, weights: map<Pair, nat>, k: nat)
    requires 0 < k < |path| && forall i :: 0 <= i < k ==> Link(path, i) in weights
    ensures Arcs(path, weights, k) == Arcs(path, weights, k - 1) + [Edge(path[k - 1], path[k], weights[Link(path, k - 1)])]
  {
  }

  /** The arcs along a path form a walk from its first node that passes
      through the path's nodes, when all of them belong to arcs. */
  lemma {:induction false} ArcsWalk(arcs: seq<Edge>, path: seq<Node>, weights: map<Pair, nat>, k: nat)
    requires k < |path| && forall i :: 0 <= i < k ==> Link(path, i) in weights
    requires forall i :: 0 <= i < k ==> Arcs(path, weights, k)[i] in arcs
    ensures IsWalk(arcs, Arcs(path, weights, k), path[0], path[k])
    ensures Trace(path[0], Arcs(path, weights, k)) == path[..k + 1]
  {
    if k > 0 {
      var q := Arcs(path, weights, k - 1);
      var a := Edge(path[k - 1], path[k], weights[Link(path, k - 1)]);
      ArcsSnoc(path, weights, k);
      assert a in arcs by {
        assert Arcs(path, weights, k)[k - 1] == a;
      }
      forall i | 0 <= i < k - 1 ensures q[i] in arcs {
        assert q[i] == Arcs(path, weights, k)[i];
      }
      ArcsWalk(arcs, path, weights, k - 1);
      ExtendWalk(arcs, q, path[0], a);
      assert path[..k + 1] == path[..k] + [path[k]];
    }
  }

  /** Every edge of a walk belongs to the arcs. */
  lemma {:induction false} WalkArcs(arcs: seq<Edge>, q: seq<Edge>, s: Node, t: Node, j: nat)
    requires IsWalk(arcs, q, s, t) && j < |q|
    ensures q[j] in arcs
    decreases |q|
  {
    if j < |q| - 1 {
      WalkArcs(arcs, q[..|q| - 1], s, Last(q).u, j);
    }
  }

  /** A walk weighs at least as much as any one of its edges. */
  lemma {:induction false} HeavyEdge(q: seq<Edge>, j: nat)
    requires j < |q|
    ensures Weight(q) >= q[j].w
    decreases |q|
  {
    if j < |q| - 1 {
      HeavyEdge(q[..|q| - 1], j);
    }
  }

  /** P follows path link by link. */
  predicate Follows(P: seq<Edge>, path: seq<Node>) {
    |P| + 1 == |path| && forall i {:trigger P[i]} :: 0 <= i < |P| ==> P[i].u == path[i] && P[i].v == path[i + 1]
  }

  /** A walk from the path's first node that uses only edges of P is a
      prefix of P and ends at the matching node of the path. */
  lemma {:induction false} OnlyPath(arcs: seq<Edge>, P: seq<Edge>, path: seq<Node>, q: seq<Edge>, t: Node)
    requires Distinct(path) && Follows(P, path)
    requires IsWalk(arcs, q, path[0], t) && forall j :: 0 <= j < |q| ==> q[j] in P
    ensures |q| < |path| && q == P[..|q|] && t == path[|q|]
    decreases |q|
  {
    if q != [] {
      var init := q[..|q| - 1];
      var a := Last(q);
      assert forall j :: 0 <= j < |init| ==> init[j] == q[j];
      OnlyPath(arcs, P, path, init, a.u);
      var j :| 0 <= j < |P| && P[j] == a;
      assert path[j] == path[|init|];
      assert q == P[..|init|] + [P[j]];
    }
  }

  /** In a sequence of distinct elements only the last position holds
      the last element. */
  lemma DistinctLast(s: seq<Node>, i: nat)
    requires Distinct(s) && i < |s| && s[i] == Last(s)
    ensures i == |s| - 1
  {
  }

  /** If every edge off P weighs more than P, then P is the unique
      lightest walk between the ends of the path. */
  lemma UniqueWalk(arcs: seq<Edge>, P: seq<Edge>, path: seq<Node>)
    requires Distinct(path) && Follows(P, path)
    requires forall a :: a in arcs ==> a in P || a.w > Weight(P)
    ensures forall q :: IsWalk(arcs, q, path[0], Last(path)) ==>
      Weight(q) >= Weight(P) && (Weight(q) == Weight(P) ==> q == P)
  {
    forall q | IsWalk(arcs, q, path[0], Last(path))
      ensures Weight(q) >= Weight(P) && (Weight(q) == Weight(P) ==> q == P)
    {
      if j :| 0 <= j < |q| && q[j] !in P {
        WalkArcs(arcs, q, path[0], Last(path), j);
        HeavyEdge(q, j);
        assert Weight(q) > Weight(P);
      } else {
        OnlyPath(arcs, P, path, q, Last(path));
        DistinctLast(path, |q|);
        assert |q| == |P|;
        assert q == P[..|P|];
        assert q == P;
      }
    }
  }

  // ---------------------------------------------------------------------
  // What walking the path builds

  /** The weight link i of the path ends up with: its starting weight if
      it had one, its skip draw otherwise. */
  function LinkWeight(path: seq<Node>, start: map<Pair, nat>, skips: seq<nat>, i: nat): nat
    requires i + 1 < |path| && i < |skips|
  {
    if Link(path, i) in start then start[Link(path, i)] else skips[i]
  }

  /** The first k links of a path. */
  function LinkSet(path: seq<Node>, k: nat): set<Pair>
    requires k < |path|
  {
    if k == 0 then {} else LinkSet(path, k - 1) + {Link(path, k - 1)}
  }

  /** A pair is among the first k links exactly when it is one of them. */
  lemma {:induction false} LinkSetMembers(path: seq<Node>, k: nat, e: Pair)
    requires k < |path|
    ensures e in LinkSet(path, k) <==> exists i :: 0 <= i < k && e == Link(path, i)
  {
    if k > 0 {
      LinkSetMembers(path, k - 1, e);
    }
  }

  /** What walking the first k links of a path of distinct nodes keeps of
      the tables: the starting weights stay, path_edges holds exactly the
      links walked, and each of them has its LinkWeight. */
  ghost predicate Keyed(path: seq<Node>, start: map<Pair, nat>, skips: seq<nat>, k: nat, p: Progress)
    requires k < |path| && k <= |skips|
  {
    && (forall e :: e in start ==> e in p.weights && p.weights[e] == start[e])
    && (forall e :: e in p.weights ==> e in start || e in p.onPath)
    && p.onPath == LinkSet(path, k)
    && (forall i :: 0 <= i < k ==> Link(path, i) in p.weights && p.weights[Link(path, i)] == LinkWeight(path, start, skips, i))
  }

  /** Keyed, and path_cost is the weight of the links walked. */
  ghost predicate Walking(path: seq<Node>, start: map<Pair, nat>, skips: seq<nat>, k: nat, p: Progress)
    requires k < |path| && k <= |skips|
  {
    Keyed(path, start, skips, k, p) && p.cost == Weight(Arcs(path, p.weights, k))
  }

  /** Walking one more link keeps Keyed. */
  lemma StepKeyed(path: seq<Node>, start: map<Pair, nat>, skips: seq<nat>, k: nat, p: Progress)
    requires Distinct(path) && 0 < k < |path| && k <= |skips|
    requires Keyed(path, start, skips, k - 1, p)
    ensures Keyed(path, start, skips, k, Step(p, Link(path, k - 1), skips[k - 1]))
  {
    var e := Link(path, k - 1);
    var p' := Step(p, e, skips[k - 1]);
    forall i | 0 <= i < k - 1 ensures Link(path, i) != e {
      assert path[i] != path[k - 1];
    }
    LinkSetMembers(path, k - 1, e);
    assert e in p.weights ==> e in start;
    forall x | x in start ensures x in p'.weights && p'.weights[x] == start[x] {
      assert x in p.weights;
    }
    forall x | x in p'.weights ensures x in start || x in p'.onPath {
      if x != e {
        assert x in p.weights;
      }
    }
    forall i | 0 <= i < k
      ensures Link(path, i) in p'.weights && p'.weights[Link(path, i)] == LinkWeight(path, start, skips, i)
    {
      if i < k - 1 {
        assert Link(path, i) != e;
      }
    }
  }

  /** Walking one more link keeps Walking. */
  lemma StepWalking(path: seq<Node>, start: map<Pair, nat>, skips: seq<nat>, k: nat, p: Progress)
    requires Distinct(path) && 0 < k < |path| && k <= |skips|
    requires Walking(path, start, skips, k - 1, p)
    ensures Walking(path, start, skips, k, Step(p, Link(path, k - 1), skips[k - 1]))
  {
    var e := Link(path, k - 1);
    var p' := Step(p, e, skips[k - 1]);
    StepKeyed(path, start, skips, k, p);
    var q := Arcs(path, p.weights, k - 1);
    ArcsAgree(path, p.weights, p'.weights, k - 1);
    var a := Edge(path[k - 1], path[k], p'.weights[e]);
    assert Arcs(path, p'.weights, k) == q + [a];
    assert (q + [a])[..|q|] == q;
  }

  /** The walk along SHORTEST_PATH keeps Walking over a path of distinct nodes. */
  lemma {:induction false} WalkedFacts(path: seq<Node>, start: map<Pair, nat>, skips: seq<nat>, k: nat)
    requires Distinct(path) && k < |path| && k <= |skips|
    ensures Walking(path, start, skips, k, Walked(path, start, skips, k))
  {
    if k > 0 {
      WalkedFacts(path, start, skips, k - 1);
      StepWalking(path, start, skips, k, Walked(path, start, skips, k - 1));
    }
  }

  /** Arcs depends only on the weights of the links. */
  lemma ArcsAgree(path: seq<Node>, weights: map<Pair, nat>, weights': map<Pair, nat>, k: nat)
    requires k < |path|
    requires forall i :: 0 <= i < k ==>
      Link(path, i) in weights && Link(path, i) in weights' && weights[Link(path, i)] == weights'[Link(path, i)]
    ensures Arcs(path, weights, k) == Arcs(path, weights', k)
  {
    assert forall i :: 0 <= i < k ==> Arcs(path, weights, k)[i] == Arcs(path, weights', k)[i];
  }

  /** What the weights of EDGES need of a walked path: path_edges holds
      exactly its links, each has a weight, and path_cost is their sum. */
  ghost predicate Finished(path: seq<Node>, p: Progress)
    requires 0 < |path|
  {
    && p.onPath == LinkSet(path, |path| - 1)
    && (forall i :: 0 <= i < |path| - 1 ==> Link(path, i) in p.weights)
    && p.cost == Weight(Arcs(path, p.weights, |path| - 1))
  }

  /** For a path of distinct nodes whose links are among the pairs, once
      it has been walked: its arcs are edges of the weighted pairs and form
      a walk through the path whose weight is path_cost. */
  lemma PathOnEdges(path: seq<Node>, p: Progress,
                    pairs: seq<Pair>, eager: seq<nat>, extras: seq<nat>)
    requires Distinct(path) && 2 <= |path|
    requires Finished(path, p)
    requires |eager| == |pairs| && |extras| == |pairs|
    requires forall i :: 0 <= i < |path| - 1 ==> Link(path, i) in pairs
    ensures var P := Arcs(path, p.weights, |path| - 1);
      && Follows(P, path) && IsWalk(Weighted(pairs, |pairs|, p, eager, extras), P, path[0], Last(path))
      && Trace(path[0], P) == path && Weight(P) == p.cost
  {
    var k := |path| - 1;
    var P := Arcs(path, p.weights, k);
    var E := Weighted(pairs, |pairs|, p, eager, extras);
    forall i | 0 <= i < k ensures P[i] in E {
      var j :| 0 <= j < |pairs| && pairs[j] == Link(path, i);
      LinkSetMembers(path, k, Link(path, i));
      assert E[j] == P[i];
    }
    ArcsWalk(E, path, p.weights, k);
    assert path[..k + 1] == path;
  }

  /** Once a path of distinct nodes has been walked, every other edge of
      the weighted pairs weighs more than path_cost, when every extra draw
      is positive. */
  lemma OffPathHeavier(path: seq<Node>, p: Progress,
                       pairs: seq<Pair>, eager: seq<nat>, extras: seq<nat>)
    requires Distinct(path) && 2 <= |path|
    requires Finished(path, p)
    requires |eager| == |pairs| && |extras| == |pairs| && forall k :: 0 <= k < |extras| ==> extras[k] > 0
    ensures forall a :: a in Weighted(pairs, |pairs|, p, eager, extras) ==> a in Arcs(path, p.weights, |path| - 1) || a.w > p.cost
  {
    var k := |path| - 1;
    var P := Arcs(path, p.weights, k);
    var E := Weighted(pairs, |pairs|, p, eager, extras);
    forall a | a in E ensures a in P || a.w > p.cost {
      var j :| 0 <= j < |E| && E[j] == a;
      LinkSetMembers(path, k, pairs[j]);
      if pairs[j] in p.onPath {
        var i :| 0 <= i < k && pairs[j] == Link(path, i);
        assert a == P[i];
      }
    }
  }

  /** The edges of EDGES along the chosen path. */
  function ChosenPath(choice: nat, base: seq<nat>, skips: seq<nat>, eager: seq<nat>, extras: seq<nat>): seq<Edge>
    requires InstanceDraws(choice, base, skips, eager, extras)
  {
    var path := POSSIBLE_PATHS[choice];
    CandidatePaths(choice);
    assert |path| <= |NODES|;
    WalkedFacts(path, BaseWeights(base, |NODES| - 1), skips, |path| - 1);
    Arcs(path, Chosen(choice, base, skips, eager, extras).weights, |path| - 1)
  }

  /** build_5node_instances: the chosen path's edges form a walk in EDGES from A to
      E through the chosen nodes, and its weight is DISTANCE; a chain link
      weighs a draw in [3, 7] and a skip link one in [4, 9]. */
  lemma InstanceDistance(choice: nat, base: seq<nat>, skips: seq<nat>, eager: seq<nat>, extras: seq<nat>)
    requires InstanceDraws(choice, base, skips, eager, extras)
    ensures var P := ChosenPath(choice, base, skips, eager, extras);
      var path := POSSIBLE_PATHS[choice];
      && Follows(P, path)
      && IsWalk(InstanceEdges(choice, base, skips, eager, extras), P, SOURCE, TARGET)
      && Trace(SOURCE, P) == path
      && Weight(P) == Chosen(choice, base, skips, eager, extras).cost
  {
    var path := POSSIBLE_PATHS[choice];
    CandidatePaths(choice);
    assert |path| <= |NODES|;
    var start := BaseWeights(base, |NODES| - 1);
    WalkedFacts(path, start, skips, |path| - 1);
    var p := Walked(path, start, skips, |path| - 1);
    PathOnEdges(path, p, ALL_EDGES_PAIRS, eager, extras);
  }

  /** build_5node_instances: a link of the chosen path between consecutive letters
      weighs its base draw, in [3, 7]; a skip link weighs its skip draw,
      in [4, 9]. */
  lemma InstanceWeights(choice: nat, base: seq<nat>, skips: seq<nat>, eager: seq<nat>, extras: seq<nat>, i: nat)
    requires InstanceDraws(choice, base, skips, eager, extras)
    requires i + 1 < |POSSIBLE_PATHS[choice]|
    ensures var P := ChosenPath(choice, base, skips, eager, extras);
      var e := Link(POSSIBLE_PATHS[choice], i);
      && i < |P|
      && (forall j :: 0 <= j < |NODES| - 1 && e == Link(NODES, j) ==> P[i].w == base[j])
      && ((forall j :: 0 <= j < |NODES| - 1 ==> e != Link(NODES, j)) ==> P[i].w == skips[i])
  {
    var path := POSSIBLE_PATHS[choice];
    CandidatePaths(choice);
    assert |path| <= |NODES|;
    var start := BaseWeights(base, |NODES| - 1);
    BaseLinks(base, |NODES| - 1);
    WalkedFacts(path, start, skips, |path| - 1);
    var p := Walked(path, start, skips, |path| - 1);
    assert ChosenPath(choice, base, skips, eager, extras)[i].w == p.weights[Link(path, i)];
  }

  /** build_5node_instances: EDGES has one edge per pair, in order and directed
      from the pair's first node; a pair off the path weighs DISTANCE plus
      a draw in [2, 8]. */
  lemma InstancePairs(choice: nat, base: seq<nat>, skips: seq<nat>, eager: seq<nat>, extras: seq<nat>)
    requires InstanceDraws(choice, base, skips, eager, extras)
    ensures var E := InstanceEdges(choice, base, skips, eager, extras);
      var p := Chosen(choice, base, skips, eager, extras);
      && |E| == |ALL_EDGES_PAIRS|
      && (forall k :: 0 <= k < |E| ==> (E[k].u, E[k].v) == ALL_EDGES_PAIRS[k])
      && (forall k :: 0 <= k < |E| ==> ALL_EDGES_PAIRS[k] !in p.onPath ==> p.cost + 2 <= E[k].w <= p.cost + 8)
  {
  }

  /** build_5node_instances, as its docstring promises: the chosen path is the unique shortest
      directed walk from A to E in EDGES, and DISTANCE is its weight. */
  lemma InstanceShortest(choice: nat, base: seq<nat>, skips: seq<nat>, eager: seq<nat>, extras: seq<nat>)
    requires InstanceDraws(choice, base, skips, eager, extras)
    ensures var E := InstanceEdges(choice, base, skips, eager, extras);
      var d := Chosen(choice, base, skips, eager, extras).cost;
      && IsShortest(E, SOURCE, TARGET, Fin(d))
      && forall q :: IsWalk(E, q, SOURCE, TARGET) && Weight(q) == d ==> q == ChosenPath(choice, base, skips, eager, extras)
  {
    var path := POSSIBLE_PATHS[choice];
    CandidatePaths(choice);
    assert |path| <= |NODES|;
    var start := BaseWeights(base, |NODES| - 1);
    WalkedFacts(path, start, skips, |path| - 1);
    var p := Walked(path, start, skips, |path| - 1);
    PathOnEdges(path, p, ALL_EDGES_PAIRS, eager, extras);
    OffPathHeavier(path, p, ALL_EDGES_PAIRS, eager, extras);
    var P := ChosenPath(choice, base, skips, eager, extras);
    var E := InstanceEdges(choice, base, skips, eager, extras);
    UniqueWalk(E, P, path);
  }
}
