/** Asier/files/main2.py: the city-graph exercise generator. Its dijkstra
    selects the unvisited node of least distance on every round (no heap),
    stops when that distance is inf or the node is the target, and
    rebuilds the path through prev; its generate_random_city_graph first
    chains the cities in a shuffled order, then adds further roads between
    pairs not yet joined. */
module CityDijkstra {
  import opened Graph

  // ---------------------------------------------------------------------
  // dijkstra(nodes, edges, source, target)

  /** Every settled distance is at most every unsettled one. */
  ghost predicate Ordered(dist: map<Node, Dist>, V: set<Node>, U: set<Node>) {
    forall x, y :: x in V && y in U && x in dist && y in dist ==> dist[x].Le(dist[y])
  }

  /** The state between two rounds: U is unvisited and V the rest of
      the nodes, V is settled and below U, and prev records how every
      finite distance was reached. */
  ghost predicate Round(arcs: seq<Edge>, N: set<Node>, source: Node, dist: map<Node, Dist>, prev: map<Node, Option<Node>>,
                        U: set<Node>, V: set<Node>, pw: map<Node, nat>, rank: map<Node, nat>, clock: nat)
  {
    && U <= N && V == N - U
    && Settled(arcs, N, source, dist, V) && Ordered(dist, V, U)
    && Linked(arcs, N, source, dist, V, prev, pw, rank, clock)
  }

  /** dijkstra's inner loop, the scan of the current node's list; every arc of the
      list is relaxed from dist[current], a distance that changed was
      lowered through current, which became its prev, and nothing else
      changed. */
  method Scan(ghost arcs: seq<Edge>, u: Node, hops: seq<Hop>,
              dist0: map<Node, Dist>, prev0: map<Node, Option<Node>>, ghost pw0: map<Node, nat>)
    returns (dist: map<Node, Dist>, prev: map<Node, Option<Node>>, ghost pw: map<Node, nat>)
    requires u in dist0 && dist0[u].Fin? && prev0.Keys == dist0.Keys
    requires forall h :: h in hops ==> Edge(u, h.to, h.w) in arcs && h.to in dist0
    ensures RelaxedTable(u, hops, |hops|, dist0, dist)
    ensures RelaxedLinks(arcs, u, dist0, prev0, pw0, dist, prev, pw)
  {
    dist, prev, pw := dist0, prev0, pw0;
    for i := 0 to |hops|
      invariant RelaxedTable(u, hops, i, dist0, dist)
      invariant RelaxedLinks(arcs, u, dist0, prev0, pw0, dist, prev, pw)
    {
      var neighbor, weight := hops[i].to, hops[i].w;
      assert hops[i] in hops;
      if dist[u].Plus(weight).Lt(dist[neighbor]) {
        UpdateTable(u, hops, i, dist0, dist);
        UpdateLinks(arcs, u, neighbor, weight, dist0, prev0, pw0, dist, prev, pw);
        dist, prev, pw := dist[neighbor := dist[u].Plus(weight)], prev[neighbor := Some(u)], pw[neighbor := weight];
      } else {
        SkipTable(u, hops, i, dist0, dist);
      }
    }
  }

  /** Settling the least unvisited node u: the settled distances do not
      move, the arcs out of the settled nodes are relaxed, and the settled
      distances stay below the unsettled ones. */
  lemma SettleLeast(arcs: seq<Edge>, N: set<Node>, source: Node, dist: map<Node, Dist>, V: set<Node>, U: set<Node>,
                    prev: map<Node, Option<Node>>, pw: map<Node, nat>, u: Node, hops: seq<Hop>,
                    dist': map<Node, Dist>, prev': map<Node, Option<Node>>, pw': map<Node, nat>)
    requires Settled(arcs, N, source, dist, V) && Ordered(dist, V, U) && V == N - U && U <= N
    requires u in U && dist[u].Fin? && forall y :: y in U ==> dist[u].Le(dist[y])
    requires forall a :: a in arcs && a.u == u ==> Hop(a.v, a.w) in hops
    requires RelaxedTable(u, hops, |hops|, dist, dist') && RelaxedLinks(arcs, u, dist, prev, pw, dist', prev', pw')
    ensures forall x :: x in V + {u} ==> dist'[x] == dist[x]
    ensures Settled(arcs, N, source, dist', V + {u}) && Ordered(dist', V + {u}, U - {u})
  {
    forall x | x in V + {u} ensures dist'[x] == dist[x] {
      if x != u {
        assert dist[x].Le(dist[u]);
      }
    }
    forall a | a in arcs && a.u in V + {u} ensures dist'[a.v].Le(dist'[a.u].Plus(a.w)) {
      if a.u == u {
        var k :| 0 <= k < |hops| && hops[k] == Hop(a.v, a.w);
      }
    }
    forall x, y | x in V + {u} && y in U - {u} && x in dist' && y in dist' ensures dist'[x].Le(dist'[y]) {
      assert dist'[x].Le(dist[u]);
      assert dist'[y] == dist[y] || dist'[y] == Fin(dist[u].n + pw'[y]);
    }
  }

  /** dijkstra's selection loop, one round that does not stop: remove the least
      unvisited node from unvisited and scan its list. */
  method Visit(ghost arcs: seq<Edge>, ghost N: set<Node>, source: Node, graph: map<Node, seq<Hop>>,
               dist0: map<Node, Dist>, prev0: map<Node, Option<Node>>, unvisited0: set<Node>, current: Node,
               ghost V0: set<Node>, ghost pw0: map<Node, nat>, ghost rank0: map<Node, nat>, ghost clock0: nat)
    returns (dist: map<Node, Dist>, prev: map<Node, Option<Node>>, unvisited: set<Node>,
             ghost V: set<Node>, ghost pw: map<Node, nat>, ghost rank: map<Node, nat>, ghost clock: nat)
    requires graph.Keys == N && forall x :: x in graph ==> graph[x] == Hops(arcs, x)
    requires Round(arcs, N, source, dist0, prev0, unvisited0, V0, pw0, rank0, clock0)
    requires current in unvisited0 && dist0[current].Fin? && forall y :: y in unvisited0 ==> dist0[current].Le(dist0[y])
    ensures unvisited == unvisited0 - {current} && V == V0 + {current} && |unvisited| < |unvisited0|
    ensures Round(arcs, N, source, dist, prev, unvisited, V, pw, rank, clock)
  {
    RemoveShrinks(unvisited0, current);
    unvisited := unvisited0 - {current};
    HopsExact(arcs, current);
    dist, prev, pw := Scan(arcs, current, graph[current], dist0, prev0, pw0);
    SettleLeast(arcs, N, source, dist0, V0, unvisited0, prev0, pw0, current, graph[current], dist, prev, pw);
    FreshLinked(arcs, N, source, dist0, V0, prev0, pw0, rank0, clock0, current, graph[current], dist, prev, pw);
    V, rank, clock := V0 + {current}, rank0[current := clock0], clock0 + 1;
  }

  /** dijkstra's stopping test: when the rounds stop at the least unvisited node c, because
      it is at inf or is the target, or because nothing is left unvisited,
      the target's distance is a lower bound on every walk to it. */
  lemma StopBound(arcs: seq<Edge>, N: set<Node>, source: Node, dist: map<Node, Dist>, prev: map<Node, Option<Node>>,
                  U: set<Node>, V: set<Node>, pw: map<Node, nat>, rank: map<Node, nat>, clock: nat, c: Node, target: Node)
    requires Round(arcs, N, source, dist, prev, U, V, pw, rank, clock) && target in N
    requires U == {} || (c in U && (forall y :: y in U ==> dist[c].Le(dist[y])) && (dist[c] == Inf || c == target))
    ensures LowerBound(arcs, source, target, dist[target])
  {
    var m := if U == {} then Inf else dist[c];
    assert Frontier(arcs, dist, source, V, m);
    SettledBound(arcs, dist, source, V, m, target);
  }

  /** dijkstra's set-up and selection loop: the rounds from the source until the least
      unvisited node is at inf or is the target, or nothing is left
      unvisited. The target's distance is then a lower bound on every walk
      to it, and prev records how every finite distance was reached. */
  method Search(nodes: seq<Node>, ghost edges: seq<Edge>, graph: map<Node, seq<Hop>>, source: Node, target: Node)
    returns (dist: map<Node, Dist>, prev: map<Node, Option<Node>>,
             ghost V: set<Node>, ghost pw: map<Node, nat>, ghost rank: map<Node, nat>, ghost clock: nat)
    requires Within(edges, NodeSet(nodes)) && source in nodes && target in nodes
    requires graph.Keys == NodeSet(nodes) && forall x :: x in graph ==> graph[x] == Hops(edges, x)
    ensures dist.Keys == NodeSet(nodes) && dist[source] == Fin(0)
    ensures Linked(edges, NodeSet(nodes), source, dist, V, prev, pw, rank, clock)
    ensures LowerBound(edges, source, target, dist[target])
  {
    ghost var N := NodeSet(nodes);
    dist := Initial(nodes, source);
    prev := map n | n in nodes :: None;
    var unvisited := NodeSet(nodes);
    V, pw, rank, clock := {}, map[], map[], 0;
    StartLinked(nodes, edges, source, prev);
    while unvisited != {}
      invariant Round(edges, N, source, dist, prev, unvisited, V, pw, rank, clock)
      decreases |unvisited|
    {
      var current := LeastNode(unvisited, dist);
      if dist[current] == Inf || current == target {
        StopBound(edges, N, source, dist, prev, unvisited, V, pw, rank, clock, current, target);
        return;
      }
      dist, prev, unvisited, V, pw, rank, clock := Visit(edges, N, source, graph, dist, prev, unvisited, current, V, pw, rank, clock);
    }
    StopBound(edges, N, source, dist, prev, unvisited, V, pw, rank, clock, source, target);
  }

  /** dijkstra's path rebuild: walk prev back from the target, prepending each node,
      until prev gives None. The path is the trace of a walk from the
      source of weight dist[target], or just [target] when the target is
      unreachable; it is [source] when the target is the source. */
  method Rebuild(ghost arcs: seq<Edge>, ghost N: set<Node>, source: Node, dist: map<Node, Dist>, ghost F: set<Node>,
                 prev: map<Node, Option<Node>>, ghost pw: map<Node, nat>, ghost rank: map<Node, nat>, ghost clock: nat,
                 target: Node)
    returns (path: seq<Node>, ghost walk: seq<Edge>)
    requires dist.Keys == N && target in N && source in N && dist[source] == Fin(0)
    requires Linked(arcs, N, source, dist, F, prev, pw, rank, clock)
    ensures dist[target].Fin? ==>
      IsWalk(arcs, walk, source, target) && Weight(walk) == dist[target].n && path == Trace(source, walk)
    ensures dist[target] == Inf ==> path == [target]
    ensures target == source ==> path == [source]
  {
    path := [];
    walk := [];
    var current: Option<Node> := Some(target);
    ghost var x := target;
    while current.Some?
      invariant current.Some? ==> current.value in N
      invariant path == [] ==> current == Some(target) && walk == [] && x == target
      invariant path != [] ==> x in N && current == prev[x] && IsWalk(arcs, walk, x, target) && path == Trace(x, walk)
      invariant path != [] && dist[target].Fin? ==> dist[x].Fin? && dist[target].n == dist[x].n + Weight(walk)
      invariant path != [] && dist[target] == Inf ==> path == [target]
      invariant path != [] && target == source ==> path == [source]
      decreases match current case None => 0 case Some(y) => if y in F then rank[y] + 1 else clock + 1
    {
      var y := current.value;
      if path == [] {
        path := [y];
      } else {
        var a := Edge(y, x, pw[x]);
        PrependWalk(arcs, a, walk, target);
        walk := [a] + walk;
        path := [y] + path;
      }
      x := y;
      current := prev[y];
    }
  }

  /** The whole of dijkstra(nodes, edges, source, target): the returned
      distance is the least weight of a directed walk from the source to
      the target (inf when there is none), and the path is that walk's
      sequence of nodes, or [target] alone when the target is
      unreachable. */
  method Dijkstra(nodes: seq<Node>, edges: seq<Edge>, source: Node, target: Node)
    returns (path: seq<Node>, d: Dist, ghost walk: seq<Edge>)
    requires Within(edges, NodeSet(nodes)) && source in nodes && target in nodes
    ensures IsShortest(edges, source, target, d)
    ensures d.Fin? ==> IsWalk(edges, walk, source, target) && Weight(walk) == d.n && path == Trace(source, walk)
    ensures d == Inf ==> path == [target]
    ensures source == target ==> d == Fin(0) && path == [source]
  {
    var graph := DirectedAdjacency(nodes, edges);
    var dist, prev, V, pw, rank, clock := Search(nodes, edges, graph, source, target);
    d := dist[target];
    if d.Fin? {
      var q := ChainWalk(edges, NodeSet(nodes), source, dist, V, prev, pw, rank, clock, target);
    }
    if source == target {
      assert IsWalk(edges, [], source, target);
    }
    path, walk := Rebuild(edges, NodeSet(nodes), source, dist, V, prev, pw, rank, clock, target);
  }
}
