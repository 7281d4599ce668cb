/** Asier/main.py: the exercise generator over five European cities. Its
    dijkstra follows the edges in their given direction, stops as soon as
    the target leaves the heap, and rebuilds the path through prev; its
    generate_graph draws each unordered pair of cities with probability
    one half and adds the pair in both directions. */
module TargetDijkstra {
  import opened Graph

  /** The five cities of the exercise. */
  const CITIES: seq<Node> := ["Berlin", "Paris", "London", "Prague", "Vienna"]

  // ---------------------------------------------------------------------
  // dijkstra(nodes, edges, source, target)

  /** The heap during the scan: it only grows, by entries no lower than
      dist[u] for nodes whose distance changed. */
  ghost predicate RelaxedHeap(u: Node, dist0: map<Node, Dist>, prev0: map<Node, Option<Node>>, heap0: multiset<Entry>,
                              dist: map<Node, Dist>, prev: map<Node, Option<Node>>, heap: multiset<Entry>)
  {
    && u in dist0 && dist0[u].Fin? && dist.Keys == dist0.Keys
    && (forall f :: f in heap0 ==> f in heap)
    && (forall f :: f in heap ==>
          f in heap0 || (f.node in dist && dist[f.node] != dist0[f.node] && dist0[u].n <= f.d && dist[f.node].Le(Fin(f.d))))
    && (forall x :: x in dist && dist[x] != dist0[x] ==> dist[x].Fin? && Entry(dist[x].n, x) in heap)
    && (dist == dist0 ==> heap == heap0 && prev == prev0)
  }

  /** What holds after the first i entries of u's list have been
      scanned from dist0, prev0, heap0. */
  ghost predicate Relaxed(arcs: seq<Edge>, u: Node, hops: seq<Hop>, i: nat,
                          dist0: map<Node, Dist>, prev0: map<Node, Option<Node>>, heap0: multiset<Entry>, pw0: map<Node, nat>,
                          dist: map<Node, Dist>, prev: map<Node, Option<Node>>, heap: multiset<Entry>, pw: map<Node, nat>)
  {
    && RelaxedTable(u, hops, i, dist0, dist)
    && RelaxedLinks(arcs, u, dist0, prev0, pw0, dist, prev, pw)
    && RelaxedHeap(u, dist0, prev0, heap0, dist, prev, heap)
  }

  lemma UpdateHeap(u: Node, v: Node, w: nat, dist0: map<Node, Dist>, prev0: map<Node, Option<Node>>, heap0: multiset<Entry>,
                   dist: map<Node, Dist>, prev: map<Node, Option<Node>>, heap: multiset<Entry>)
    requires u in dist0 && dist0[u].Fin? && dist.Keys == dist0.Keys && dist[u] == dist0[u]
    requires RelaxedHeap(u, dist0, prev0, heap0, dist, prev, heap)
    requires v in dist && dist[u].Plus(w).Lt(dist[v]) && (forall x :: x in dist ==> dist[x].Le(dist0[x]))
    ensures RelaxedHeap(u, dist0, prev0, heap0, dist[v := dist[u].Plus(w)], prev[v := Some(u)], heap + multiset{Entry(dist[u].n + w, v)})
  {
    var dist', heap' := dist[v := dist[u].Plus(w)], heap + multiset{Entry(dist[u].n + w, v)};
    assert dist'[v] != dist0[v];
    forall f | f in heap'
      ensures f in heap0 || (f.node in dist' && dist'[f.node] != dist0[f.node] && dist0[u].n <= f.d && dist'[f.node].Le(Fin(f.d)))
    {
      if f != Entry(dist[u].n + w, v) {
        assert f in heap;
      }
    }
    forall x | x in dist' && dist'[x] != dist0[x] ensures dist'[x].Fin? && Entry(dist'[x].n, x) in heap' {
      if x != v {
        assert Entry(dist[x].n, x) in heap;
      }
    }
  }

  /** ScanOfLower in the terms of the scan of u's list: dist[v] becomes
      dist[u] + w and (dist[u] + w, v) is pushed. */
  lemma ScanLower(u: Node, hops: seq<Hop>, i: nat, dist0: map<Node, Dist>, heap0: multiset<Entry>,
                  dist: map<Node, Dist>, heap: multiset<Entry>, v: Node, w: nat)
    requires u in dist0 && dist0[u].Fin? && u in dist && dist[u] == dist0[u]
    requires ScanAt(dist0[u].n, hops, i, dist0, heap0, dist, heap) && i < |hops| && hops[i] == Hop(v, w)
    requires v in dist && dist[u].Plus(w).Lt(dist[v])
    ensures ScanAt(dist0[u].n, hops, i + 1, dist0, heap0, dist[v := dist[u].Plus(w)], heap + multiset{Entry(dist[u].n + w, v)})
  {
    ScanOfLower(dist0[u].n, hops, i, dist0, heap0, dist, heap, v, w);
  }

  /** One turn of dijkstra's inner loop, for the entry (v, w) at index i
      of u's list: when dist[u] + w beats dist[v], dist[v] drops to it, prev[v]
      becomes u and (dist[v], v) is pushed; otherwise nothing changes. */
  method RelaxArc(ghost arcs: seq<Edge>, u: Node, hops: seq<Hop>, i: nat,
                  ghost dist0: map<Node, Dist>, ghost prev0: map<Node, Option<Node>>, ghost heap0: multiset<Entry>,
                  ghost pw0: map<Node, nat>,
                  dist: map<Node, Dist>, prev: map<Node, Option<Node>>, heap: multiset<Entry>, ghost pw: map<Node, nat>)
    returns (dist': map<Node, Dist>, prev': map<Node, Option<Node>>, heap': multiset<Entry>, ghost pw': map<Node, nat>)
    requires u in dist0 && dist0[u].Fin? && prev0.Keys == dist0.Keys
    requires i < |hops| && Edge(u, hops[i].to, hops[i].w) in arcs && hops[i].to in dist0
    requires ScanAt(dist0[u].n, hops, i, dist0, heap0, dist, heap)
    requires Relaxed(arcs, u, hops, i, dist0, prev0, heap0, pw0, dist, prev, heap, pw)
    ensures ScanAt(dist0[u].n, hops, i + 1, dist0, heap0, dist', heap')
    ensures Relaxed(arcs, u, hops, i + 1, dist0, prev0, heap0, pw0, dist', prev', heap', pw')
  {
    var v, w := hops[i].to, hops[i].w;
    if dist[u].Plus(w).Lt(dist[v]) {
      ScanLower(u, hops, i, dist0, heap0, dist, heap, v, w);
      UpdateTable(u, hops, i, dist0, dist);
      UpdateLinks(arcs, u, v, w, dist0, prev0, pw0, dist, prev, pw);
      UpdateHeap(u, v, w, dist0, prev0, heap0, dist, prev, heap);
      dist', prev', pw', heap' := dist[v := dist[u].Plus(w)], prev[v := Some(u)], pw[v := w], heap + multiset{Entry(dist[u].n + w, v)};
    } else {
      ScanOfSkip(dist0[u].n, hops, i, dist0, heap0, dist, heap, v, w);
      SkipTable(u, hops, i, dist0, dist);
      dist', prev', pw', heap' := dist, prev, pw, heap;
    }
  }

  /** dijkstra's inner loop, the scan of u's list: the table and the heap
      are those of ScanOf from dist[u], so each drop pushes exactly one
      entry; every arc of the list is relaxed, a distance that changed was
      lowered through u, which became its prev, and nothing else changed. */
  method Relax(ghost arcs: seq<Edge>, u: Node, hops: seq<Hop>,
               dist0: map<Node, Dist>, prev0: map<Node, Option<Node>>, heap0: multiset<Entry>,
               ghost pw0: map<Node, nat>)
    returns (dist: map<Node, Dist>, prev: map<Node, Option<Node>>, heap: multiset<Entry>, ghost pw: map<Node, nat>)
    requires u in dist0 && dist0[u].Fin? && prev0.Keys == dist0.Keys
    requires forall h :: h in hops ==> Edge(u, h.to, h.w) in arcs && h.to in dist0
    ensures ScanAt(dist0[u].n, hops, |hops|, dist0, heap0, dist, heap)
    ensures Relaxed(arcs, u, hops, |hops|, dist0, prev0, heap0, pw0, dist, prev, heap, pw)
  {
    dist, prev, heap, pw := dist0, prev0, heap0, pw0;
    var i := 0;
    while i < |hops|
      invariant ScanAt(dist0[u].n, hops, i, dist0, heap0, dist, heap)
      invariant Relaxed(arcs, u, hops, i, dist0, prev0, heap0, pw0, dist, prev, heap, pw)
    {
      assert hops[i] in hops;
      dist, prev, heap, pw := RelaxArc(arcs, u, hops, i, dist0, prev0, heap0, pw0, dist, prev, heap, pw);
      i := i + 1;
    }
  }

  /** dijkstra's path rebuild: walk prev back from the target, prepending each node,
      while the current name is truthy (not None and not the empty
      string). When no node is named "", the path is the trace of a walk
      from the source of weight dist[target], or just [target] when the
      target is unreachable. */
  method Rebuild(ghost arcs: seq<Edge>, ghost N: set<Node>, source: Node, dist: map<Node, Dist>, ghost F: set<Node>,
                 prev: map<Node, Option<Node>>, ghost pw: map<Node, nat>, ghost rank: map<Node, nat>, ghost clock: nat,
                 target: Node)
    returns (path: seq<Node>, ghost walk: seq<Edge>)
    requires dist.Keys == N && target in N && source in N && dist[source] == Fin(0)
    requires Linked(arcs, N, source, dist, F, prev, pw, rank, clock)
    ensures "" !in N && dist[target].Fin? ==>
      IsWalk(arcs, walk, source, target) && Weight(walk) == dist[target].n && path == Trace(source, walk)
    ensures "" !in N && dist[target] == Inf ==> path == [target]
    ensures target == source && source != "" ==> path == [source]
    ensures target == "" ==> path == []
  {
    path := [];
    walk := [];
    var cur: Option<Node> := Some(target);
    ghost var x := target;
    while cur.Some? && cur.value != ""
      invariant cur.Some? ==> cur.value in N
      invariant path == [] ==> cur == Some(target) && walk == [] && x == target
      invariant path != [] ==> x in N && cur == prev[x] && IsWalk(arcs, walk, x, target) && path == Trace(x, walk)
      invariant path != [] && dist[target].Fin? ==> dist[x].Fin? && dist[target].n == dist[x].n + Weight(walk)
      invariant path != [] && dist[target] == Inf ==> path == [target]
      invariant path != [] && target == source ==> path == [source] && x == source
      invariant target == "" ==> path == []
      decreases match cur case None => 0 case Some(y) => if y in F then rank[y] + 1 else clock + 1
    {
      var y := cur.value;
      if path == [] {
        path := [y];
      } else {
        var a := Edge(y, x, pw[x]);
        PrependWalk(arcs, a, walk, target);
        walk := [a] + walk;
        path := [y] + path;
      }
      x := y;
      cur := prev[y];
    }
  }

  /** At a pop of the least entry, the table is a frontier at the popped
      distance: settled distances are at most every entry, and every
      finite unsettled distance has an entry. */
  lemma PopFrontier(arcs: seq<Edge>, N: set<Node>, source: Node, dist: map<Node, Dist>, F: set<Node>,
                    pq: multiset<Entry>, popped: Entry)
    requires Settled(arcs, N, source, dist, F) && Queued(N, dist, F, pq)
    requires popped in pq && forall f :: f in pq ==> popped.d <= f.d
    ensures Frontier(arcs, dist, source, F, Fin(popped.d))
  {
    forall y | y in dist && y !in F ensures Fin(popped.d).Le(dist[y]) {
      if dist[y].Fin? {
        assert Entry(dist[y].n, y) in pq;
      }
    }
  }

  /** With an empty heap every unsettled node is at inf, so the table is
      a frontier at inf. */
  lemma EmptyFrontier(arcs: seq<Edge>, N: set<Node>, source: Node, dist: map<Node, Dist>, F: set<Node>)
    requires Settled(arcs, N, source, dist, F) && Queued(N, dist, F, multiset{})
    ensures Frontier(arcs, dist, source, F, Inf)
    ensures forall y :: y in dist && y !in F ==> dist[y] == Inf
  {
  }

  /** dijkstra's set-up: the heap holding only the source's entry meets the heap
      invariant over the initial table with nothing settled. */
  lemma StartSearch(nodes: seq<Node>, source: Node)
    requires source in nodes
    ensures Queued(NodeSet(nodes), Initial(nodes, source), {}, multiset{Entry(0, source)})
  {
  }

  /** A stale pop (u already settled): every arc from u is relaxed, so
      the scan changes nothing. */
  lemma StaleScan(arcs: seq<Edge>, N: set<Node>, source: Node, dist: map<Node, Dist>, F: set<Node>,
                  prev: map<Node, Option<Node>>, pw: map<Node, nat>,
                  u: Node, hops: seq<Hop>, heap0: multiset<Entry>,
                  dist': map<Node, Dist>, prev': map<Node, Option<Node>>, heap': multiset<Entry>, pw': map<Node, nat>)
    requires Settled(arcs, N, source, dist, F)
    requires u in F
    requires Relaxed(arcs, u, hops, |hops|, dist, prev, heap0, pw, dist', prev', heap', pw')
    ensures dist' == dist && prev' == prev && heap' == heap0
    ensures forall x :: x in dist && x in pw ==> x in pw' && pw'[x] == pw[x]
  {
    forall x | x in dist ensures dist'[x] == dist[x] {
      assert dist'[x] != dist[x] ==> Edge(u, x, pw'[x]) in arcs && dist'[x] == dist[u].Plus(pw'[x]);
    }
    assert dist' == dist;
  }

  /** The prev invariant only reads the recorded weights of nodes that have
      a predecessor, so extending pw keeps it. */
  lemma LinkedWeights(arcs: seq<Edge>, N: set<Node>, source: Node, dist: map<Node, Dist>, F: set<Node>,
                      prev: map<Node, Option<Node>>, pw: map<Node, nat>, rank: map<Node, nat>, clock: nat, pw': map<Node, nat>)
    requires dist.Keys == N && Linked(arcs, N, source, dist, F, prev, pw, rank, clock)
    requires forall x :: x in dist && x in pw ==> x in pw' && pw'[x] == pw[x]
    ensures Linked(arcs, N, source, dist, F, prev, pw', rank, clock)
  {
  }

  /** A first pop of u at its distance: with u settled, the table
      invariant holds again. */
  lemma FreshSettled(arcs: seq<Edge>, N: set<Node>, source: Node, dist: map<Node, Dist>, F: set<Node>,
                     heap1: multiset<Entry>, popped: Entry, hops: seq<Hop>, heap0: multiset<Entry>,
                     prev: map<Node, Option<Node>>, pw: map<Node, nat>,
                     dist': map<Node, Dist>, prev': map<Node, Option<Node>>, heap': multiset<Entry>, pw': map<Node, nat>)
    requires Settled(arcs, N, source, dist, F) && Queued(N, dist, F, heap1) && popped in heap1
    requires popped.node !in F && popped.node in N && dist[popped.node] == Fin(popped.d)
    requires forall a :: a in arcs && a.u == popped.node ==> Hop(a.v, a.w) in hops
    requires Relaxed(arcs, popped.node, hops, |hops|, dist, prev, heap0, pw, dist', prev', heap', pw')
    ensures forall x :: x in F + {popped.node} ==> dist'[x] == dist[x]
    ensures Settled(arcs, N, source, dist', F + {popped.node})
  {
    var u, d := popped.node, popped.d;
    forall x | x in F + {u} ensures dist'[x] == dist[x] {
      if x != u {
        assert dist[x].Le(Fin(d));
      }
    }
    forall a | a in arcs && a.u in F + {u} ensures dist'[a.v].Le(dist'[a.u].Plus(a.w)) {
      if a.u == u {
        var k :| 0 <= k < |hops| && hops[k] == Hop(a.v, a.w);
      }
    }
  }

  /** A first pop of u at its distance: with u settled, the heap
      invariant holds again. */
  lemma FreshQueued(N: set<Node>, dist: map<Node, Dist>, F: set<Node>, heap1: multiset<Entry>, popped: Entry,
                    hops: seq<Hop>, arcs: seq<Edge>, prev: map<Node, Option<Node>>, pw: map<Node, nat>,
                    dist': map<Node, Dist>, prev': map<Node, Option<Node>>, heap': multiset<Entry>, pw': map<Node, nat>)
    requires dist.Keys == N && F <= N && Queued(N, dist, F, heap1)
    requires popped in heap1 && (forall f :: f in heap1 ==> popped.d <= f.d)
    requires popped.node !in F && popped.node in N && dist[popped.node] == Fin(popped.d)
    requires Relaxed(arcs, popped.node, hops, |hops|, dist, prev, heap1 - multiset{popped}, pw, dist', prev', heap', pw')
    requires forall x :: x in F + {popped.node} ==> dist'[x] == dist[x]
    ensures Queued(N, dist', F + {popped.node}, heap')
  {
    var u, d, heap0 := popped.node, popped.d, heap1 - multiset{popped};
    forall f | f in heap' ensures f.node in N && dist'[f.node].Le(Fin(f.d)) {
      if f in heap0 {
        assert f in heap1;
      }
    }
    forall y | y in N && y !in F + {u} && dist'[y].Fin? ensures Entry(dist'[y].n, y) in heap' {
      if dist'[y] == dist[y] {
        assert Entry(dist[y].n, y) in heap1;
        assert Entry(dist[y].n, y) in heap0;
      }
    }
    forall x, f | x in F + {u} && f in heap' ensures dist'[x].Le(Fin(f.d)) {
      if x != u {
        assert dist[x].Le(Fin(d));
      }
      if f in heap0 {
        assert f in heap1;
      }
    }
  }

  /** dijkstra's inner loop after a pop of u that is not the target: the scan, and
      u counted as settled if this is its first pop. */
  method Expand(ghost arcs: seq<Edge>, ghost N: set<Node>, source: Node, graph: map<Node, seq<Hop>>,
                dist0: map<Node, Dist>, prev0: map<Node, Option<Node>>, heap0: multiset<Entry>,
                ghost heap1: multiset<Entry>, popped: Entry, ghost F0: set<Node>, ghost pw0: map<Node, nat>, ghost rank0: map<Node, nat>, ghost clock0: nat)
    returns (dist: map<Node, Dist>, prev: map<Node, Option<Node>>, heap: multiset<Entry>,
             ghost F: set<Node>, ghost pw: map<Node, nat>, ghost rank: map<Node, nat>, ghost clock: nat)
    requires graph.Keys == N && forall x :: x in graph ==> graph[x] == Hops(arcs, x)
    requires Settled(arcs, N, source, dist0, F0) && Queued(N, dist0, F0, heap1)
    requires Linked(arcs, N, source, dist0, F0, prev0, pw0, rank0, clock0)
    requires popped in heap1 && (forall f :: f in heap1 ==> popped.d <= f.d) && heap0 == heap1 - multiset{popped}
    ensures Settled(arcs, N, source, dist, F) && Queued(N, dist, F, heap)
    ensures Linked(arcs, N, source, dist, F, prev, pw, rank, clock)
    ensures F0 <= F <= N
    ensures F == F0 ==> |heap| < |heap0| + 1
    ensures F != F0 ==> |N - F| < |N - F0|
  {
    PopLeast(N, dist0, F0, heap1, popped);
    var u := popped.node;
    HopsExact(arcs, u);
    dist, prev, heap, pw := Relax(arcs, u, graph[u], dist0, prev0, heap0, pw0);
    if u in F0 {
      StaleScan(arcs, N, source, dist0, F0, prev0, pw0, u, graph[u], heap0, dist, prev, heap, pw);
      LinkedWeights(arcs, N, source, dist0, F0, prev0, pw0, rank0, clock0, pw);
      F, rank, clock := F0, rank0, clock0;
    } else {
      FreshSettled(arcs, N, source, dist0, F0, heap1, popped, graph[u], heap0, prev0, pw0, dist, prev, heap, pw);
      FreshQueued(N, dist0, F0, heap1, popped, graph[u], arcs, prev0, pw0, dist, prev, heap, pw);
      FreshLinked(arcs, N, source, dist0, F0, prev0, pw0, rank0, clock0, u, graph[u], dist, prev, pw);
      F, rank, clock := F0 + {u}, rank0[u := clock0], clock0 + 1;
      SettleOne(N, F0, u);
    }
  }

  /** dijkstra's main loop: the search from the source until the target is popped
      or the heap runs empty. The target's distance is then a lower bound
      on every walk to it, and prev records how every finite distance was
      reached. */
  method Search(nodes: seq<Node>, ghost edges: seq<Edge>, graph: map<Node, seq<Hop>>, source: Node, target: Node)
    returns (dist: map<Node, Dist>, prev: map<Node, Option<Node>>,
             ghost F: set<Node>, ghost pw: map<Node, nat>, ghost rank: map<Node, nat>, ghost clock: nat, ghost m: Dist)
    requires Within(edges, NodeSet(nodes)) && source in nodes && target in nodes
    requires graph.Keys == NodeSet(nodes) && forall x :: x in graph ==> graph[x] == Hops(edges, x)
    ensures dist.Keys == NodeSet(nodes) && dist[source] == Fin(0)
    ensures Linked(edges, NodeSet(nodes), source, dist, F, prev, pw, rank, clock)
    ensures Frontier(edges, dist, source, F, m) && (target in F || dist[target] == m)
  {
    ghost var N := NodeSet(nodes);
    dist := Initial(nodes, source);
    prev := map n | n in nodes :: None;
    var heap := multiset{Entry(0, source)};
    F, pw, rank, clock := {}, map[], map[], 0;
    StartLinked(nodes, edges, source, prev);
    StartSearch(nodes, source);
    while heap != multiset{}
      invariant Settled(edges, N, source, dist, F) && Queued(N, dist, F, heap)
      invariant Linked(edges, N, source, dist, F, prev, pw, rank, clock)
      decreases |N - F|, |heap|
    {
      ghost var heap1 := heap;
      var popped;
      popped, heap := HeapPop(heap);
      var u := popped.node;
      if u == target {
        PopLeast(N, dist, F, heap1, popped);
        PopFrontier(edges, N, source, dist, F, heap1, popped);
        m := Fin(popped.d);
        return;
      }
      dist, prev, heap, F, pw, rank, clock := Expand(edges, N, source, graph, dist, prev, heap, heap1, popped, F, pw, rank, clock);
    }
    EmptyFrontier(edges, N, source, dist, F);
    m := Inf;
  }

  /** The whole of dijkstra(nodes, edges, source, target): the returned
      distance is the least weight of a directed walk from the source to
      the target (inf when there is none), and the path is that walk's
      sequence of nodes. */
  method Dijkstra(nodes: seq<Node>, edges: seq<Edge>, source: Node, target: Node)
    returns (d: Dist, path: seq<Node>, ghost walk: seq<Edge>)
    requires Within(edges, NodeSet(nodes)) && source in nodes && target in nodes
    ensures IsShortest(edges, source, target, d)
    ensures "" !in nodes && d.Fin? ==> IsWalk(edges, walk, source, target) && Weight(walk) == d.n && path == Trace(source, walk)
    ensures "" !in nodes && d == Inf ==> path == [target]
    ensures source == target ==> d == Fin(0)
    ensures source == target && source != "" ==> path == [source]
    ensures target == "" ==> path == []
  {
    var graph := DirectedAdjacency(nodes, edges);
    var dist, prev, F, pw, rank, clock, m := Search(nodes, edges, graph, source, target);
    SettledBound(edges, dist, source, F, m, target);
    d := dist[target];
    if d.Fin? {
      var q := ChainWalk(edges, NodeSet(nodes), source, dist, F, prev, pw, rank, clock, target);
    }
    if source == target {
      assert IsWalk(edges, [], source, target);
    }
    path, walk := Rebuild(edges, NodeSet(nodes), source, dist, F, prev, pw, rank, clock, target);
  }

  // ---------------------------------------------------------------------
  // generate_graph(cities, rng)

  /** The draws generate_graph makes: coins[i][j] is rng.random() and
      rolls[i][j] is rng.randint(1, 10) for the pair of cities i < j. */
  predicate Draws(n: nat, coins: seq<seq<real>>, rolls: seq<seq<nat>>) {
    && |coins| == n && |rolls| == n
    && (forall i :: 0 <= i < n ==> |coins[i]| == n && |rolls[i]| == n)
    && (forall i, j :: 0 <= i < n && 0 <= j < n ==> 1 <= rolls[i][j] <= 10)
  }

  /** generate_graph: the pair i < j is kept when its coin is below 0.5. */
  predicate Kept(coins: seq<seq<real>>, i: nat, j: nat)
    requires i < |coins| && j < |coins[i]|
  {
    coins[i][j] < 0.5
  }

  /** generate_graph: the two edges a kept pair contributes, in both directions
      with one weight. */
  function PairEdges(cities: seq<Node>, coins: seq<seq<real>>, rolls: seq<seq<nat>>, i: nat, j: nat): seq<Edge>
    requires Draws(|cities|, coins, rolls) && i < |cities| && j < |cities|
  {
    if Kept(coins, i, j) then [Edge(cities[i], cities[j], rolls[i][j]), Edge(cities[j], cities[i], rolls[i][j])] else []
  }

  /** The edges of the pairs (i, i+1), ..., (i, j-1), in that order. */
  function RowEdges(cities: seq<Node>, coins: seq<seq<real>>, rolls: seq<seq<nat>>, i: nat, j: nat): seq<Edge>
    requires Draws(|cities|, coins, rolls) && i < |cities| && j <= |cities|
    decreases j
  {
    if j <= i + 1 then [] else RowEdges(cities, coins, rolls, i, j - 1) + PairEdges(cities, coins, rolls, i, j - 1)
  }

  /** The edges of all pairs whose first city is below i, in loop order. */
  function RowsEdges(cities: seq<Node>, coins: seq<seq<real>>, rolls: seq<seq<nat>>, i: nat): seq<Edge>
    requires Draws(|cities|, coins, rolls) && i <= |cities|
  {
    if i == 0 then [] else RowsEdges(cities, coins, rolls, i - 1) + RowEdges(cities, coins, rolls, i - 1, |cities|)
  }

  /** generate_graph: the nested loops over the pairs i < j of cities. */
  method GenerateGraph(cities: seq<Node>, coins: seq<seq<real>>, rolls: seq<seq<nat>>) returns (edges: seq<Edge>)
    requires Draws(|cities|, coins, rolls)
    ensures edges == RowsEdges(cities, coins, rolls, |cities|)
  {
    edges := [];
    for i := 0 to |cities|
      invariant edges == RowsEdges(cities, coins, rolls, i)
    {
      for j := i + 1 to |cities|
        invariant edges == RowsEdges(cities, coins, rolls, i) + RowEdges(cities, coins, rolls, i, j)
      {
        if coins[i][j] < 0.5 {
          var weight := rolls[i][j];
          edges := edges + [Edge(cities[i], cities[j], weight)];
          edges := edges + [Edge(cities[j], cities[i], weight)];
        }
      }
    }
  }

  /** The edge list pairs up: positions 2k and 2k+1 are one road in both
      directions. */
  predicate Paired(edges: seq<Edge>) {
    && |edges| % 2 == 0
    && forall k :: 0 <= k < |edges| / 2 ==> edges[2 * k + 1] == Reverse(edges[2 * k])
  }

  lemma PairedAppend(a: seq<Edge>, b: seq<Edge>)
    requires Paired(a) && Paired(b)
    ensures Paired(a + b)
  {
    forall k | 0 <= k < |a + b| / 2 ensures (a + b)[2 * k + 1] == Reverse((a + b)[2 * k]) {
      if k >= |a| / 2 {
        assert (a + b)[2 * k] == b[2 * (k - |a| / 2)];
        assert (a + b)[2 * k + 1] == b[2 * (k - |a| / 2) + 1];
      }
    }
  }

  lemma {:induction false} RowPaired(cities: seq<Node>, coins: seq<seq<real>>, rolls: seq<seq<nat>>, i: nat, j: nat)
    requires Draws(|cities|, coins, rolls) && i < |cities| && j <= |cities|
    ensures Paired(RowEdges(cities, coins, rolls, i, j))
    decreases j
  {
    if j > i + 1 {
      RowPaired(cities, coins, rolls, i, j - 1);
      PairedAppend(RowEdges(cities, coins, rolls, i, j - 1), PairEdges(cities, coins, rolls, i, j - 1));
    }
  }

  /** generate_graph: every generated edge is followed by its reverse. */
  lemma {:induction false} GeneratedPaired(cities: seq<Node>, coins: seq<seq<real>>, rolls: seq<seq<nat>>, i: nat)
    requires Draws(|cities|, coins, rolls) && i <= |cities|
    ensures Paired(RowsEdges(cities, coins, rolls, i))
  {
    if i > 0 {
      GeneratedPaired(cities, coins, rolls, i - 1);
      RowPaired(cities, coins, rolls, i - 1, |cities|);
      PairedAppend(RowsEdges(cities, coins, rolls, i - 1), RowEdges(cities, coins, rolls, i - 1, |cities|));
    }
  }

  /** e is one of the two directions of the kept pair (a, b). */
  predicate Road(cities: seq<Node>, coins: seq<seq<real>>, rolls: seq<seq<nat>>, a: nat, b: nat, e: Edge)
    requires Draws(|cities|, coins, rolls) && a < |cities| && b < |cities|
  {
    && Kept(coins, a, b)
    && (e == Edge(cities[a], cities[b], rolls[a][b]) || e == Edge(cities[b], cities[a], rolls[a][b]))
  }

  lemma {:induction false} RowMembers(cities: seq<Node>, coins: seq<seq<real>>, rolls: seq<seq<nat>>, i: nat, j: nat, e: Edge)
    requires Draws(|cities|, coins, rolls) && i < |cities| && j <= |cities|
    ensures e in RowEdges(cities, coins, rolls, i, j) <==> exists b :: i < b < j && Road(cities, coins, rolls, i, b, e)
    decreases j
  {
    if j > i + 1 {
      RowMembers(cities, coins, rolls, i, j - 1, e);
      if Road(cities, coins, rolls, i, j - 1, e) {
        assert e in PairEdges(cities, coins, rolls, i, j - 1);
      }
    }
  }

  /** generate_graph: an edge is generated exactly when it is one direction of
      a pair i < j whose coin came up below 0.5, with that pair's weight. */
  lemma {:induction false} GeneratedMembers(cities: seq<Node>, coins: seq<seq<real>>, rolls: seq<seq<nat>>, i: nat, e: Edge)
    requires Draws(|cities|, coins, rolls) && i <= |cities|
    ensures e in RowsEdges(cities, coins, rolls, i) <==>
      exists a, b :: 0 <= a < i && a < b < |cities| && Road(cities, coins, rolls, a, b, e)
  {
    if i > 0 {
      var n := |cities|;
      GeneratedMembers(cities, coins, rolls, i - 1, e);
      RowMembers(cities, coins, rolls, i - 1, n, e);
      var before, row := RowsEdges(cities, coins, rolls, i - 1), RowEdges(cities, coins, rolls, i - 1, n);
      assert RowsEdges(cities, coins, rolls, i) == before + row;
      if e in before + row {
        if e in row {
          var b :| i - 1 < b < n && Road(cities, coins, rolls, i - 1, b, e);
          assert 0 <= i - 1 < i && i - 1 < b < n;
        } else {
          var a, b :| 0 <= a < i - 1 && a < b < n && Road(cities, coins, rolls, a, b, e);
          assert 0 <= a < i && a < b < n;
        }
      }
      if exists a, b :: 0 <= a < i && a < b < n && Road(cities, coins, rolls, a, b, e) {
        var a, b :| 0 <= a < i && a < b < n && Road(cities, coins, rolls, a, b, e);
        if a < i - 1 {
          assert e in before;
        } else {
          assert e in row;
        }
      }
    }
  }

  /** generate_graph: the generated edges join cities, weigh between 1 and
      10, and join distinct cities when the cities are distinct. */
  lemma GeneratedBounds(cities: seq<Node>, coins: seq<seq<real>>, rolls: seq<seq<nat>>)
    requires Draws(|cities|, coins, rolls)
    ensures Within(RowsEdges(cities, coins, rolls, |cities|), NodeSet(cities))
    ensures forall e :: e in RowsEdges(cities, coins, rolls, |cities|) ==> 1 <= e.w <= 10
    ensures Distinct(cities) ==> forall e :: e in RowsEdges(cities, coins, rolls, |cities|) ==> e.u != e.v
  {
    forall e | e in RowsEdges(cities, coins, rolls, |cities|)
      ensures e.u in NodeSet(cities) && e.v in NodeSet(cities) && 1 <= e.w <= 10
      ensures Distinct(cities) ==> e.u != e.v
    {
      GeneratedMembers(cities, coins, rolls, |cities|, e);
      var a, b :| 0 <= a < |cities| && a < b < |cities| && Road(cities, coins, rolls, a, b, e);
    }
  }

  /** generate_graph: the generated graph is symmetric; a road is usable in
      both directions at the same weight. */
  lemma GeneratedSymmetric(cities: seq<Node>, coins: seq<seq<real>>, rolls: seq<seq<nat>>)
    requires Draws(|cities|, coins, rolls)
    ensures forall e :: e in RowsEdges(cities, coins, rolls, |cities|) ==> Reverse(e) in RowsEdges(cities, coins, rolls, |cities|)
  {
    forall e | e in RowsEdges(cities, coins, rolls, |cities|) ensures Reverse(e) in RowsEdges(cities, coins, rolls, |cities|) {
      GeneratedMembers(cities, coins, rolls, |cities|, e);
      var a, b :| 0 <= a < |cities| && a < b < |cities| && Road(cities, coins, rolls, a, b, e);
      assert Road(cities, coins, rolls, a, b, Reverse(e));
      GeneratedMembers(cities, coins, rolls, |cities|, Reverse(e));
    }
  }

  /** generate_graph: when no coin comes up below 0.5 the graph has no edge. */
  lemma GeneratedEmpty(cities: seq<Node>, coins: seq<seq<real>>, rolls: seq<seq<nat>>)
    requires Draws(|cities|, coins, rolls)
    requires forall i, j :: 0 <= i < j < |cities| ==> !Kept(coins, i, j)
    ensures RowsEdges(cities, coins, rolls, |cities|) == []
  {
    var E := RowsEdges(cities, coins, rolls, |cities|);
    if E != [] {
      GeneratedMembers(cities, coins, rolls, |cities|, E[0]);
    }
  }

  lemma {:induction false} RowCount(cities: seq<Node>, coins: seq<seq<real>>, rolls: seq<seq<nat>>, i: nat, j: nat)
    requires Draws(|cities|, coins, rolls) && i < j <= |cities|
    requires forall b :: i < b < |cities| ==> Kept(coins, i, b)
    ensures |RowEdges(cities, coins, rolls, i, j)| == 2 * (j - i - 1)
    decreases j
  {
    if j > i + 1 {
      RowCount(cities, coins, rolls, i, j - 1);
    }
  }

  /** generate_graph: when every coin comes up below 0.5 the graph is
      complete, with n(n-1) directed edges for n cities. */
  lemma {:induction false} GeneratedComplete(cities: seq<Node>, coins: seq<seq<real>>, rolls: seq<seq<nat>>, i: nat)
    requires Draws(|cities|, coins, rolls) && i <= |cities|
    requires forall a, b :: 0 <= a < b < |cities| ==> Kept(coins, a, b)
    ensures |RowsEdges(cities, coins, rolls, i)| == i * (2 * |cities| - i - 1)
  {
    if i > 0 {
      GeneratedComplete(cities, coins, rolls, i - 1);
      RowCount(cities, coins, rolls, i - 1, |cities|);
      assert i * (2 * |cities| - i - 1) == (i - 1) * (2 * |cities| - (i - 1) - 1) + 2 * (|cities| - i);
    }
  }
}
