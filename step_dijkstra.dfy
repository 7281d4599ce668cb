/** Asier/dijkstra.py: Dijkstra over the undirected reading of the edge
    list, run until the heap is empty. A visited set makes stale heap
    entries harmless, and every accepted relaxation is logged as a step. */
module StepDijkstra {
  import opened Graph

  /** The dictionary {"updated_node", "old_dist", "new_dist", "from_node"}. */
  datatype Step = Step(updatedNode: Node, oldDist: Dist, newDist: nat, fromNode: Node)

  /** What dijkstra returns, (dist, steps), or the KeyError it raises. */
  datatype Outcome = Done(dist: map<Node, Dist>, steps: seq<Step>) | KeyError(key: Node)

  /** The table obtained by applying the updates of the steps, in order. */
  function Replay(init: map<Node, Dist>, steps: seq<Step>): map<Node, Dist>
    decreases |steps|
  {
    if steps == [] then init
    else Replay(init, steps[..|steps| - 1])[Last(steps).updatedNode := Fin(Last(steps).newDist)]
  }

  /** Every step's old_dist is the distance its node had just before it. */
  predicate Consistent(init: map<Node, Dist>, steps: seq<Step>)
    decreases |steps|
  {
    steps == [] ||
    (var before := Replay(init, steps[..|steps| - 1]);
     && Consistent(init, steps[..|steps| - 1])
     && Last(steps).updatedNode in before
     && before[Last(steps).updatedNode] == Last(steps).oldDist)
  }

  /** new_dist of the last step that updated x, if there is one. */
  function LastUpdate(steps: seq<Step>, x: Node): Option<nat>
    decreases |steps|
  {
    if steps == [] then None
    else if Last(steps).updatedNode == x then Some(Last(steps).newDist)
    else LastUpdate(steps[..|steps| - 1], x)
  }

  /** Replaying a log leaves each node at the new_dist of its last step,
      and a node without steps at its initial distance. */
  lemma {:induction false} ReplayIsLastUpdate(init: map<Node, Dist>, steps: seq<Step>, x: Node)
    requires x in init
    ensures x in Replay(init, steps)
    ensures Replay(init, steps)[x] == match LastUpdate(steps, x) case Some(d) => Fin(d) case None => init[x]
    decreases |steps|
  {
    if steps != [] {
      ReplayIsLastUpdate(init, steps[..|steps| - 1], x);
    }
  }

  /** Appending a step applies its update, and keeps the log consistent
      exactly when its old_dist is the current distance of its node. */
  lemma ReplaySnoc(init: map<Node, Dist>, steps: seq<Step>, st: Step)
    ensures Replay(init, steps + [st]) == Replay(init, steps)[st.updatedNode := Fin(st.newDist)]
    ensures Consistent(init, steps + [st]) <==>
      Consistent(init, steps) && st.updatedNode in Replay(init, steps) && Replay(init, steps)[st.updatedNode] == st.oldDist
  {
    assert (steps + [st])[..|steps|] == steps;
  }

  /** A step logged while scanning from u, popped at distance d: it
      lowered a node other than the source to d plus the weight of an arc
      from u. */
  predicate StepFrom(arcs: seq<Edge>, source: Node, u: Node, d: nat, st: Step) {
    && st.fromNode == u
    && st.updatedNode != source
    && Fin(st.newDist).Lt(st.oldDist)
    && d <= st.newDist
    && Edge(u, st.updatedNode, st.newDist - d) in arcs
  }

  /** A logged update whose new_dist is the final distance of from_node
      plus the weight of an arc from from_node to updated_node. */
  predicate StepSound(arcs: seq<Edge>, source: Node, dist: map<Node, Dist>, st: Step) {
    st.fromNode in dist && dist[st.fromNode].Fin? && StepFrom(arcs, source, st.fromNode, dist[st.fromNode].n, st)
  }

  /** The steps caused by one node are consecutive. */
  predicate Grouped(steps: seq<Step>) {
    forall i, j, k :: 0 <= i < j < k < |steps| && steps[i].fromNode == steps[k].fromNode ==>
      steps[j].fromNode == steps[i].fromNode
  }

  lemma GroupedExtend(steps: seq<Step>, n: nat, u: Node)
    requires n <= |steps| && Grouped(steps[..n])
    requires forall i :: 0 <= i < n ==> steps[i].fromNode != u
    requires forall i :: n <= i < |steps| ==> steps[i].fromNode == u
    ensures Grouped(steps)
  {
    forall i, j, k | 0 <= i < j < k < |steps| && steps[i].fromNode == steps[k].fromNode
      ensures steps[j].fromNode == steps[i].fromNode
    {
      if k < n {
        assert steps[..n][i] == steps[i] && steps[..n][j] == steps[j] && steps[..n][k] == steps[k];
      }
    }
  }

  /** The adjacency lists after the first i edges have been entered. */
  ghost predicate Built(nodes: seq<Node>, edges: seq<Edge>, i: nat, graph: map<Node, seq<Hop>>) {
    && i <= |edges|
    && graph.Keys == NodeSet(nodes)
    && (forall j :: 0 <= j < i ==> edges[j].u in graph && edges[j].v in graph)
    && (forall x :: x in graph ==> graph[x] == Hops(Undirected(edges[..i]), x))
  }

  /** Entering edge i appends (v, w) to graph[u] and (u, w) to graph[v]. */
  lemma BuildStep(nodes: seq<Node>, edges: seq<Edge>, i: nat, graph: map<Node, seq<Hop>>)
    requires Built(nodes, edges, i, graph) && i < |edges| && edges[i].u in graph && edges[i].v in graph
    ensures var e := edges[i]; var g := graph[e.u := graph[e.u] + [Hop(e.v, e.w)]];
      Built(nodes, edges, i + 1, g[e.v := g[e.v] + [Hop(e.u, e.w)]])
  {
    UndirectedStep(graph, edges, i);
  }

  /** Once every edge is entered, the lists are the undirected arcs. */
  lemma BuildDone(nodes: seq<Node>, edges: seq<Edge>, graph: map<Node, seq<Hop>>)
    requires Built(nodes, edges, |edges|, graph)
    ensures Within(edges, NodeSet(nodes))
    ensures forall x :: x in graph ==> graph[x] == Hops(Undirected(edges), x)
  {
    assert edges[..|edges|] == edges;
    forall e | e in edges ensures e.u in graph && e.v in graph {
      var j :| 0 <= j < |edges| && edges[j] == e;
    }
  }

  /** The key dijkstra's adjacency build fails on: the first edge, in
      list order, with an endpoint that is not a node, and of that edge
      the tail u before the head v. */
  function FirstMissing(edges: seq<Edge>, N: set<Node>): (r: Option<Node>)
    ensures r.None? <==> Within(edges, N)
    ensures r.Some? ==> r.value !in N
    ensures r.Some? ==> exists e :: e in edges && (r.value == e.u || r.value == e.v)
  {
    if |edges| == 0 then None
    else if edges[0].u !in N then Some(edges[0].u)
    else if edges[0].v !in N then Some(edges[0].v)
    else
      var r := FirstMissing(edges[1..], N);
      assert forall e :: e in edges ==> e == edges[0] || e in edges[1..];
      assert r.Some? ==> exists e :: e in edges && (r.value == e.u || r.value == e.v) by {
        if r.Some? {
          var e :| e in edges[1..] && (r.value == e.u || r.value == e.v);
          assert e in edges;
        }
      }
      r
  }

  /** Building the adjacency lists in dijkstra: graph[u] gets (v, w) and
      graph[v] gets (u, w) for every edge, and the first endpoint that is
      not a node raises KeyError. */
  method BuildAdjacency(nodes: seq<Node>, edges: seq<Edge>) returns (graph: map<Node, seq<Hop>>, missing: Option<Node>)
    ensures missing == FirstMissing(edges, NodeSet(nodes))
    ensures missing.None? ==> graph.Keys == NodeSet(nodes)
    ensures missing.None? ==> forall x :: x in graph ==> graph[x] == Hops(Undirected(edges), x)
  {
    graph := map n | n in nodes :: [];
    var i := 0;
    while i < |edges|
      invariant Built(nodes, edges, i, graph)
      invariant FirstMissing(edges[i..], NodeSet(nodes)) == FirstMissing(edges, NodeSet(nodes))
    {
      var e := edges[i];
      assert edges[i..][0] == e && edges[i..][1..] == edges[i + 1..];
      if e.u !in graph {
        assert e in edges;
        return graph, Some(e.u);
      }
      if e.v !in graph {
        assert e in edges;
        graph := graph[e.u := graph[e.u] + [Hop(e.v, e.w)]];
        return graph, Some(e.v);
      }
      BuildStep(nodes, edges, i, graph);
      graph := graph[e.u := graph[e.u] + [Hop(e.v, e.w)]];
      graph := graph[e.v := graph[e.v] + [Hop(e.u, e.w)]];
      i := i + 1;
    }
    BuildDone(nodes, edges, graph);
    missing := None;
    assert edges[|edges|..] == [];
  }

  /** Distances during the scan of u's adjacency list: only lowered,
      never at a visited node or the source, and the first i entries are
      relaxed. */
  ghost predicate ScanDist(source: Node, visited: set<Node>, d: nat, hops: seq<Hop>, i: nat,
                           dist0: map<Node, Dist>, dist: map<Node, Dist>)
  {
    && i <= |hops|
    && dist.Keys == dist0.Keys
    && (forall x :: x in dist ==> dist[x].Le(dist0[x]))
    && (forall x :: x in visited ==> x in dist && dist[x] == dist0[x])
    && source in dist && dist[source] == Fin(0)
    && (forall k :: 0 <= k < i ==> hops[k].to in dist && dist[hops[k].to].Le(Fin(d + hops[k].w)))
  }

  /** The heap during the scan: every lowered distance has its entry, and
      every new entry is at least d and no lower than its node's distance. */
  ghost predicate ScanQueue(d: nat, dist0: map<Node, Dist>, pq0: multiset<Entry>, dist: map<Node, Dist>, pq: multiset<Entry>) {
    && (forall y :: y in dist && y in dist0 && dist[y] != dist0[y] ==> dist[y].Fin? && Entry(dist[y].n, y) in pq)
    && (forall f :: f in pq ==> f in pq0 || (f.node in dist && d <= f.d && dist[f.node].Le(Fin(f.d))))
    && (forall f :: f in pq0 ==> f in pq)
  }

  /** The log during the scan: it replays to dist, and what was appended
      are steps from u. */
  ghost predicate ScanLog(arcs: seq<Edge>, source: Node, init: map<Node, Dist>, u: Node, d: nat,
                          steps0: seq<Step>, dist: map<Node, Dist>, steps: seq<Step>)
  {
    && dist == Replay(init, steps) && Consistent(init, steps)
    && |steps0| <= |steps| && steps[..|steps0|] == steps0
    && (forall j :: |steps0| <= j < |steps| ==> StepFrom(arcs, source, u, d, steps[j]))
  }

  /** The steps the scan of the first i entries of u's list logs from
      dist0 at the popped distance d: one per lowering, with the distance
      it replaced. */
  function ScanLogOf(u: Node, d: nat, hops: seq<Hop>, i: nat, dist0: map<Node, Dist>): seq<Step>
    requires i <= |hops|
    decreases i
  {
    if i == 0 then []
    else
      var s := ScanOf(d, hops, i - 1, dist0);
      var h := hops[i - 1];
      if h.to in s.table && Fin(d + h.w).Lt(s.table[h.to])
      then ScanLogOf(u, d, hops, i - 1, dist0) + [Step(h.to, s.table[h.to], d + h.w, u)]
      else ScanLogOf(u, d, hops, i - 1, dist0)
  }

  /** The scan's log replays from dist0 to the scan's table, and each of
      its old_dist values is the distance its node had just before. */
  lemma {:induction false} ScanLogReplays(u: Node, d: nat, hops: seq<Hop>, i: nat, dist0: map<Node, Dist>)
    requires i <= |hops|
    ensures Replay(dist0, ScanLogOf(u, d, hops, i, dist0)) == ScanOf(d, hops, i, dist0).table
    ensures Consistent(dist0, ScanLogOf(u, d, hops, i, dist0))
    decreases i
  {
    if i > 0 {
      ScanLogReplays(u, d, hops, i - 1, dist0);
      var s, h, log := ScanOf(d, hops, i - 1, dist0), hops[i - 1], ScanLogOf(u, d, hops, i - 1, dist0);
      if h.to in s.table && Fin(d + h.w).Lt(s.table[h.to]) {
        var st := Step(h.to, s.table[h.to], d + h.w, u);
        assert ScanLogOf(u, d, hops, i, dist0) == log + [st];
        assert ScanOf(d, hops, i, dist0).table == s.table[h.to := Fin(d + h.w)];
        ReplaySnoc(dist0, log, st);
      }
    }
  }

  /** The k-th step the scan logs is from u and names the node and
      distance of the k-th entry it pushes. */
  lemma {:induction false} ScanLogPushes(u: Node, d: nat, hops: seq<Hop>, i: nat, dist0: map<Node, Dist>)
    requires i <= |hops|
    ensures |ScanLogOf(u, d, hops, i, dist0)| == |ScanOf(d, hops, i, dist0).pushed|
    ensures forall k :: 0 <= k < |ScanLogOf(u, d, hops, i, dist0)| ==>
      ScanLogOf(u, d, hops, i, dist0)[k].fromNode == u &&
      ScanOf(d, hops, i, dist0).pushed[k] == Entry(ScanLogOf(u, d, hops, i, dist0)[k].newDist, ScanLogOf(u, d, hops, i, dist0)[k].updatedNode)
    decreases i
  {
    if i > 0 {
      ScanLogPushes(u, d, hops, i - 1, dist0);
    }
  }

  /** dijkstra's scan, an arc that improves dist[v]: the appended step is
      the next one of ScanLogOf. */
  lemma ScanLogLower(u: Node, d: nat, hops: seq<Hop>, i: nat, dist0: map<Node, Dist>,
                     steps0: seq<Step>, dist: map<Node, Dist>, steps: seq<Step>, v: Node, w: nat)
    requires i < |hops| && hops[i] == Hop(v, w) && dist == ScanOf(d, hops, i, dist0).table
    requires steps == steps0 + ScanLogOf(u, d, hops, i, dist0)
    requires v in dist && Fin(d + w).Lt(dist[v])
    ensures steps + [Step(v, dist[v], d + w, u)] == steps0 + ScanLogOf(u, d, hops, i + 1, dist0)
  {
    assert steps0 + ScanLogOf(u, d, hops, i, dist0) + [Step(v, dist[v], d + w, u)]
        == steps0 + (ScanLogOf(u, d, hops, i, dist0) + [Step(v, dist[v], d + w, u)]);
  }

  /** What holds after the first i entries of u's adjacency list have
      been scanned, starting from dist0, pq0 and steps0. */
  ghost predicate Scanned(arcs: seq<Edge>, source: Node, visited: set<Node>, init: map<Node, Dist>,
                          u: Node, d: nat, hops: seq<Hop>, i: nat,
                          dist0: map<Node, Dist>, pq0: multiset<Entry>, steps0: seq<Step>,
                          dist: map<Node, Dist>, pq: multiset<Entry>, steps: seq<Step>, wit: map<Node, seq<Edge>>)
  {
    && ScanDist(source, visited, d, hops, i, dist0, dist)
    && ScanQueue(d, dist0, pq0, dist, pq)
    && ScanLog(arcs, source, init, u, d, steps0, dist, steps)
    && Witnessed(arcs, source, dist, wit)
  }

  /** The requirements the scan of u's adjacency list starts from. */
  ghost predicate ScanReady(arcs: seq<Edge>, source: Node, visited: set<Node>, init: map<Node, Dist>,
                            u: Node, d: nat, hops: seq<Hop>,
                            dist0: map<Node, Dist>, steps0: seq<Step>, wit0: map<Node, seq<Edge>>)
  {
    && (forall h :: h in hops ==> Edge(u, h.to, h.w) in arcs)
    && Within(arcs, dist0.Keys)
    && u in visited && visited <= dist0.Keys && dist0[u] == Fin(d)
    && (forall x :: x in visited ==> dist0[x].Le(Fin(d)))
    && source in dist0 && dist0[source] == Fin(0)
    && Witnessed(arcs, source, dist0, wit0)
    && dist0 == Replay(init, steps0) && Consistent(init, steps0)
  }

  /** dijkstra's scan, an arc that does not improve dist[v]: nothing changes. */
  lemma ScanSkip(source: Node, visited: set<Node>, d: nat, hops: seq<Hop>, i: nat,
                 dist0: map<Node, Dist>, dist: map<Node, Dist>)
    requires ScanDist(source, visited, d, hops, i, dist0, dist)
    requires i < |hops| && hops[i].to in dist && !Fin(d + hops[i].w).Lt(dist[hops[i].to])
    ensures ScanDist(source, visited, d, hops, i + 1, dist0, dist)
  {
  }

  /** dijkstra's scan, an arc that improves dist[v]: the table update. */
  lemma UpdateDist(source: Node, visited: set<Node>, d: nat, hops: seq<Hop>, i: nat,
                   dist0: map<Node, Dist>, dist: map<Node, Dist>)
    requires ScanDist(source, visited, d, hops, i, dist0, dist)
    requires forall x :: x in visited ==> dist0[x].Le(Fin(d))
    requires i < |hops| && hops[i].to in dist && Fin(d + hops[i].w).Lt(dist[hops[i].to])
    ensures ScanDist(source, visited, d, hops, i + 1, dist0, dist[hops[i].to := Fin(d + hops[i].w)])
  {
  }

  /** dijkstra's scan, an arc that improves dist[v]: the push onto the heap. */
  lemma UpdateQueue(d: nat, w: nat, v: Node, dist0: map<Node, Dist>, pq0: multiset<Entry>,
                    dist: map<Node, Dist>, pq: multiset<Entry>)
    requires ScanQueue(d, dist0, pq0, dist, pq)
    requires v in dist && dist.Keys == dist0.Keys && Fin(d + w).Lt(dist[v])
    ensures ScanQueue(d, dist0, pq0, dist[v := Fin(d + w)], pq + multiset{Entry(d + w, v)})
  {
    var dist', pq' := dist[v := Fin(d + w)], pq + multiset{Entry(d + w, v)};
    forall f | f in pq'
      ensures f in pq0 || (f.node in dist' && d <= f.d && dist'[f.node].Le(Fin(f.d)))
    {
      if f != Entry(d + w, v) {
        assert f in pq;
      }
    }
  }

  /** dijkstra's scan, an arc that improves dist[v]: the step appended to the log. */
  lemma UpdateLog(arcs: seq<Edge>, source: Node, init: map<Node, Dist>, u: Node, d: nat, w: nat, v: Node,
                  steps0: seq<Step>, dist: map<Node, Dist>, steps: seq<Step>)
    requires ScanLog(arcs, source, init, u, d, steps0, dist, steps)
    requires v in dist && v != source && Fin(d + w).Lt(dist[v]) && Edge(u, v, w) in arcs
    ensures ScanLog(arcs, source, init, u, d, steps0, dist[v := Fin(d + w)], steps + [Step(v, dist[v], d + w, u)])
  {
    var st := Step(v, dist[v], d + w, u);
    ReplaySnoc(init, steps, st);
    var steps' := steps + [st];
    assert steps'[..|steps0|] == steps[..|steps0|];
    assert forall j :: |steps0| <= j < |steps| ==> steps'[j] == steps[j];
  }

  /** The walk to v recorded with the update: the walk to u, then (u, v, w). */
  lemma UpdateWitness(arcs: seq<Edge>, source: Node, u: Node, d: nat, w: nat, v: Node,
                      dist: map<Node, Dist>, wit: map<Node, seq<Edge>>)
    requires Witnessed(arcs, source, dist, wit)
    requires u in dist && dist[u] == Fin(d) && Edge(u, v, w) in arcs
    ensures Witnessed(arcs, source, dist[v := Fin(d + w)], wit[v := wit[u] + [Edge(u, v, w)]])
  {
    ExtendWalk(arcs, wit[u], source, Edge(u, v, w));
  }

  /** One turn of dijkstra's inner loop, for the entry (v, w) at index i of
      u's list: when d + w beats dist[v], dist[v] drops to it, the entry
      (d + w, v) is pushed and the step is logged; otherwise nothing changes. */
  method ScanArc(ghost arcs: seq<Edge>, ghost source: Node, ghost visited: set<Node>,
                 ghost init: map<Node, Dist>, u: Node, d: nat, hops: seq<Hop>, i: nat,
                 ghost dist0: map<Node, Dist>, ghost pq0: multiset<Entry>, ghost steps0: seq<Step>,
                 ghost wit0: map<Node, seq<Edge>>,
                 dist: map<Node, Dist>, pq: multiset<Entry>, steps: seq<Step>, ghost wit: map<Node, seq<Edge>>)
    returns (dist': map<Node, Dist>, pq': multiset<Entry>, steps': seq<Step>, ghost wit': map<Node, seq<Edge>>)
    requires ScanReady(arcs, source, visited, init, u, d, hops, dist0, steps0, wit0) && i < |hops|
    requires ScanAt(d, hops, i, dist0, pq0, dist, pq) && steps == steps0 + ScanLogOf(u, d, hops, i, dist0)
    requires Scanned(arcs, source, visited, init, u, d, hops, i, dist0, pq0, steps0, dist, pq, steps, wit)
    ensures ScanAt(d, hops, i + 1, dist0, pq0, dist', pq') && steps' == steps0 + ScanLogOf(u, d, hops, i + 1, dist0)
    ensures Scanned(arcs, source, visited, init, u, d, hops, i + 1, dist0, pq0, steps0, dist', pq', steps', wit')
  {
    var v, w := hops[i].to, hops[i].w;
    assert hops[i] in hops;
    if Fin(d + w).Lt(dist[v]) {
      UpdateDist(source, visited, d, hops, i, dist0, dist);
      UpdateQueue(d, w, v, dist0, pq0, dist, pq);
      UpdateLog(arcs, source, init, u, d, w, v, steps0, dist, steps);
      UpdateWitness(arcs, source, u, d, w, v, dist, wit);
      ScanOfLower(d, hops, i, dist0, pq0, dist, pq, v, w);
      ScanLogLower(u, d, hops, i, dist0, steps0, dist, steps, v, w);
      var previous := dist[v];
      dist' := dist[v := Fin(d + w)];
      pq' := pq + multiset{Entry(d + w, v)};
      steps' := steps + [Step(v, previous, d + w, u)];
      wit' := wit[v := wit[u] + [Edge(u, v, w)]];
    } else {
      ScanSkip(source, visited, d, hops, i, dist0, dist);
      ScanOfSkip(d, hops, i, dist0, pq0, dist, pq, v, w);
      dist', pq', steps', wit' := dist, pq, steps, wit;
    }
  }

  /** dijkstra's inner loop: relax every arc (u, v, w) of u's adjacency list from the
      popped distance d, pushing and logging each improvement; the table,
      the heap and the log are those of ScanOf and ScanLogOf. */
  method ScanNeighbours(ghost arcs: seq<Edge>, ghost source: Node, ghost visited: set<Node>,
                        ghost init: map<Node, Dist>, u: Node, d: nat, hops: seq<Hop>,
                        dist0: map<Node, Dist>, pq0: multiset<Entry>, steps0: seq<Step>,
                        ghost wit0: map<Node, seq<Edge>>)
    returns (dist: map<Node, Dist>, pq: multiset<Entry>, steps: seq<Step>, ghost wit: map<Node, seq<Edge>>)
    requires ScanReady(arcs, source, visited, init, u, d, hops, dist0, steps0, wit0)
    ensures Scanned(arcs, source, visited, init, u, d, hops, |hops|, dist0, pq0, steps0, dist, pq, steps, wit)
    ensures ScanAt(d, hops, |hops|, dist0, pq0, dist, pq) && steps == steps0 + ScanLogOf(u, d, hops, |hops|, dist0)
  {
    dist, pq, steps, wit := dist0, pq0, steps0, wit0;
    var i := 0;
    while i < |hops|
      invariant ScanAt(d, hops, i, dist0, pq0, dist, pq) && steps == steps0 + ScanLogOf(u, d, hops, i, dist0)
      invariant Scanned(arcs, source, visited, init, u, d, hops, i, dist0, pq0, steps0, dist, pq, steps, wit)
    {
      dist, pq, steps, wit := ScanArc(arcs, source, visited, init, u, d, hops, i, dist0, pq0, steps0, wit0, dist, pq, steps, wit);
      i := i + 1;
    }
  }


  /** The log between pops: it replays to the table, every step came
      from a settled node, and the steps of one node are consecutive. */
  ghost predicate Logged(arcs: seq<Edge>, source: Node, init: map<Node, Dist>, dist: map<Node, Dist>,
                         visited: set<Node>, steps: seq<Step>)
  {
    && dist == Replay(init, steps) && Consistent(init, steps)
    && (forall st :: st in steps ==> st.fromNode in visited && StepSound(arcs, source, dist, st))
    && Grouped(steps)
  }

  /** The scan of a newly popped u sets up from the invariant. */
  lemma StartScan(arcs: seq<Edge>, N: set<Node>, source: Node, init: map<Node, Dist>, dist: map<Node, Dist>,
                  visited: set<Node>, pq: multiset<Entry>, popped: Entry, hops: seq<Hop>, steps: seq<Step>,
                  wit: map<Node, seq<Edge>>)
    requires Settled(arcs, N, source, dist, visited) && Queued(N, dist, visited, pq)
    requires Logged(arcs, source, init, dist, visited, steps) && Witnessed(arcs, source, dist, wit)
    requires popped in pq && popped.node !in visited && dist[popped.node] == Fin(popped.d)
    requires forall h :: h in hops ==> Edge(popped.node, h.to, h.w) in arcs
    ensures ScanReady(arcs, source, visited + {popped.node}, init, popped.node, popped.d, hops, dist, steps, wit)
  {
  }

  /** After the scan of u, the table invariant holds with u settled. */
  lemma ScanSettles(arcs: seq<Edge>, N: set<Node>, source: Node, dist0: map<Node, Dist>, visited: set<Node>,
                    u: Node, d: nat, hops: seq<Hop>, dist: map<Node, Dist>)
    requires Settled(arcs, N, source, dist0, visited)
    requires u in N && dist0[u] == Fin(d)
    requires forall a :: a in arcs && a.u == u ==> Hop(a.v, a.w) in hops
    requires ScanDist(source, visited + {u}, d, hops, |hops|, dist0, dist)
    ensures Settled(arcs, N, source, dist, visited + {u})
  {
    forall a | a in arcs && a.u in visited + {u} ensures dist[a.v].Le(dist[a.u].Plus(a.w)) {
      if a.u == u {
        var k :| 0 <= k < |hops| && hops[k] == Hop(a.v, a.w);
      }
    }
  }

  /** After the scan of u, the heap invariant holds with u settled. */
  lemma ScanQueues(N: set<Node>, source: Node, dist0: map<Node, Dist>, visited: set<Node>, pq1: multiset<Entry>,
                   popped: Entry, hops: seq<Hop>, dist: map<Node, Dist>, pq: multiset<Entry>)
    requires dist0.Keys == N && visited <= N && popped.node in N && Queued(N, dist0, visited, pq1)
    requires popped in pq1 && (forall f :: f in pq1 ==> popped.d <= f.d)
    requires popped.node !in visited && dist0[popped.node] == Fin(popped.d)
    requires ScanDist(source, visited + {popped.node}, popped.d, hops, |hops|, dist0, dist)
    requires ScanQueue(popped.d, dist0, pq1 - multiset{popped}, dist, pq)
    ensures Queued(N, dist, visited + {popped.node}, pq)
  {
    var u, d, pq0 := popped.node, popped.d, pq1 - multiset{popped};
    forall f | f in pq ensures f.node in N && dist[f.node].Le(Fin(f.d)) {
      if f in pq0 {
        assert f in pq1;
      }
    }
    forall y | y in N && y !in visited + {u} && dist[y].Fin? ensures Entry(dist[y].n, y) in pq {
      if dist[y] == dist0[y] {
        assert Entry(dist0[y].n, y) in pq1;
        assert Entry(dist0[y].n, y) in pq0;
      }
    }
    forall x, f | x in visited + {u} && f in pq ensures dist[x].Le(Fin(f.d)) {
      if x != u {
        assert dist0[x].Le(Fin(popped.d));
      }
      if f in pq0 {
        assert f in pq1;
      }
    }
  }

  /** After the scan of u, the log invariant holds with u settled. */
  lemma ScanLogs(arcs: seq<Edge>, source: Node, init: map<Node, Dist>, dist0: map<Node, Dist>, visited: set<Node>,
                 u: Node, d: nat, hops: seq<Hop>, steps0: seq<Step>, dist: map<Node, Dist>, steps: seq<Step>)
    requires Logged(arcs, source, init, dist0, visited, steps0)
    requires u !in visited && u in dist0 && dist0[u] == Fin(d)
    requires ScanDist(source, visited + {u}, d, hops, |hops|, dist0, dist)
    requires ScanLog(arcs, source, init, u, d, steps0, dist, steps)
    ensures Logged(arcs, source, init, dist, visited + {u}, steps)
  {
    forall st | st in steps ensures st.fromNode in visited + {u} && StepSound(arcs, source, dist, st) {
      var j :| 0 <= j < |steps| && steps[j] == st;
      if j < |steps0| {
        assert steps0[j] == st;
      }
    }
    forall j | 0 <= j < |steps0| ensures steps[j].fromNode != u {
      assert steps0[j] in steps0;
    }
    GroupedExtend(steps, |steps0|, u);
  }

  /** One turn of dijkstra's main loop: pop a least entry; skip it if
      its node is visited, otherwise settle the node and relax its arcs. */
  method Visit(ghost arcs: seq<Edge>, ghost N: set<Node>, ghost source: Node, ghost init: map<Node, Dist>,
               graph: map<Node, seq<Hop>>, dist0: map<Node, Dist>, visited0: set<Node>, pq0: multiset<Entry>,
               steps0: seq<Step>, ghost wit0: map<Node, seq<Edge>>)
    returns (popped: Entry, dist: map<Node, Dist>, visited: set<Node>, pq: multiset<Entry>, steps: seq<Step>, ghost wit: map<Node, seq<Edge>>)
    requires pq0 != multiset{}
    requires graph.Keys == N && forall x :: x in graph ==> graph[x] == Hops(arcs, x)
    requires Settled(arcs, N, source, dist0, visited0) && Queued(N, dist0, visited0, pq0)
    requires Witnessed(arcs, source, dist0, wit0) && Logged(arcs, source, init, dist0, visited0, steps0)
    ensures popped in pq0 && forall f :: f in pq0 ==> popped.d <= f.d
    ensures popped.node in visited0 ==>
      dist == dist0 && visited == visited0 && steps == steps0 && pq == pq0 - multiset{popped}
    ensures popped.node !in visited0 ==>
      && dist0[popped.node] == Fin(popped.d)
      && visited == visited0 + {popped.node}
      && |steps0| <= |steps| && steps[..|steps0|] == steps0
      && (forall j :: |steps0| <= j < |steps| ==> steps[j].fromNode == popped.node)
    ensures popped.node !in visited0 ==>
      && popped.node in graph
      && dist == ScanOf(popped.d, graph[popped.node], |graph[popped.node]|, dist0).table
      && pq == pq0 - multiset{popped} + multiset(ScanOf(popped.d, graph[popped.node], |graph[popped.node]|, dist0).pushed)
      && steps == steps0 + ScanLogOf(popped.node, popped.d, graph[popped.node], |graph[popped.node]|, dist0)
    ensures Settled(arcs, N, source, dist, visited) && Queued(N, dist, visited, pq)
    ensures Witnessed(arcs, source, dist, wit) && Logged(arcs, source, init, dist, visited, steps)
    ensures visited0 <= visited <= N
    ensures visited == visited0 ==> |pq| < |pq0|
    ensures visited != visited0 ==> |N - visited| < |N - visited0|
  {
    popped, pq := HeapPop(pq0);
    PopLeast(N, dist0, visited0, pq0, popped);
    var d, u := popped.d, popped.node;
    if u in visited0 {
      return popped, dist0, visited0, pq, steps0, wit0;
    }
    HopsExact(arcs, u);
    StartScan(arcs, N, source, init, dist0, visited0, pq0, popped, graph[u], steps0, wit0);
    visited := visited0 + {u};
    dist, pq, steps, wit := ScanNeighbours(arcs, source, visited, init, u, d, graph[u], dist0, pq, steps0, wit0);
    ScanSettles(arcs, N, source, dist0, visited0, u, d, graph[u], dist);
    ScanQueues(N, source, dist0, visited0, pq0, popped, graph[u], dist, pq);
    ScanLogs(arcs, source, init, dist0, visited0, u, d, graph[u], steps0, dist, steps);
    SettleOne(N, visited0, u);
  }

  /** dijkstra's set-up: the initial table, heap and empty log meet the loop's
      invariants with nothing visited. */
  lemma StartVisits(nodes: seq<Node>, edges: seq<Edge>, source: Node)
    requires Within(edges, NodeSet(nodes)) && source in nodes
    ensures Settled(Undirected(edges), NodeSet(nodes), source, Initial(nodes, source), {})
    ensures Queued(NodeSet(nodes), Initial(nodes, source), {}, multiset{Entry(0, source)})
    ensures Witnessed(Undirected(edges), source, Initial(nodes, source), map[source := []])
    ensures Logged(Undirected(edges), source, Initial(nodes, source), Initial(nodes, source), {}, [])
  {
    UndirectedWithin(edges, NodeSet(nodes));
  }

  /** Once the heap is empty, every node with a finite distance is
      settled, so the table is the shortest-path table and no edge can
      be relaxed in either direction. */
  lemma Conclude(edges: seq<Edge>, N: set<Node>, source: Node, dist: map<Node, Dist>,
                 visited: set<Node>, wit: map<Node, seq<Edge>>)
    requires Settled(Undirected(edges), N, source, dist, visited)
    requires Queued(N, dist, visited, multiset{})
    requires Witnessed(Undirected(edges), source, dist, wit)
    ensures forall t :: t in dist ==> IsShortest(Undirected(edges), source, t, dist[t])
    ensures forall e :: e in edges ==> dist[e.v].Le(dist[e.u].Plus(e.w)) && dist[e.u].Le(dist[e.v].Plus(e.w))
  {
    var arcs := Undirected(edges);
    assert Frontier(arcs, dist, source, visited, Inf);
    forall t | t in dist ensures IsShortest(arcs, source, t, dist[t]) {
      SettledBound(arcs, dist, source, visited, Inf, t);
      WitnessedAchieved(arcs, source, dist, wit, t);
    }
    forall e | e in edges ensures dist[e.v].Le(dist[e.u].Plus(e.w)) && dist[e.u].Le(dist[e.v].Plus(e.w)) {
      UndirectedArcs(edges, e);
      UndirectedArcs(edges, Reverse(e));
    }
  }

  /** The whole of dijkstra(nodes, edges, source). */
  method Dijkstra(nodes: seq<Node>, edges: seq<Edge>, source: Node) returns (r: Outcome)
    ensures r.KeyError? <==> !(Within(edges, NodeSet(nodes)) && source in nodes)
    ensures r.KeyError? ==> r.key !in nodes
    ensures r.KeyError? ==>
      r.key == if Within(edges, NodeSet(nodes)) then source else FirstMissing(edges, NodeSet(nodes)).value
    ensures r.Done? ==> r.dist.Keys == NodeSet(nodes) && r.dist[source] == Fin(0)
    ensures r.Done? ==> forall t :: t in r.dist ==> IsShortest(Undirected(edges), source, t, r.dist[t])
    ensures r.Done? ==> forall e :: e in edges ==>
      r.dist[e.v].Le(r.dist[e.u].Plus(e.w)) && r.dist[e.u].Le(r.dist[e.v].Plus(e.w))
    ensures r.Done? ==> r.dist == Replay(Initial(nodes, source), r.steps) && Consistent(Initial(nodes, source), r.steps)
    ensures r.Done? ==> forall st :: st in r.steps ==> StepSound(Undirected(edges), source, r.dist, st)
    ensures r.Done? ==> Grouped(r.steps)
  {
    var graph, missing := BuildAdjacency(nodes, edges);
    if missing.Some? {
      return KeyError(missing.value);
    }
    ghost var N := NodeSet(nodes);
    ghost var arcs := Undirected(edges);
    var dist := Initial(nodes, source);
    var visited: set<Node> := {};
    var pq: multiset<Entry> := multiset{Entry(0, source)};
    var steps: seq<Step> := [];
    ghost var wit: map<Node, seq<Edge>> := map[source := []];
    ghost var init := dist;
    // the first pop looks up graph[source]
    if source !in graph {
      return KeyError(source);
    }
    StartVisits(nodes, edges, source);
    while pq != multiset{}
      invariant Settled(arcs, N, source, dist, visited)
      invariant Queued(N, dist, visited, pq)
      invariant Witnessed(arcs, source, dist, wit)
      invariant Logged(arcs, source, init, dist, visited, steps)
      decreases |N - visited|, |pq|
    {
      ghost var visited0, pq0 := visited, pq;
      var popped;
      popped, dist, visited, pq, steps, wit := Visit(arcs, N, source, init, graph, dist, visited, pq, steps, wit);
      if visited == visited0 {
        assert |pq| < |pq0|;
      }
    }
    Conclude(edges, N, source, dist, visited, wit);
    return Done(dist, steps);
  }
}
