/** Weighted graphs as the repository's scripts build them: a list of node
    names and a list of (u, v, w) triples. Walks, their weights, the
    shortest-distance specification, and the one argument ("the frontier
    cut") that all three Dijkstra implementations rely on. */
module Graph {

  datatype Option<T> = None | Some(value: T)

  /** Nodes are identified by their names (city names, "A" .. "E"). */
  type Node = string

  /** The triple (u, v, w). Read as the arc u -> v; an undirected graph
      reads it in both directions. */
  datatype Edge = Edge(u: Node, v: Node, w: nat)

  /** A tentative distance: a finite value or float('inf'). */
  datatype Dist = Fin(n: nat) | Inf {
    predicate Le(other: Dist) {
      other.Inf? || (Fin? && n <= other.n)
    }
    predicate Lt(other: Dist) {
      Fin? && (other.Inf? || n < other.n)
    }
    /** d + w, where inf + w is inf */
    function Plus(w: nat): Dist {
      if Fin? then Fin(n + w) else Inf
    }
  }

  /** One entry of a heap: the pair (d, node) pushed by heapq.heappush. */
  datatype Entry = Entry(d: nat, node: Node)

  /** One element of an adjacency list: the pair (v, w). */
  datatype Hop = Hop(to: Node, w: nat)

  function NodeSet(nodes: seq<Node>): set<Node> {
    set n | n in nodes
  }

  /** The table before the search: inf everywhere, 0 at the source. */
  function Initial(nodes: seq<Node>, source: Node): map<Node, Dist> {
    (map n | n in nodes :: Inf)[source := Fin(0)]
  }

  predicate Distinct<T(==)>(s: seq<T>) {
    forall i, j :: 0 <= i < j < |s| ==> s[i] != s[j]
  }

  function Reverse(e: Edge): Edge {
    Edge(e.v, e.u, e.w)
  }

  /** Every endpoint of every edge is one of the nodes. */
  predicate Within(edges: seq<Edge>, nodes: set<Node>) {
    forall e :: e in edges ==> e.u in nodes && e.v in nodes
  }

  /** The arcs of the undirected reading of an edge list: each edge
      followed by its reverse. */
  function Undirected(edges: seq<Edge>): (arcs: seq<Edge>)
    ensures |arcs| == 2 * |edges|
    ensures forall k :: 0 <= k < |edges| ==> arcs[2 * k] == edges[k] && arcs[2 * k + 1] == Reverse(edges[k])
  {
    if edges == [] then []
    else Undirected(edges[..|edges| - 1]) + [edges[|edges| - 1], Reverse(edges[|edges| - 1])]
  }

  /** An arc belongs to the undirected reading exactly when it or its
      reverse is one of the edges. */
  lemma UndirectedArcs(edges: seq<Edge>, a: Edge)
    ensures a in Undirected(edges) <==> a in edges || Reverse(a) in edges
  {
    var arcs := Undirected(edges);
    if a in arcs {
      var k :| 0 <= k < |arcs| && arcs[k] == a;
      var i := k / 2;
      assert k == 2 * i || k == 2 * i + 1;
      if k == 2 * i {
        assert a == edges[i];
      } else {
        assert a == Reverse(edges[i]);
        assert Reverse(a) == edges[i];
      }
    }
    if a in edges {
      var i :| 0 <= i < |edges| && edges[i] == a;
      assert arcs[2 * i] == a;
    }
    if Reverse(a) in edges {
      var i :| 0 <= i < |edges| && edges[i] == Reverse(a);
      assert arcs[2 * i + 1] == a;
    }
  }

  lemma UndirectedWithin(edges: seq<Edge>, nodes: set<Node>)
    requires Within(edges, nodes)
    ensures Within(Undirected(edges), nodes)
  {
    forall a | a in Undirected(edges) ensures a.u in nodes && a.v in nodes {
      UndirectedArcs(edges, a);
    }
  }

  /** The adjacency list of x: the (v, w) of every arc leaving x, in the
      order of the arcs. */
  function Hops(arcs: seq<Edge>, x: Node): seq<Hop>
    decreases |arcs|
  {
    if arcs == [] then []
    else Hops(arcs[..|arcs| - 1], x) + (if Last(arcs).u == x then [Hop(Last(arcs).v, Last(arcs).w)] else [])
  }

  /** The adjacency list of x holds (v, w) exactly when (x, v, w) is an arc. */
  lemma {:induction false} HopsMembers(arcs: seq<Edge>, x: Node, h: Hop)
    ensures h in Hops(arcs, x) <==> Edge(x, h.to, h.w) in arcs
    decreases |arcs|
  {
    if arcs != [] {
      var a := Last(arcs);
      assert arcs == arcs[..|arcs| - 1] + [a];
      HopsMembers(arcs[..|arcs| - 1], x, h);
    }
  }

  lemma {:induction false} HopsAppend(arcs: seq<Edge>, more: seq<Edge>, x: Node)
    ensures Hops(arcs + more, x) == Hops(arcs, x) + Hops(more, x)
    decreases |more|
  {
    if more != [] {
      var m := more[..|more| - 1];
      assert (arcs + more)[..|arcs + more| - 1] == arcs + m;
      HopsAppend(arcs, m, x);
    } else {
      assert arcs + more == arcs;
    }
  }

  /** One more arc extends the adjacency list of its tail only. */
  lemma HopsSnoc(arcs: seq<Edge>, a: Edge, x: Node)
    ensures Hops(arcs + [a], x) == Hops(arcs, x) + (if a.u == x then [Hop(a.v, a.w)] else [])
  {
    assert (arcs + [a])[..|arcs|] == arcs;
  }

  /** The adjacency list of x lists exactly the arcs leaving x. */
  lemma HopsExact(arcs: seq<Edge>, x: Node)
    ensures forall h :: h in Hops(arcs, x) ==> Edge(x, h.to, h.w) in arcs
    ensures forall a :: a in arcs && a.u == x ==> Hop(a.v, a.w) in Hops(arcs, x)
  {
    forall h | h in Hops(arcs, x) ensures Edge(x, h.to, h.w) in arcs {
      HopsMembers(arcs, x, h);
    }
    forall a | a in arcs && a.u == x ensures Hop(a.v, a.w) in Hops(arcs, x) {
      HopsMembers(arcs, x, Hop(a.v, a.w));
    }
  }

  /** Appending (u, v, w) to graph[u] keeps graph the adjacency table of
      the edges read so far, one edge further. */
  lemma DirectedStep(graph: map<Node, seq<Hop>>, edges: seq<Edge>, i: nat)
    requires i < |edges| && edges[i].u in graph
    requires forall x :: x in graph ==> graph[x] == Hops(edges[..i], x)
    ensures var e := edges[i]; var g := graph[e.u := graph[e.u] + [Hop(e.v, e.w)]];
      forall x :: x in g ==> g[x] == Hops(edges[..i + 1], x)
  {
    assert edges[..i + 1] == edges[..i] + [edges[i]];
    forall x | x in graph {
      HopsSnoc(edges[..i], edges[i], x);
    }
  }

  /** Appending (v, w) to graph[u] and then (u, w) to graph[v] keeps
      graph the undirected adjacency table, one edge further. */
  lemma UndirectedStep(graph: map<Node, seq<Hop>>, edges: seq<Edge>, i: nat)
    requires i < |edges| && edges[i].u in graph && edges[i].v in graph
    requires forall x :: x in graph ==> graph[x] == Hops(Undirected(edges[..i]), x)
    ensures var e := edges[i]; var g := graph[e.u := graph[e.u] + [Hop(e.v, e.w)]]; var g' := g[e.v := g[e.v] + [Hop(e.u, e.w)]];
      forall x :: x in g' ==> g'[x] == Hops(Undirected(edges[..i + 1]), x)
  {
    forall x | x in graph {
      UndirectedSnoc(edges, i, x);
    }
  }

  /** Entering one more edge, in both directions, extends the adjacency
      list of x by (v, w) when x is u, then by (u, w) when x is v. */
  lemma UndirectedSnoc(edges: seq<Edge>, i: nat, x: Node)
    requires i < |edges|
    ensures Hops(Undirected(edges[..i + 1]), x) ==
      Hops(Undirected(edges[..i]), x)
      + (if edges[i].u == x then [Hop(edges[i].v, edges[i].w)] else [])
      + (if edges[i].v == x then [Hop(edges[i].u, edges[i].w)] else [])
  {
    var e := edges[i];
    assert edges[..i + 1][..i] == edges[..i];
    assert Undirected(edges[..i + 1]) == Undirected(edges[..i]) + [e, Reverse(e)];
    HopsAppend(Undirected(edges[..i]), [e, Reverse(e)], x);
    assert [e, Reverse(e)][..1] == [e];
    assert [e][..0] == [];
    assert Hops([e], x) == (if e.u == x then [Hop(e.v, e.w)] else []);
    assert Hops([e, Reverse(e)], x) == Hops([e], x) + (if e.v == x then [Hop(e.u, e.w)] else []);
  }

  // ---------------------------------------------------------------------
  // Walks

  function Last<T>(s: seq<T>): T
    requires s != []
  {
    s[|s| - 1]
  }

  /** q is a walk from s to t along arcs (the empty walk goes from s to s). */
  predicate IsWalk(arcs: seq<Edge>, q: seq<Edge>, s: Node, t: Node)
    decreases |q|
  {
    if q == [] then s == t
    else Last(q) in arcs && Last(q).v == t && IsWalk(arcs, q[..|q| - 1], s, Last(q).u)
  }

  /** The sum of the weights of a walk. */
  function Weight(q: seq<Edge>): nat
    decreases |q|
  {
    if q == [] then 0 else Weight(q[..|q| - 1]) + Last(q).w
  }

  /** The nodes a walk from s visits, s included. */
  function Trace(s: Node, q: seq<Edge>): seq<Node>
    decreases |q|
  {
    if q == [] then [s] else Trace(s, q[..|q| - 1]) + [Last(q).v]
  }

  lemma ExtendWalk(arcs: seq<Edge>, q: seq<Edge>, s: Node, a: Edge)
    requires IsWalk(arcs, q, s, a.u) && a in arcs
    ensures IsWalk(arcs, q + [a], s, a.v)
    ensures Weight(q + [a]) == Weight(q) + a.w
    ensures Trace(s, q + [a]) == Trace(s, q) + [a.v]
  {
    assert (q + [a])[..|q|] == q;
  }

  lemma PrependWalk(arcs: seq<Edge>, a: Edge, q: seq<Edge>, t: Node)
    requires a in arcs && IsWalk(arcs, q, a.v, t)
    ensures IsWalk(arcs, [a] + q, a.u, t)
    ensures Weight([a] + q) == a.w + Weight(q)
    ensures Trace(a.u, [a] + q) == [a.u] + Trace(a.v, q)
    decreases |q|
  {
    if q == [] {
      assert [a] + q == [a];
      assert [a][..0] == [];
    } else {
      var p := q[..|q| - 1];
      PrependWalk(arcs, a, p, Last(q).u);
      assert ([a] + q)[..|q|] == [a] + p;
    }
  }

  lemma {:induction false} WalkWithin(arcs: seq<Edge>, nodes: set<Node>, q: seq<Edge>, s: Node, t: Node)
    requires Within(arcs, nodes) && s in nodes && IsWalk(arcs, q, s, t)
    ensures t in nodes
    decreases |q|
  {
    if q != [] {
      WalkWithin(arcs, nodes, q[..|q| - 1], s, Last(q).u);
    }
  }

  /** Every walk from s to t weighs at least d; when d is inf there is no
      walk at all. */
  ghost predicate LowerBound(arcs: seq<Edge>, s: Node, t: Node, d: Dist) {
    forall q :: IsWalk(arcs, q, s, t) ==> d.Le(Fin(Weight(q)))
  }

  /** A finite d is the weight of some walk from s to t. */
  ghost predicate Achieved(arcs: seq<Edge>, s: Node, t: Node, d: Dist) {
    d.Fin? ==> exists q :: IsWalk(arcs, q, s, t) && Weight(q) == d.n
  }

  /** d is the minimum weight of a walk from s to t, or inf when t cannot
      be reached from s. */
  ghost predicate IsShortest(arcs: seq<Edge>, s: Node, t: Node, d: Dist) {
    LowerBound(arcs, s, t, d) && Achieved(arcs, s, t, d)
  }

  /** Shortest distances are unique: two values both shortest are equal. */
  lemma ShortestUnique(arcs: seq<Edge>, s: Node, t: Node, d1: Dist, d2: Dist)
    requires IsShortest(arcs, s, t, d1) && IsShortest(arcs, s, t, d2)
    ensures d1 == d2
  {
    if d2.Fin? {
      var q2 :| IsWalk(arcs, q2, s, t) && Weight(q2) == d2.n;
      assert d1.Le(Fin(Weight(q2)));
    }
    if d1.Fin? {
      var q1 :| IsWalk(arcs, q1, s, t) && Weight(q1) == d1.n;
      assert d2.Le(Fin(Weight(q1)));
    }
  }

  /** Shortest distances satisfy the triangle inequality along every arc. */
  lemma ShortestTriangle(arcs: seq<Edge>, s: Node, a: Edge, du: Dist, dv: Dist)
    requires a in arcs
    requires IsShortest(arcs, s, a.u, du) && IsShortest(arcs, s, a.v, dv)
    ensures dv.Le(du.Plus(a.w))
  {
    if du.Fin? {
      var q :| IsWalk(arcs, q, s, a.u) && Weight(q) == du.n;
      ExtendWalk(arcs, q, s, a);
      assert dv.Le(Fin(Weight(q + [a])));
    }
  }

  // ---------------------------------------------------------------------
  // The frontier argument

  /** The state every Dijkstra variant keeps: dist is defined on every
      node, the source is at 0, the arcs leaving a settled node (one in F)
      are relaxed, settled distances are at most m, and every unsettled
      distance is at least m. */
  ghost predicate Frontier(arcs: seq<Edge>, dist: map<Node, Dist>, s: Node, F: set<Node>, m: Dist) {
    && s in dist && dist[s] == Fin(0)
    && Within(arcs, dist.Keys)
    && F <= dist.Keys
    && (forall a :: a in arcs && a.u in F ==> dist[a.v].Le(dist[a.u].Plus(a.w)))
    && (forall x :: x in F ==> dist[x].Le(m))
    && (forall y :: y in dist && y !in F ==> m.Le(dist[y]))
  }

  /** A walk from the source ends at a settled node no lighter than its
      distance, or at an unsettled node no lighter than m. */
  lemma {:induction false} FrontierBound(arcs: seq<Edge>, dist: map<Node, Dist>, s: Node, F: set<Node>, m: Dist,
                                         q: seq<Edge>, t: Node)
    requires Frontier(arcs, dist, s, F, m)
    requires IsWalk(arcs, q, s, t)
    ensures t in dist
    ensures (if t in F then dist[t] else m).Le(Fin(Weight(q)))
    decreases |q|
  {
    if q != [] {
      var p, a := q[..|q| - 1], Last(q);
      FrontierBound(arcs, dist, s, F, m, p, a.u);
      assert a in arcs;
    }
  }

  /** A settled node, or an unsettled one at distance m, has a distance
      that bounds every walk to it from below. */
  lemma SettledBound(arcs: seq<Edge>, dist: map<Node, Dist>, s: Node, F: set<Node>, m: Dist, t: Node)
    requires Frontier(arcs, dist, s, F, m)
    requires t in dist && (t in F || dist[t] == m)
    ensures LowerBound(arcs, s, t, dist[t])
  {
    forall q | IsWalk(arcs, q, s, t) ensures dist[t].Le(Fin(Weight(q))) {
      FrontierBound(arcs, dist, s, F, m, q, t);
    }
  }

  /** Every finite distance is the weight of the walk recorded for it. */
  ghost predicate Witnessed(arcs: seq<Edge>, s: Node, dist: map<Node, Dist>, wit: map<Node, seq<Edge>>) {
    forall x :: x in dist && dist[x].Fin? ==>
      x in wit && IsWalk(arcs, wit[x], s, x) && Weight(wit[x]) == dist[x].n
  }

  lemma WitnessedAchieved(arcs: seq<Edge>, s: Node, dist: map<Node, Dist>, wit: map<Node, seq<Edge>>, t: Node)
    requires Witnessed(arcs, s, dist, wit) && t in dist
    ensures Achieved(arcs, s, t, dist[t])
  {
    if dist[t].Fin? {
      assert IsWalk(arcs, wit[t], s, t) && Weight(wit[t]) == dist[t].n;
    }
  }

  // ---------------------------------------------------------------------
  // Minimum extraction

  /** heapq.heappop: remove and return an entry of least distance (which
      of several equal ones is left open). */
  method HeapPop(heap: multiset<Entry>) returns (e: Entry, rest: multiset<Entry>)
    requires heap != multiset{}
    ensures e in heap && forall f :: f in heap ==> e.d <= f.d
    ensures rest == heap - multiset{e} && |rest| == |heap| - 1
  {
    ghost var least := MinEntry(heap);
    e :| e in heap && forall f :: f in heap ==> e.d <= f.d;
    PopShrinks(heap, e);
    rest := heap - multiset{e};
  }

  /** min(unvisited, key=lambda n: dist[n]): a node of least distance;
      which one of several is unspecified. */
  method LeastNode(U: set<Node>, dist: map<Node, Dist>) returns (c: Node)
    requires U != {} && U <= dist.Keys
    ensures c in U && forall y :: y in U ==> dist[c].Le(dist[y])
  {
    ghost var least := MinNode(U, dist);
    c :| c in U && forall y :: y in U ==> dist[c].Le(dist[y]);
  }

  /** Removing a member leaves a set one smaller. */
  lemma RemoveShrinks(U: set<Node>, x: Node)
    requires x in U
    ensures |U - {x}| == |U| - 1
  {
    assert U == (U - {x}) + {x};
  }

  /** Settling one more node leaves fewer unsettled ones. */
  lemma SettleOne(N: set<Node>, F: set<Node>, u: Node)
    requires u in N && u !in F
    ensures |N - (F + {u})| < |N - F|
  {
    assert N - F == (N - (F + {u})) + {u};
  }

  /** Popping an entry shrinks the heap by one. */
  lemma PopShrinks(pq: multiset<Entry>, e: Entry)
    requires e in pq
    ensures |pq - multiset{e}| == |pq| - 1
  {
    assert pq == (pq - multiset{e}) + multiset{e};
  }

  /** A non-empty heap has an entry of least distance (heapq.heappop). */
  lemma {:induction false} MinEntry(pq: multiset<Entry>) returns (e: Entry)
    requires pq != multiset{}
    ensures e in pq && forall f :: f in pq ==> e.d <= f.d
    decreases |pq|
  {
    var x :| x in pq;
    var rest := pq - multiset{x};
    assert pq == rest + multiset{x};
    if rest == multiset{} {
      e := x;
    } else {
      var m := MinEntry(rest);
      e := if x.d < m.d then x else m;
    }
  }

  /** A non-empty set of nodes has one of least distance
      (min(unvisited, key=lambda n: dist[n])). */
  lemma {:induction false} MinNode(U: set<Node>, dist: map<Node, Dist>) returns (c: Node)
    requires U != {} && U <= dist.Keys
    ensures c in U && forall y :: y in U ==> dist[c].Le(dist[y])
    decreases |U|
  {
    var x :| x in U;
    var rest := U - {x};
    if rest == {} {
      assert U == {x};
      c := x;
    } else {
      var m := MinNode(rest, dist);
      c := if dist[x].Le(dist[m]) then x else m;
    }
  }

  // ---------------------------------------------------------------------
  // Heap invariants shared by the two heap-based variants

  /** The distance table between pops: settled (visited) nodes have
      finite distances and relaxed outgoing arcs. */
  ghost predicate Settled(arcs: seq<Edge>, N: set<Node>, source: Node, dist: map<Node, Dist>, visited: set<Node>) {
    && dist.Keys == N && visited <= N && source in N && dist[source] == Fin(0)
    && Within(arcs, N)
    && (forall x :: x in visited ==> dist[x].Fin?)
    && (forall a :: a in arcs && a.u in visited ==> dist[a.v].Le(dist[a.u].Plus(a.w)))
  }

  /** The heap between pops: no entry below its node's distance, every
      unsettled finite distance has its entry, and settled distances are
      at most every entry. */
  ghost predicate Queued(N: set<Node>, dist: map<Node, Dist>, visited: set<Node>, pq: multiset<Entry>) {
    && (forall f :: f in pq ==> f.node in N && f.node in dist && dist[f.node].Le(Fin(f.d)))
    && (forall y :: y in N && y in dist && y !in visited && dist[y].Fin? ==> Entry(dist[y].n, y) in pq)
    && (forall x, f :: x in visited && x in dist && f in pq ==> dist[x].Le(Fin(f.d)))
  }

  /** A pop of the least entry: removing it keeps the heap facts for
      the settled nodes, and if its node is new, the popped d is that
      node's distance. */
  lemma PopLeast(N: set<Node>, dist: map<Node, Dist>, visited: set<Node>, pq: multiset<Entry>, popped: Entry)
    requires dist.Keys == N && visited <= N && Queued(N, dist, visited, pq)
    requires popped in pq && forall f :: f in pq ==> popped.d <= f.d
    ensures popped.node in visited ==> Queued(N, dist, visited, pq - multiset{popped})
    ensures popped.node !in visited ==> dist[popped.node] == Fin(popped.d)
    ensures popped.node in N && dist[popped.node].Fin?
  {
    var u := popped.node;
    if u !in visited {
      assert dist[u].Le(Fin(popped.d));
      assert Entry(dist[u].n, u) in pq;
    } else {
      var pq' := pq - multiset{popped};
      forall y | y in N && y !in visited && dist[y].Fin? ensures Entry(dist[y].n, y) in pq' {
        assert Entry(dist[y].n, y) in pq;
      }
    }
  }

  // ---------------------------------------------------------------------
  // Predecessor tables

  /** The prev table and what it records: every node but the source that
      has a finite distance has a predecessor; a predecessor is settled and
      the distance through it, along an arc of recorded weight, is the
      node's distance; and along prev, settled nodes were settled in order
      (rank), so following prev from any node ends. */
  ghost predicate Linked(arcs: seq<Edge>, N: set<Node>, source: Node, dist: map<Node, Dist>, F: set<Node>,
                         prev: map<Node, Option<Node>>, pw: map<Node, nat>, rank: map<Node, nat>, clock: nat)
  {
    && dist.Keys == N && prev.Keys == N && source in N && prev[source] == None
    && (forall v :: v in N && v != source && dist[v].Fin? ==> prev[v].Some?)
    && (forall v {:trigger prev[v]} :: v in N && prev[v].Some? ==>
          var u := prev[v].value;
          && u in F && u in N && v in pw && Edge(u, v, pw[v]) in arcs
          && dist[u].Fin? && dist[v] == Fin(dist[u].n + pw[v]))
    && F <= rank.Keys
    && (forall x :: x in F ==> rank[x] < clock)
    && (forall v {:trigger prev[v]} :: v in F && v in N && prev[v].Some? ==> prev[v].value in rank && rank[prev[v].value] < rank[v])
  }

  /** Where a scan of an adjacency list stands: the entries pushed so far
      and the table as lowered so far. */
  datatype ScanState = ScanState(pushed: seq<Entry>, table: map<Node, Dist>)

  /** The scan from distance d of the first i entries (v, w) of a list,
      starting from dist0: each entry that beats v's distance lowers it to
      d + w and pushes (d + w, v); the others do nothing. The searches
      push exactly these entries, in this order. */
  function ScanOf(d: nat, hops: seq<Hop>, i: nat, dist0: map<Node, Dist>): ScanState
    requires i <= |hops|
    decreases i
  {
    if i == 0 then ScanState([], dist0)
    else
      var s := ScanOf(d, hops, i - 1, dist0);
      var h := hops[i - 1];
      if h.to in s.table && Fin(d + h.w).Lt(s.table[h.to])
      then ScanState(s.pushed + [Entry(d + h.w, h.to)], s.table[h.to := Fin(d + h.w)])
      else s
  }

  /** The table and the heap of a scan that stands at ScanOf after i
      entries, heap0 grown by the entries pushed. */
  ghost predicate ScanAt(d: nat, hops: seq<Hop>, i: nat, dist0: map<Node, Dist>, heap0: multiset<Entry>,
                         dist: map<Node, Dist>, heap: multiset<Entry>) {
    i <= |hops| && dist == ScanOf(d, hops, i, dist0).table && heap == heap0 + multiset(ScanOf(d, hops, i, dist0).pushed)
  }

  /** An entry (v, w) of the list that beats v's distance: the scan
      lowers it to d + w and pushes one entry. */
  lemma ScanOfLower(d: nat, hops: seq<Hop>, i: nat, dist0: map<Node, Dist>, heap0: multiset<Entry>,
                    dist: map<Node, Dist>, heap: multiset<Entry>, v: Node, w: nat)
    requires ScanAt(d, hops, i, dist0, heap0, dist, heap) && i < |hops| && hops[i] == Hop(v, w)
    requires v in dist && Fin(d + w).Lt(dist[v])
    ensures ScanAt(d, hops, i + 1, dist0, heap0, dist[v := Fin(d + w)], heap + multiset{Entry(d + w, v)})
  {
    assert multiset(ScanOf(d, hops, i, dist0).pushed + [Entry(d + w, v)]) ==
      multiset(ScanOf(d, hops, i, dist0).pushed) + multiset{Entry(d + w, v)};
  }

  /** An entry (v, w) of the list that does not beat v's distance: the
      scan does nothing. */
  lemma ScanOfSkip(d: nat, hops: seq<Hop>, i: nat, dist0: map<Node, Dist>, heap0: multiset<Entry>,
                   dist: map<Node, Dist>, heap: multiset<Entry>, v: Node, w: nat)
    requires ScanAt(d, hops, i, dist0, heap0, dist, heap) && i < |hops| && hops[i] == Hop(v, w)
    requires v in dist && !Fin(d + w).Lt(dist[v])
    ensures ScanAt(d, hops, i + 1, dist0, heap0, dist, heap)
  {
  }

  /** A table lowered from dist0 by a scan from d of the first i entries
      of a list: the same keys, no distance raised, and every scanned
      entry's node within d plus its weight. */
  ghost predicate LowerBounds(d: nat, hops: seq<Hop>, i: nat, dist0: map<Node, Dist>, dist: map<Node, Dist>) {
    && i <= |hops|
    && dist.Keys == dist0.Keys
    && (forall x :: x in dist ==> dist[x].Le(dist0[x]))
    && (forall k :: 0 <= k < i && hops[k].to in dist ==> dist[hops[k].to].Le(Fin(d + hops[k].w)))
  }

  /** A scan pushes at most one entry per entry of the list, each along an
      entry of it at d plus its weight, and the table it leaves meets
      LowerBounds. */
  lemma {:induction false} ScanOfRelaxes(d: nat, hops: seq<Hop>, i: nat, dist0: map<Node, Dist>)
    requires i <= |hops|
    ensures |ScanOf(d, hops, i, dist0).pushed| <= i
    ensures forall e :: e in ScanOf(d, hops, i, dist0).pushed ==> d <= e.d && Hop(e.node, e.d - d) in hops
    ensures LowerBounds(d, hops, i, dist0, ScanOf(d, hops, i, dist0).table)
    decreases i
  {
    if i > 0 {
      ScanOfRelaxes(d, hops, i - 1, dist0);
      var s := ScanOf(d, hops, i - 1, dist0);
      var h := hops[i - 1];
      assert h in hops;
      if h.to in s.table && Fin(d + h.w).Lt(s.table[h.to]) {
        var e := Entry(d + h.w, h.to);
        forall f | f in s.pushed + [e] ensures d <= f.d && Hop(f.node, f.d - d) in hops {
          if f != e {
            assert f in s.pushed;
          }
        }
      }
    }
  }

  /** The distances after the first i entries of u's list have been
      scanned: only lowered, dist[u] untouched, those i entries relaxed. */
  ghost predicate RelaxedTable(u: Node, hops: seq<Hop>, i: nat, dist0: map<Node, Dist>, dist: map<Node, Dist>) {
    && u in dist0 && dist0[u].Fin? && i <= |hops|
    && dist.Keys == dist0.Keys && dist[u] == dist0[u]
    && (forall k :: 0 <= k < i ==> hops[k].to in dist && dist[hops[k].to].Le(dist0[u].Plus(hops[k].w)))
    && (forall x :: x in dist ==> dist[x].Le(dist0[x]))
  }

  /** The predecessors during the scan: an unchanged distance keeps its
      prev and weight; a changed one was reached through u along an arc. */
  ghost predicate RelaxedLinks(arcs: seq<Edge>, u: Node, dist0: map<Node, Dist>, prev0: map<Node, Option<Node>>, pw0: map<Node, nat>,
                               dist: map<Node, Dist>, prev: map<Node, Option<Node>>, pw: map<Node, nat>)
  {
    && u in dist0 && dist0[u].Fin? && dist.Keys == dist0.Keys
    && prev0.Keys == dist0.Keys && prev.Keys == dist0.Keys
    && (forall x :: x in dist && dist[x] == dist0[x] ==> prev[x] == prev0[x] && (x in pw0 ==> x in pw && pw[x] == pw0[x]))
    && (forall x :: x in dist && dist[x] != dist0[x] ==>
          prev[x] == Some(u) && x in pw && Edge(u, x, pw[x]) in arcs && dist[x] == Fin(dist0[u].n + pw[x]))
  }

  lemma UpdateTable(u: Node, hops: seq<Hop>, i: nat, dist0: map<Node, Dist>, dist: map<Node, Dist>)
    requires u in dist0 && dist0[u].Fin? && RelaxedTable(u, hops, i, dist0, dist)
    requires i < |hops| && hops[i].to in dist && dist[u].Plus(hops[i].w).Lt(dist[hops[i].to])
    ensures RelaxedTable(u, hops, i + 1, dist0, dist[hops[i].to := dist[u].Plus(hops[i].w)])
  {
  }

  lemma UpdateLinks(arcs: seq<Edge>, u: Node, v: Node, w: nat, dist0: map<Node, Dist>, prev0: map<Node, Option<Node>>, pw0: map<Node, nat>,
                    dist: map<Node, Dist>, prev: map<Node, Option<Node>>, pw: map<Node, nat>)
    requires u in dist0 && dist0[u].Fin? && dist.Keys == dist0.Keys && dist[u] == dist0[u]
    requires RelaxedLinks(arcs, u, dist0, prev0, pw0, dist, prev, pw)
    requires v in dist && Edge(u, v, w) in arcs && dist[u].Plus(w).Lt(dist[v]) && (forall x :: x in dist ==> dist[x].Le(dist0[x]))
    ensures RelaxedLinks(arcs, u, dist0, prev0, pw0, dist[v := dist[u].Plus(w)], prev[v := Some(u)], pw[v := w])
  {
    var dist', prev', pw' := dist[v := dist[u].Plus(w)], prev[v := Some(u)], pw[v := w];
    forall x | x in dist' && dist'[x] == dist0[x]
      ensures prev'[x] == prev0[x] && (x in pw0 ==> x in pw' && pw'[x] == pw0[x])
    {
      UpdateLink(arcs, u, v, w, dist0, prev0, pw0, dist, prev, pw, x);
    }
    forall x | x in dist' && dist'[x] != dist0[x]
      ensures prev'[x] == Some(u) && x in pw' && Edge(u, x, pw'[x]) in arcs && dist'[x] == Fin(dist0[u].n + pw'[x])
    {
      UpdateLink(arcs, u, v, w, dist0, prev0, pw0, dist, prev, pw, x);
    }
    assert dist'.Keys == dist0.Keys && prev'.Keys == dist0.Keys;
  }

  /** UpdateLinks at one node x. */
  lemma UpdateLink(arcs: seq<Edge>, u: Node, v: Node, w: nat, dist0: map<Node, Dist>, prev0: map<Node, Option<Node>>, pw0: map<Node, nat>,
                   dist: map<Node, Dist>, prev: map<Node, Option<Node>>, pw: map<Node, nat>, x: Node)
    requires u in dist0 && dist0[u].Fin? && dist.Keys == dist0.Keys && dist[u] == dist0[u]
    requires RelaxedLinks(arcs, u, dist0, prev0, pw0, dist, prev, pw)
    requires v in dist && Edge(u, v, w) in arcs && dist[u].Plus(w).Lt(dist[v]) && dist[v].Le(dist0[v])
    requires x in dist
    ensures var dist', prev', pw' := dist[v := dist[u].Plus(w)], prev[v := Some(u)], pw[v := w];
      && (dist'[x] == dist0[x] ==> prev'[x] == prev0[x] && (x in pw0 ==> x in pw' && pw'[x] == pw0[x]))
      && (dist'[x] != dist0[x] ==>
            prev'[x] == Some(u) && x in pw' && Edge(u, x, pw'[x]) in arcs && dist'[x] == Fin(dist0[u].n + pw'[x]))
  {
    if x == v {
      assert dist[u].Plus(w) != dist0[v];
    }
  }

  lemma SkipTable(u: Node, hops: seq<Hop>, i: nat, dist0: map<Node, Dist>, dist: map<Node, Dist>)
    requires RelaxedTable(u, hops, i, dist0, dist)
    requires i < |hops| && hops[i].to in dist && !dist[u].Plus(hops[i].w).Lt(dist[hops[i].to])
    ensures RelaxedTable(u, hops, i + 1, dist0, dist)
  {
  }

  /** Following prev back from any node with a finite distance reaches
      the source along a walk of exactly that distance. */
  lemma {:induction false} ChainWalk(arcs: seq<Edge>, N: set<Node>, source: Node, dist: map<Node, Dist>, F: set<Node>,
                                     prev: map<Node, Option<Node>>, pw: map<Node, nat>, rank: map<Node, nat>, clock: nat,
                                     x: Node)
    returns (q: seq<Edge>)
    requires dist.Keys == N && source in N && dist[source] == Fin(0)
    requires Linked(arcs, N, source, dist, F, prev, pw, rank, clock)
    requires x in N && dist[x].Fin?
    ensures IsWalk(arcs, q, source, x) && Weight(q) == dist[x].n
    decreases if x in F then rank[x] else clock
  {
    if x == source {
      q := [];
    } else {
      var p := prev[x].value;
      var p' := ChainWalk(arcs, N, source, dist, F, prev, pw, rank, clock, p);
      ExtendWalk(arcs, p', source, Edge(p, x, pw[x]));
      q := p' + [Edge(p, x, pw[x])];
    }
  }

  /** A first pop of u at its distance: the predecessors recorded by the
      scan keep the prev invariant, with u now settled. */
  lemma FreshLinks(arcs: seq<Edge>, N: set<Node>, source: Node, dist: map<Node, Dist>, F: set<Node>,
                   prev: map<Node, Option<Node>>, pw: map<Node, nat>,
                   u: Node, dist': map<Node, Dist>, prev': map<Node, Option<Node>>, pw': map<Node, nat>)
    requires dist.Keys == N && source in N && dist[source] == Fin(0) && prev.Keys == N && prev[source] == None
    requires forall v :: v in N && v != source && dist[v].Fin? ==> prev[v].Some?
    requires forall v :: v in N && prev[v].Some? ==>
      var p := prev[v].value;
      && p in F && p in N && v in pw && Edge(p, v, pw[v]) in arcs && dist[p].Fin? && dist[v] == Fin(dist[p].n + pw[v])
    requires u !in F && u in N && F <= N && dist[u].Fin? && dist'.Keys == N
    requires RelaxedLinks(arcs, u, dist, prev, pw, dist', prev', pw')
    requires forall x :: x in F + {u} ==> dist'[x] == dist[x]
    requires forall x :: x in dist ==> dist'[x].Le(dist[x])
    ensures prev'.Keys == N && prev'[source] == None
    ensures forall v :: v in N && v != source && dist'[v].Fin? ==> prev'[v].Some?
    ensures forall v :: v in N && prev'[v].Some? ==>
      var p := prev'[v].value;
      && p in F + {u} && p in N && v in pw' && Edge(p, v, pw'[v]) in arcs && dist'[p].Fin? && dist'[v] == Fin(dist'[p].n + pw'[v])
  {
    assert dist'[source] == dist[source];
    forall v | v in N && v != source && dist'[v].Fin? ensures prev'[v].Some? {
      if dist'[v] == dist[v] {
        assert prev'[v] == prev[v];
      }
    }
    forall v | v in N && prev'[v].Some?
      ensures var p := prev'[v].value;
        && p in F + {u} && p in N && v in pw' && Edge(p, v, pw'[v]) in arcs && dist'[p].Fin? && dist'[v] == Fin(dist'[p].n + pw'[v])
    {
      if dist'[v] == dist[v] {
        assert prev'[v] == prev[v];
        var p := prev[v].value;
        assert p in F && dist'[p] == dist[p];
      } else {
        assert prev'[v] == Some(u) && dist'[u] == dist[u];
      }
    }
  }

  /** A first pop of u: u takes the next rank, and every settled node
      with a predecessor still outranks it. */
  lemma FreshRanks(N: set<Node>, F: set<Node>, prev: map<Node, Option<Node>>, rank: map<Node, nat>, clock: nat,
                   u: Node, prev': map<Node, Option<Node>>, dist: map<Node, Dist>, dist': map<Node, Dist>)
    requires prev.Keys == N && prev'.Keys == N && dist.Keys == N && dist'.Keys == N
    requires forall v :: v in N && prev[v].Some? ==> prev[v].value in F
    requires F <= rank.Keys && (forall x :: x in F ==> rank[x] < clock)
    requires forall v :: v in F && v in N && prev[v].Some? ==> prev[v].value in rank && rank[prev[v].value] < rank[v]
    requires u !in F && u in N && F <= N
    requires forall x :: x in F + {u} ==> dist'[x] == dist[x]
    requires forall x :: x in dist && dist'[x] == dist[x] ==> prev'[x] == prev[x]
    ensures F + {u} <= rank[u := clock].Keys && (forall x :: x in F + {u} ==> rank[u := clock][x] < clock + 1)
    ensures forall v :: v in F + {u} && v in N && prev'[v].Some? ==>
      prev'[v].value in rank[u := clock] && rank[u := clock][prev'[v].value] < rank[u := clock][v]
  {
    forall v | v in F + {u} && v in N && prev'[v].Some?
      ensures prev'[v].value in rank[u := clock] && rank[u := clock][prev'[v].value] < rank[u := clock][v]
    {
      assert prev'[v] == prev[v];
      assert prev[v].value in F;
    }
  }

  /** A first pop of u at its distance: with u settled at the next
      rank, the prev invariant holds again. */
  lemma FreshLinked(arcs: seq<Edge>, N: set<Node>, source: Node, dist: map<Node, Dist>, F: set<Node>,
                    prev: map<Node, Option<Node>>, pw: map<Node, nat>, rank: map<Node, nat>, clock: nat,
                    u: Node, hops: seq<Hop>, dist': map<Node, Dist>, prev': map<Node, Option<Node>>, pw': map<Node, nat>)
    requires Settled(arcs, N, source, dist, F) && Linked(arcs, N, source, dist, F, prev, pw, rank, clock)
    requires u !in F && u in N && dist[u].Fin?
    requires RelaxedTable(u, hops, |hops|, dist, dist') && RelaxedLinks(arcs, u, dist, prev, pw, dist', prev', pw')
    requires forall x :: x in F + {u} ==> dist'[x] == dist[x]
    ensures Linked(arcs, N, source, dist', F + {u}, prev', pw', rank[u := clock], clock + 1)
  {
    FreshLinks(arcs, N, source, dist, F, prev, pw, u, dist', prev', pw');
    FreshRanks(N, F, prev, rank, clock, u, prev', dist, dist');
  }

  /** The initial table with no predecessor anywhere and nothing settled
      meets the table and prev invariants. */
  lemma StartLinked(nodes: seq<Node>, edges: seq<Edge>, source: Node, prev: map<Node, Option<Node>>)
    requires Within(edges, NodeSet(nodes)) && source in nodes
    requires prev == map n | n in nodes :: None
    ensures Settled(edges, NodeSet(nodes), source, Initial(nodes, source), {})
    ensures Linked(edges, NodeSet(nodes), source, Initial(nodes, source), {}, prev, map[], map[], 0)
  {
  }

  /** The directed adjacency lists built by dijkstra in Asier/main.py and
      Asier/files/main2.py: graph[u] gets (v, w) for every edge (u, v, w). */
  method DirectedAdjacency(nodes: seq<Node>, edges: seq<Edge>) returns (graph: map<Node, seq<Hop>>)
    requires Within(edges, NodeSet(nodes))
    ensures graph.Keys == NodeSet(nodes)
    ensures forall x :: x in graph ==> graph[x] == Hops(edges, x)
  {
    graph := map n | n in nodes :: [];
    var i := 0;
    while i < |edges|
      invariant 0 <= i <= |edges|
      invariant graph.Keys == NodeSet(nodes)
      invariant forall x :: x in graph ==> graph[x] == Hops(edges[..i], x)
    {
      var e := edges[i];
      assert e in edges;
      DirectedStep(graph, edges, i);
      graph := graph[e.u := graph[e.u] + [Hop(e.v, e.w)]];
      i := i + 1;
    }
    assert edges[..i] == edges;
  }
}
