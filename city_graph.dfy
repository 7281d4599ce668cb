/** Asier/files/main2.py, generate_random_city_graph: a chain through the
    cities in a shuffled order joins them all, then every further pair
    i < j of cities not yet joined (in either direction) gets a road with
    probability `connectivity`. Weights are drawn from [wmin, wmax]. */
module CityGraph {
  import opened Graph

  /** The number of chain links for n cities: len(shuffled) - 1, or none. */
  function Links(n: nat): nat {
    if n == 0 then 0 else n - 1
  }

  /** The draws generate_random_city_graph makes: links[k] is the weight
      of the k-th chain link, coins[i][j] is rng.random() and rolls[i][j]
      is rng.randint(wmin, wmax) for the pair of cities i < j. */
  predicate CityDraws(n: nat, links: seq<nat>, coins: seq<seq<real>>, rolls: seq<seq<nat>>, wmin: nat, wmax: nat) {
    && |links| == Links(n)
    && (forall k :: 0 <= k < |links| ==> wmin <= links[k] <= wmax)
    && PairDraws(n, coins, rolls, wmin, wmax)
  }

  /** The draws for the pairs of cities. */
  predicate PairDraws(n: nat, coins: seq<seq<real>>, rolls: seq<seq<nat>>, wmin: nat, wmax: nat) {
    && |coins| == n && |rolls| == n
    && (forall i :: 0 <= i < n ==> |coins[i]| == n && |rolls[i]| == n)
    && (forall i, j :: 0 <= i < j < n ==> wmin <= rolls[i][j] <= wmax)
  }

  /** generate_random_city_graph's spanning chain: the first k links of the chain, each from the k-th
      shuffled city to the next one. */
  function Chain(shuffled: seq<Node>, links: seq<nat>, k: nat): (r: seq<Edge>)
    requires k <= Links(|shuffled|) && k <= |links|
    ensures |r| == k
    ensures forall t :: 0 <= t < k ==> r[t] == Edge(shuffled[t], shuffled[t + 1], links[t])
  {
    if k == 0 then [] else Chain(shuffled, links, k - 1) + [Edge(shuffled[k - 1], shuffled[k], links[k - 1])]
  }

  /** generate_random_city_graph's already-joined test: some edge joins a and b, in either direction. */
  predicate Joined(edges: seq<Edge>, a: Node, b: Node) {
    exists e :: e in edges && ((e.u == a && e.v == b) || (e.u == b && e.v == a))
  }

  /** generate_random_city_graph's pair loop, for the pair i < j: skipped when already joined, else
      added from city i to city j when the coin is below connectivity. */
  function Offer(edges: seq<Edge>, cities: seq<Node>, coins: seq<seq<real>>, rolls: seq<seq<nat>>, connectivity: real,
                 i: nat, j: nat): seq<Edge>
    requires |coins| == |cities| && |rolls| == |cities| && i < |cities| && j < |cities|
    requires |coins[i]| == |cities| && |rolls[i]| == |cities|
  {
    if Joined(edges, cities[i], cities[j]) then edges
    else if coins[i][j] < connectivity then edges + [Edge(cities[i], cities[j], rolls[i][j])]
    else edges
  }

  /** The edges after the pairs (0, 1), ..., (i, j-1) have been offered,
      starting from the chain. */
  function RowOffers(chain: seq<Edge>, cities: seq<Node>, coins: seq<seq<real>>, rolls: seq<seq<nat>>, connectivity: real,
                     i: nat, j: nat): seq<Edge>
    requires |coins| == |cities| && |rolls| == |cities| && i < |cities| && j <= |cities|
    requires forall a :: 0 <= a < |cities| ==> |coins[a]| == |cities| && |rolls[a]| == |cities|
    decreases i, 1, j
  {
    if j <= i + 1 then RowsOffers(chain, cities, coins, rolls, connectivity, i)
    else Offer(RowOffers(chain, cities, coins, rolls, connectivity, i, j - 1), cities, coins, rolls, connectivity, i, j - 1)
  }

  /** The edges after every pair whose first city is below i has been
      offered, starting from the chain. */
  function RowsOffers(chain: seq<Edge>, cities: seq<Node>, coins: seq<seq<real>>, rolls: seq<seq<nat>>, connectivity: real,
                      i: nat): seq<Edge>
    requires |coins| == |cities| && |rolls| == |cities| && i <= |cities|
    requires forall a :: 0 <= a < |cities| ==> |coins[a]| == |cities| && |rolls[a]| == |cities|
    decreases i, 0, 0
  {
    if i == 0 then chain else RowOffers(chain, cities, coins, rolls, connectivity, i - 1, |cities|)
  }

  /** The edge list generate_random_city_graph returns for the given draws. */
  function CityEdges(cities: seq<Node>, shuffled: seq<Node>, links: seq<nat>, coins: seq<seq<real>>, rolls: seq<seq<nat>>,
                     wmin: nat, wmax: nat, connectivity: real): seq<Edge>
    requires |shuffled| == |cities| && CityDraws(|cities|, links, coins, rolls, wmin, wmax)
  {
    RowsOffers(Chain(shuffled, links, Links(|cities|)), cities, coins, rolls, connectivity, |cities|)
  }

  /** generate_random_city_graph, with the shuffle and the draws passed in. */
  method GenerateRandomCityGraph(cities: seq<Node>, shuffled: seq<Node>, links: seq<nat>,
                                 coins: seq<seq<real>>, rolls: seq<seq<nat>>, wmin: nat, wmax: nat, connectivity: real)
    returns (edges: seq<Edge>)
    requires multiset(shuffled) == multiset(cities)
    requires CityDraws(|cities|, links, coins, rolls, wmin, wmax)
    ensures |shuffled| == |cities| && edges == CityEdges(cities, shuffled, links, coins, rolls, wmin, wmax, connectivity)
  {
    assert |shuffled| == |multiset(shuffled)| == |cities|;
    edges := [];
    var i := 0;
    while i + 1 < |shuffled|
      invariant i <= Links(|shuffled|) && edges == Chain(shuffled, links, i)
    {
      var weight := links[i];
      edges := edges + [Edge(shuffled[i], shuffled[i + 1], weight)];
      i := i + 1;
    }
    ghost var chain := edges;
    for a := 0 to |cities|
      invariant edges == RowsOffers(chain, cities, coins, rolls, connectivity, a)
    {
      var city1 := cities[a];
      for b := a + 1 to |cities|
        invariant edges == RowOffers(chain, cities, coins, rolls, connectivity, a, b)
      {
        var city2 := cities[b];
        if Joined(edges, city1, city2) {
          continue;
        }
        if coins[a][b] < connectivity {
          var weight := rolls[a][b];
          edges := edges + [Edge(city1, city2, weight)];
        }
      }
    }
  }

  // ---------------------------------------------------------------------
  // What the offers keep

  /** e and f join the same two cities, in either direction. */
  predicate SamePair(e: Edge, f: Edge) {
    (e.u == f.u && e.v == f.v) || (e.u == f.v && e.v == f.u)
  }

  /** No edge is a self-loop and no two edges join the same pair. */
  predicate Simple(edges: seq<Edge>) {
    && (forall k :: 0 <= k < |edges| ==> edges[k].u != edges[k].v)
    && (forall k, l :: 0 <= k < l < |edges| ==> !SamePair(edges[k], edges[l]))
  }

  /** edges extend the chain, stay among the cities and within the weight
      range, and stay simple when the chain is simple and the cities are
      distinct. */
  ghost predicate Grown(chain: seq<Edge>, edges: seq<Edge>, cities: seq<Node>, wmin: nat, wmax: nat) {
    && |chain| <= |edges| && edges[..|chain|] == chain
    && (forall e :: e in edges ==> e.u in cities && e.v in cities && wmin <= e.w <= wmax)
    && (Distinct(cities) && Simple(chain) ==> Simple(edges))
  }

  lemma OfferGrown(chain: seq<Edge>, edges: seq<Edge>, cities: seq<Node>, coins: seq<seq<real>>, rolls: seq<seq<nat>>,
                   wmin: nat, wmax: nat, connectivity: real, i: nat, j: nat)
    requires PairDraws(|cities|, coins, rolls, wmin, wmax) && i < j < |cities|
    requires Grown(chain, edges, cities, wmin, wmax)
    ensures Grown(chain, Offer(edges, cities, coins, rolls, connectivity, i, j), cities, wmin, wmax)
  {
    var e := Edge(cities[i], cities[j], rolls[i][j]);
    if Offer(edges, cities, coins, rolls, connectivity, i, j) == edges + [e] {
      assert (edges + [e])[..|chain|] == edges[..|chain|];
      if Distinct(cities) && Simple(chain) {
        SimpleSnoc(edges, e);
      }
    }
  }

  /** A fresh pair of different cities keeps the edge list simple. */
  lemma SimpleSnoc(edges: seq<Edge>, e: Edge)
    requires Simple(edges) && e.u != e.v && !Joined(edges, e.u, e.v)
    ensures Simple(edges + [e])
  {
    forall k | 0 <= k < |edges| ensures !SamePair(edges[k], e) {
      assert edges[k] in edges;
    }
  }

  lemma {:induction false} RowGrown(chain: seq<Edge>, cities: seq<Node>, coins: seq<seq<real>>, rolls: seq<seq<nat>>,
                                    wmin: nat, wmax: nat, connectivity: real, i: nat, j: nat)
    requires PairDraws(|cities|, coins, rolls, wmin, wmax) && i < |cities| && j <= |cities|
    requires Grown(chain, chain, cities, wmin, wmax)
    ensures Grown(chain, RowOffers(chain, cities, coins, rolls, connectivity, i, j), cities, wmin, wmax)
    decreases i, 1, j
  {
    if j <= i + 1 {
      RowsGrown(chain, cities, coins, rolls, wmin, wmax, connectivity, i);
    } else {
      RowGrown(chain, cities, coins, rolls, wmin, wmax, connectivity, i, j - 1);
      OfferGrown(chain, RowOffers(chain, cities, coins, rolls, connectivity, i, j - 1), cities, coins, rolls,
                 wmin, wmax, connectivity, i, j - 1);
    }
  }

  lemma {:induction false} RowsGrown(chain: seq<Edge>, cities: seq<Node>, coins: seq<seq<real>>, rolls: seq<seq<nat>>,
                                     wmin: nat, wmax: nat, connectivity: real, i: nat)
    requires PairDraws(|cities|, coins, rolls, wmin, wmax) && i <= |cities|
    requires Grown(chain, chain, cities, wmin, wmax)
    ensures Grown(chain, RowsOffers(chain, cities, coins, rolls, connectivity, i), cities, wmin, wmax)
    decreases i, 0, 0
  {
    if i > 0 {
      RowGrown(chain, cities, coins, rolls, wmin, wmax, connectivity, i - 1, |cities|);
    }
  }

  /** The pair (a, b) comes before (i, j) in the loop order. */
  predicate Before(a: nat, b: nat, i: nat, j: nat) {
    a < i || (a == i && b < j)
  }

  /** With distinct cities, a pair is joined exactly when the chain joins
      it or it was offered with a coin below connectivity. */
  ghost predicate Covered(chain: seq<Edge>, edges: seq<Edge>, cities: seq<Node>, coins: seq<seq<real>>, connectivity: real,
                          i: nat, j: nat)
    requires |coins| == |cities| && forall a :: 0 <= a < |cities| ==> |coins[a]| == |cities|
  {
    forall a, b :: 0 <= a < b < |cities| ==>
      (Joined(edges, cities[a], cities[b]) <==>
       Joined(chain, cities[a], cities[b]) || (Before(a, b, i, j) && coins[a][b] < connectivity))
  }

  lemma JoinedAppend(edges: seq<Edge>, e: Edge, x: Node, y: Node)
    ensures Joined(edges + [e], x, y) <==> Joined(edges, x, y) || (e.u == x && e.v == y) || (e.u == y && e.v == x)
  {
    if Joined(edges + [e], x, y) {
      var f :| f in edges + [e] && ((f.u == x && f.v == y) || (f.u == y && f.v == x));
      if f != e {
        assert f in edges;
      }
    }
    if Joined(edges, x, y) {
      var f :| f in edges && ((f.u == x && f.v == y) || (f.u == y && f.v == x));
      assert f in edges + [e];
    }
    if (e.u == x && e.v == y) || (e.u == y && e.v == x) {
      assert e in edges + [e];
    }
  }

  lemma OfferCovered(chain: seq<Edge>, edges: seq<Edge>, cities: seq<Node>, coins: seq<seq<real>>, rolls: seq<seq<nat>>,
                     wmin: nat, wmax: nat, connectivity: real, i: nat, j: nat)
    requires PairDraws(|cities|, coins, rolls, wmin, wmax) && i < j < |cities| && Distinct(cities)
    requires Covered(chain, edges, cities, coins, connectivity, i, j)
    ensures Covered(chain, Offer(edges, cities, coins, rolls, connectivity, i, j), cities, coins, connectivity, i, j + 1)
  {
    var e := Edge(cities[i], cities[j], rolls[i][j]);
    var edges' := Offer(edges, cities, coins, rolls, connectivity, i, j);
    forall a, b | 0 <= a < b < |cities|
      ensures Joined(edges', cities[a], cities[b]) <==>
        Joined(chain, cities[a], cities[b]) || (Before(a, b, i, j + 1) && coins[a][b] < connectivity)
    {
      if edges' == edges + [e] {
        JoinedAppend(edges, e, cities[a], cities[b]);
        if (e.u == cities[a] && e.v == cities[b]) || (e.u == cities[b] && e.v == cities[a]) {
          assert a == i && b == j;
        }
      }
    }
  }

  lemma {:induction false} RowCovered(chain: seq<Edge>, cities: seq<Node>, coins: seq<seq<real>>, rolls: seq<seq<nat>>,
                                      wmin: nat, wmax: nat, connectivity: real, i: nat, j: nat)
    requires PairDraws(|cities|, coins, rolls, wmin, wmax) && i < |cities| && i < j <= |cities| && Distinct(cities)
    ensures Covered(chain, RowOffers(chain, cities, coins, rolls, connectivity, i, j), cities, coins, connectivity, i, j)
    decreases i, 1, j
  {
    if j <= i + 1 {
      RowsCovered(chain, cities, coins, rolls, wmin, wmax, connectivity, i);
    } else {
      RowCovered(chain, cities, coins, rolls, wmin, wmax, connectivity, i, j - 1);
      RowStep(chain, cities, coins, rolls, wmin, wmax, connectivity, i, j);
    }
  }

  /** Offering the pair (i, j - 1) extends the coverage of row i by one. */
  lemma RowStep(chain: seq<Edge>, cities: seq<Node>, coins: seq<seq<real>>, rolls: seq<seq<nat>>,
                wmin: nat, wmax: nat, connectivity: real, i: nat, j: nat)
    requires PairDraws(|cities|, coins, rolls, wmin, wmax) && i + 1 < j <= |cities| && Distinct(cities)
    requires Covered(chain, RowOffers(chain, cities, coins, rolls, connectivity, i, j - 1), cities, coins, connectivity, i, j - 1)
    ensures Covered(chain, RowOffers(chain, cities, coins, rolls, connectivity, i, j), cities, coins, connectivity, i, j)
  {
    var before := RowOffers(chain, cities, coins, rolls, connectivity, i, j - 1);
    OfferCovered(chain, before, cities, coins, rolls, wmin, wmax, connectivity, i, j - 1);
  }

  lemma {:induction false} RowsCovered(chain: seq<Edge>, cities: seq<Node>, coins: seq<seq<real>>, rolls: seq<seq<nat>>,
                                       wmin: nat, wmax: nat, connectivity: real, i: nat)
    requires PairDraws(|cities|, coins, rolls, wmin, wmax) && i <= |cities| && Distinct(cities)
    ensures Covered(chain, RowsOffers(chain, cities, coins, rolls, connectivity, i), cities, coins, connectivity, i, i + 1)
    decreases i, 0, 0
  {
    if i > 0 {
      RowCovered(chain, cities, coins, rolls, wmin, wmax, connectivity, i - 1, |cities|);
    }
  }

  // ---------------------------------------------------------------------
  // The chain

  /** A sequence with distinct elements holds each value at most once. */
  lemma {:induction false} DistinctCount(s: seq<Node>, x: Node)
    requires Distinct(s)
    ensures multiset(s)[x] <= 1
    decreases |s|
  {
    if s != [] {
      var init := s[..|s| - 1];
      assert s == init + [Last(s)];
      assert Distinct(init);
      DistinctCount(init, x);
      if Last(s) == x {
        assert x !in init;
      }
    }
  }

  /** A value at two positions occurs twice. */
  lemma CountTwo(s: seq<Node>, i: nat, j: nat)
    requires i < j < |s|
    ensures s[i] == s[j] ==> multiset(s)[s[i]] >= 2
  {
    assert s == s[..j] + s[j..];
    assert s[i] == s[..j][i];
    assert s[j] == s[j..][0];
  }

  /** A permutation of distinct cities is distinct, so the shuffled copy is too. */
  lemma PermDistinct(cities: seq<Node>, shuffled: seq<Node>)
    requires multiset(shuffled) == multiset(cities) && Distinct(cities)
    ensures Distinct(shuffled)
  {
    forall i, j | 0 <= i < j < |shuffled| ensures shuffled[i] != shuffled[j] {
      CountTwo(shuffled, i, j);
      DistinctCount(cities, shuffled[i]);
    }
  }

  /** The chain stays among the cities and within the weight range, and
      it is simple when the cities are distinct. */
  lemma ChainGrown(cities: seq<Node>, shuffled: seq<Node>, links: seq<nat>, coins: seq<seq<real>>, rolls: seq<seq<nat>>,
                   wmin: nat, wmax: nat)
    requires multiset(shuffled) == multiset(cities)
    requires CityDraws(|cities|, links, coins, rolls, wmin, wmax)
    ensures |shuffled| == |cities| && Grown(Chain(shuffled, links, Links(|cities|)), Chain(shuffled, links, Links(|cities|)), cities, wmin, wmax)
    ensures Distinct(cities) ==> Simple(Chain(shuffled, links, Links(|cities|)))
  {
    assert |shuffled| == |multiset(shuffled)| == |cities|;
    var chain := Chain(shuffled, links, Links(|cities|));
    forall e | e in chain ensures e.u in cities && e.v in cities && wmin <= e.w <= wmax {
      var t :| 0 <= t < |chain| && chain[t] == e;
      assert shuffled[t] in multiset(shuffled) && shuffled[t + 1] in multiset(shuffled);
    }
    if Distinct(cities) {
      PermDistinct(cities, shuffled);
      ChainSimple(shuffled, links);
    }
    assert chain[..|chain|] == chain;
  }

  /** The chain through distinct cities is simple. */
  lemma ChainSimple(shuffled: seq<Node>, links: seq<nat>)
    requires Distinct(shuffled) && |links| == Links(|shuffled|)
    ensures Simple(Chain(shuffled, links, Links(|shuffled|)))
  {
    var chain := Chain(shuffled, links, Links(|shuffled|));
    forall k | 0 <= k < |chain| ensures chain[k].u != chain[k].v {
      assert chain[k] == Edge(shuffled[k], shuffled[k + 1], links[k]);
    }
    forall k, l | 0 <= k < l < |chain| ensures !SamePair(chain[k], chain[l]) {
      assert chain[k] == Edge(shuffled[k], shuffled[k + 1], links[k]);
      assert chain[l] == Edge(shuffled[l], shuffled[l + 1], links[l]);
      assert shuffled[k] != shuffled[l] && shuffled[k + 1] != shuffled[l + 1] && shuffled[k] != shuffled[l + 1];
    }
  }

  /** Consecutive chain cities are joined, so an undirected walk along the
      chain goes from any shuffled city to any other. */
  lemma {:induction false} LinkWalk(edges: seq<Edge>, shuffled: seq<Node>, links: seq<nat>, p: nat, r: nat)
    requires p < |shuffled| && r < |shuffled| && |links| == Links(|shuffled|)
    requires forall t :: 0 <= t < Links(|shuffled|) ==> Edge(shuffled[t], shuffled[t + 1], links[t]) in edges
    ensures exists q :: IsWalk(Undirected(edges), q, shuffled[p], shuffled[r])
    decreases if p <= r then r - p else p - r
  {
    var arcs := Undirected(edges);
    if p == r {
      assert IsWalk(arcs, [], shuffled[p], shuffled[r]);
    } else if p < r {
      LinkWalk(edges, shuffled, links, p, r - 1);
      var q :| IsWalk(arcs, q, shuffled[p], shuffled[r - 1]);
      var a := Edge(shuffled[r - 1], shuffled[r], links[r - 1]);
      UndirectedArcs(edges, a);
      ExtendWalk(arcs, q, shuffled[p], a);
    } else {
      LinkWalk(edges, shuffled, links, p, r + 1);
      var q :| IsWalk(arcs, q, shuffled[p], shuffled[r + 1]);
      var a := Reverse(Edge(shuffled[r], shuffled[r + 1], links[r]));
      UndirectedArcs(edges, a);
      ExtendWalk(arcs, q, shuffled[p], a);
    }
  }

  // ---------------------------------------------------------------------
  // Counting pairs

  /** The position of x in s. */
  function IndexOf(s: seq<Node>, x: Node): (r: nat)
    requires x in s
    ensures r < |s| && s[r] == x
    decreases |s|
  {
    if Last(s) == x then |s| - 1 else IndexOf(s[..|s| - 1], x)
  }

  /** The positions of an edge's endpoints among the cities, smaller first. */
  function Key(cities: seq<Node>, e: Edge): (nat, nat)
    requires e.u in cities && e.v in cities
  {
    var a := IndexOf(cities, e.u);
    var b := IndexOf(cities, e.v);
    if a < b then (a, b) else (b, a)
  }

  predicate Among(edges: seq<Edge>, cities: seq<Node>) {
    forall k :: 0 <= k < |edges| ==> edges[k].u in cities && edges[k].v in cities
  }

  /** The keys of all edges. */
  function Keys(cities: seq<Node>, edges: seq<Edge>): set<(nat, nat)>
    requires Among(edges, cities)
    decreases |edges|
  {
    if edges == [] then {} else Keys(cities, edges[..|edges| - 1]) + {Key(cities, Last(edges))}
  }

  /** Over distinct cities the key of an edge that is not a self-loop
      is a pair of positions a < b, and two such edges share a key only
      when they join the same pair. */
  lemma KeyPair(cities: seq<Node>, e: Edge, f: Edge)
    requires Distinct(cities) && e.u in cities && e.v in cities && f.u in cities && f.v in cities && e.u != e.v
    ensures Key(cities, e).0 < Key(cities, e).1 < |cities|
    ensures Key(cities, e) == Key(cities, f) ==> SamePair(e, f)
  {
  }

  /** A key no edge has is not among the keys. */
  lemma {:induction false} KeysAvoid(cities: seq<Node>, edges: seq<Edge>, p: (nat, nat))
    requires Among(edges, cities)
    requires forall k :: 0 <= k < |edges| ==> Key(cities, edges[k]) != p
    ensures p !in Keys(cities, edges)
    decreases |edges|
  {
    if edges != [] {
      var init := edges[..|edges| - 1];
      assert Among(init, cities);
      assert forall k :: 0 <= k < |init| ==> init[k] == edges[k];
      KeysAvoid(cities, init, p);
    }
  }

  /** Over distinct cities, a simple edge list has one key per edge, each a
      pair of positions a < b. */
  lemma {:induction false} KeysCount(cities: seq<Node>, edges: seq<Edge>)
    requires Distinct(cities) && Simple(edges) && Among(edges, cities)
    ensures |Keys(cities, edges)| == |edges|
    decreases |edges|
  {
    if edges != [] {
      var init := edges[..|edges| - 1];
      var e := Last(edges);
      assert Simple(init) && Among(init, cities);
      KeysCount(cities, init);
      forall k | 0 <= k < |init| ensures Key(cities, init[k]) != Key(cities, e) {
        assert !SamePair(edges[k], edges[|edges| - 1]);
        KeyPair(cities, e, init[k]);
      }
      KeysAvoid(cities, init, Key(cities, e));
    }
  }

  /** Over distinct cities, the keys of edges without self-loops are pairs
      of positions a < b. */
  lemma {:induction false} KeysPairs(cities: seq<Node>, edges: seq<Edge>)
    requires Distinct(cities) && Among(edges, cities)
    requires forall k :: 0 <= k < |edges| ==> edges[k].u != edges[k].v
    ensures Keys(cities, edges) <= Pairs(|cities|)
    decreases |edges|
  {
    if edges != [] {
      var init := edges[..|edges| - 1];
      assert Among(init, cities);
      assert forall k :: 0 <= k < |init| ==> init[k] == edges[k];
      KeysPairs(cities, init);
      KeyPair(cities, Last(edges), Last(edges));
    }
  }

  /** The pairs (a, n) with a < m. */
  function Column(m: nat, n: nat): (r: set<(nat, nat)>)
    ensures forall p :: p in r <==> p.0 < m && p.1 == n
    ensures |r| == m
  {
    if m == 0 then {} else Column(m - 1, n) + {(m - 1, n)}
  }

  /** The pairs a < b < n. */
  function Pairs(n: nat): (r: set<(nat, nat)>)
    ensures forall p :: p in r <==> p.0 < p.1 < n
    ensures 2 * |r| == n * (n - 1)
  {
    if n == 0 then {} else Pairs(n - 1) + Column(n - 1, n - 1)
  }

  // ---------------------------------------------------------------------
  // What generate_random_city_graph returns

  /** generate_random_city_graph: the chain comes first and every edge joins two cities
      with a weight in [wmin, wmax]; over distinct cities no edge is a
      self-loop and no two edges join the same pair. */
  lemma CityEdgesShape(cities: seq<Node>, shuffled: seq<Node>, links: seq<nat>, coins: seq<seq<real>>, rolls: seq<seq<nat>>,
                       wmin: nat, wmax: nat, connectivity: real)
    requires multiset(shuffled) == multiset(cities)
    requires CityDraws(|cities|, links, coins, rolls, wmin, wmax)
    ensures |shuffled| == |cities|
    ensures var edges := CityEdges(cities, shuffled, links, coins, rolls, wmin, wmax, connectivity);
      && Links(|cities|) <= |edges| && edges[..Links(|cities|)] == Chain(shuffled, links, Links(|cities|))
      && (forall e :: e in edges ==> e.u in cities && e.v in cities && wmin <= e.w <= wmax)
      && (Distinct(cities) ==> Simple(edges))
  {
    ChainGrown(cities, shuffled, links, coins, rolls, wmin, wmax);
    RowsGrown(Chain(shuffled, links, Links(|cities|)), cities, coins, rolls, wmin, wmax, connectivity, |cities|);
  }

  /** generate_random_city_graph: over distinct cities, a pair a < b is joined exactly
      when the chain joins it or its coin is below connectivity. */
  lemma CityEdgesJoined(cities: seq<Node>, shuffled: seq<Node>, links: seq<nat>, coins: seq<seq<real>>, rolls: seq<seq<nat>>,
                        wmin: nat, wmax: nat, connectivity: real, a: nat, b: nat)
    requires multiset(shuffled) == multiset(cities) && Distinct(cities)
    requires CityDraws(|cities|, links, coins, rolls, wmin, wmax)
    requires a < b < |cities|
    ensures |shuffled| == |cities|
    ensures Joined(CityEdges(cities, shuffled, links, coins, rolls, wmin, wmax, connectivity), cities[a], cities[b]) <==>
      Joined(Chain(shuffled, links, Links(|cities|)), cities[a], cities[b]) || coins[a][b] < connectivity
  {
    assert |shuffled| == |multiset(shuffled)| == |cities|;
    RowsCovered(Chain(shuffled, links, Links(|cities|)), cities, coins, rolls, wmin, wmax, connectivity, |cities|);
  }

  /** generate_random_city_graph's spanning chain: read undirected, the graph joins every two cities. */
  lemma CityEdgesConnected(cities: seq<Node>, shuffled: seq<Node>, links: seq<nat>, coins: seq<seq<real>>, rolls: seq<seq<nat>>,
                           wmin: nat, wmax: nat, connectivity: real, x: Node, y: Node)
    requires multiset(shuffled) == multiset(cities)
    requires CityDraws(|cities|, links, coins, rolls, wmin, wmax)
    requires x in cities && y in cities
    ensures |shuffled| == |cities|
    ensures exists q :: IsWalk(Undirected(CityEdges(cities, shuffled, links, coins, rolls, wmin, wmax, connectivity)), q, x, y)
  {
    CityEdgesShape(cities, shuffled, links, coins, rolls, wmin, wmax, connectivity);
    var edges := CityEdges(cities, shuffled, links, coins, rolls, wmin, wmax, connectivity);
    var chain := Chain(shuffled, links, Links(|cities|));
    forall t | 0 <= t < Links(|shuffled|) ensures Edge(shuffled[t], shuffled[t + 1], links[t]) in edges {
      assert edges[t] == chain[t];
    }
    assert x in multiset(shuffled) && y in multiset(shuffled);
    var p :| 0 <= p < |shuffled| && shuffled[p] == x;
    var r :| 0 <= r < |shuffled| && shuffled[r] == y;
    LinkWalk(edges, shuffled, links, p, r);
  }

  /** dijkstra's directed adjacency lists and the spanning chain: the chain joins the cities only when its
      edges are read in both directions. For the cities A, B shuffled to
      B, A, the one chain link runs from B to A, the pair (A, B) is then
      skipped as already joined, and no directed walk leads from A to B:
      the directed search of dijkstra finds B unreachable from A. */
  lemma ChainOneWay(connectivity: real)
    ensures var cities := ["A", "B"];
      var edges := CityEdges(cities, ["B", "A"], [1], [[0.0, 0.0], [0.0, 0.0]], [[1, 1], [1, 1]], 1, 1, connectivity);
      && edges == [Edge("B", "A", 1)]
      && IsShortest(edges, "A", "B", Inf)
      && exists q :: IsWalk(Undirected(edges), q, "A", "B")
  {
    var cities := ["A", "B"];
    var coins, rolls := [[0.0, 0.0], [0.0, 0.0]], [[1, 1], [1, 1]];
    var chain := Chain(["B", "A"], [1], 1);
    assert chain == [Edge("B", "A", 1)];
    assert Joined(chain, "A", "B") by {
      assert chain[0] in chain;
    }
    var edges := CityEdges(cities, ["B", "A"], [1], coins, rolls, 1, 1, connectivity);
    assert edges == chain by {
      assert RowOffers(chain, cities, coins, rolls, connectivity, 0, 2) == chain;
      assert RowOffers(chain, cities, coins, rolls, connectivity, 1, 2) == chain;
    }
    forall q ensures !IsWalk(edges, q, "A", "B") {
      OneWay(q);
    }
    var a := Reverse(Edge("B", "A", 1));
    UndirectedArcs(edges, a);
    ExtendWalk(Undirected(edges), [], "A", a);
  }

  /** The single arc B -> A leads nowhere but to A. */
  lemma OneWay(q: seq<Edge>)
    ensures !IsWalk([Edge("B", "A", 1)], q, "A", "B")
  {
    if q != [] && Last(q) in [Edge("B", "A", 1)] {
      assert Last(q).v == "A";
    }
  }

  /** generate_random_city_graph: over distinct cities there are between n - 1 and
      n (n - 1) / 2 edges. */
  lemma CityEdgesCount(cities: seq<Node>, shuffled: seq<Node>, links: seq<nat>, coins: seq<seq<real>>, rolls: seq<seq<nat>>,
                       wmin: nat, wmax: nat, connectivity: real)
    requires multiset(shuffled) == multiset(cities) && Distinct(cities)
    requires CityDraws(|cities|, links, coins, rolls, wmin, wmax)
    ensures |shuffled| == |cities|
    ensures var edges := CityEdges(cities, shuffled, links, coins, rolls, wmin, wmax, connectivity);
      Links(|cities|) <= |edges| && 2 * |edges| <= |cities| * (|cities| - 1)
  {
    CityEdgesShape(cities, shuffled, links, coins, rolls, wmin, wmax, connectivity);
    var edges := CityEdges(cities, shuffled, links, coins, rolls, wmin, wmax, connectivity);
    assert Among(edges, cities) by {
      forall k | 0 <= k < |edges| ensures edges[k].u in cities && edges[k].v in cities {
        assert edges[k] in edges;
      }
    }
    KeysCount(cities, edges);
    KeysPairs(cities, edges);
    SubsetCount(Keys(cities, edges), Pairs(|cities|));
  }

  lemma {:induction false} SubsetCount(a: set<(nat, nat)>, b: set<(nat, nat)>)
    requires a <= b
    ensures |a| <= |b|
    decreases |b|
  {
    if b != {} {
      var x :| x in b;
      SubsetCount(a - {x}, b - {x});
    }
  }
}
