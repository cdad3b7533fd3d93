/**
 * `Network` (src/Network.java): the weighted graph of the library, directed
 * or undirected.  It keeps the shared state of `AbstractWeightedGraph`,
 * adds edges with their weights, counts and sums the edges with each
 * undirected pair taken once, builds a spanning tree with Kruskal's
 * algorithm and computes a maximum flow with Edmonds-Karp.
 */
module Networks {
  import opened Outcomes
  import opened Sequences
  import opened Edges
  import opened Filters
  import opened Paths
  import opened DisjointSets
  import opened Forests
  import opened WeightedGraphs
  import opened MaxFlows

  /** The same edge the other way round, as `addEdge` lists it in an undirected network. */
  function Reverse<T(==,!new)>(e: WeightedEdge<T>): (r: WeightedEdge<T>)
    ensures r.u == e.v && r.v == e.u && r.weight == e.weight
  {
    WeightedEdge(e.v, e.u, e.weight)
  }

  lemma ReverseTwice<T(!new)>(e: WeightedEdge<T>)
    ensures Reverse(Reverse(e)) == e
    ensures Reverse(e) == e <==> e.u == e.v
  {
  }

  /** Only loops may be listed more than once. */
  ghost predicate NonLoopsOnce<T(!new)>(edges: seq<WeightedEdge<T>>)
  {
    forall e :: e in edges && e.u != e.v ==> multiset(edges)[e] == 1
  }

  /**
   * The state every `Network` keeps: the adjacency has entries only for
   * vertices and leads only to vertices that have entries; every listed
   * edge is a pair of its tail's entry; a directed network lists each edge
   * once; an undirected one lists each edge with its reverse, and only a
   * loop (its own reverse) twice.
   */
  ghost predicate NetworkState<T(!new)>(adj: WAdjacency<T>, vertexes: set<T>, edges: seq<WeightedEdge<T>>, isDirected: bool)
  {
    adj.Keys <= vertexes && Closed(adj, vertexes) &&
    (forall e :: e in edges ==> e.u in adj && (e.v, e.weight) in adj[e.u]) &&
    (if isDirected then Distinct(edges)
     else NonLoopsOnce(edges) && forall e :: e in edges ==> Reverse(e) in edges)
  }

  /**
   * The adjacency after `addEdge(u, v, w)` of a new edge: `u` and `v` get an
   * entry if they had none, `(v, w)` joins the entry of `u` and, when the
   * network is undirected, `(u, w)` joins the entry of `v`.
   */
  function Linked<T(==,!new)>(adj: WAdjacency<T>, u: T, v: T, w: int, isDirected: bool): (r: WAdjacency<T>)
    ensures r.Keys == adj.Keys + {u, v}
    ensures forall a, h :: a in r && h in r[a] <==>
      (a in adj && h in adj[a]) || (a == u && h == (v, w)) || (!isDirected && a == v && h == (u, w))
  {
    var first := if u in adj then adj else adj[u := {}];
    var second := if v in first then first else first[v := {}];
    var forward := second[u := second[u] + {(v, w)}];
    if isDirected then forward else forward[v := forward[v] + {(u, w)}]
  }

  /** A new edge keeps the network's state. */
  lemma AddingKeepsState<T(!new)>(adj: WAdjacency<T>, vertexes: set<T>, edges: seq<WeightedEdge<T>>, isDirected: bool,
                                  e: WeightedEdge<T>)
    requires NetworkState(adj, vertexes, edges, isDirected) && e !in edges
    ensures NetworkState(Linked(adj, e.u, e.v, e.weight, isDirected), vertexes + {e.u, e.v},
                         edges + (if isDirected then [e] else [e, Reverse(e)]), isDirected)
  {
    var r := Linked(adj, e.u, e.v, e.weight, isDirected);
    var added := if isDirected then [e] else [e, Reverse(e)];
    var edges' := edges + added;
    forall d | d in edges'
      ensures d.u in r && (d.v, d.weight) in r[d.u]
    {
      if d !in edges {
        assert d in added;
      }
    }
    if isDirected {
      DistinctAppend(edges, [e]);
    } else {
      AddingKeepsPairs(edges, e);
    }
  }

  /** Listing a new edge with its reverse keeps an undirected list closed under reversal, with only loops twice. */
  lemma AddingKeepsPairs<T(!new)>(edges: seq<WeightedEdge<T>>, e: WeightedEdge<T>)
    requires NonLoopsOnce(edges) && (forall d :: d in edges ==> Reverse(d) in edges) && e !in edges
    ensures NonLoopsOnce(edges + [e, Reverse(e)])
    ensures forall d :: d in edges + [e, Reverse(e)] ==> Reverse(d) in edges + [e, Reverse(e)]
  {
    var edges' := edges + [e, Reverse(e)];
    ReverseTwice(e);
    assert Reverse(e) !in edges || e.u == e.v;
    assert multiset(edges') == multiset(edges) + multiset{e, Reverse(e)};
    forall d | d in edges'
      ensures Reverse(d) in edges'
    {
      ReverseTwice(d);
    }
  }

  /** `removeEdge(u, v, w)`: the filter on the edge list, dropping `(u, v, w)` and, when undirected, `(v, u, w)`. */
  function EdgesWithoutWeighted<T(==,!new)>(edges: seq<WeightedEdge<T>>, look: WeightedEdge<T>, other: WeightedEdge<T>): seq<WeightedEdge<T>>
  {
    Filter(edges, (e: WeightedEdge<T>) => e != look && e != other)
  }

  /** Removing an edge, together with its reverse when undirected, keeps the network's state. */
  lemma RemovingKeepsState<T(!new)>(adj: WAdjacency<T>, vertexes: set<T>, edges: seq<WeightedEdge<T>>, isDirected: bool,
                              look: WeightedEdge<T>, other: WeightedEdge<T>)
    requires NetworkState(adj, vertexes, edges, isDirected)
    requires other == if isDirected then look else Reverse(look)
    ensures NetworkState(adj, vertexes, EdgesWithoutWeighted(edges, look, other), isDirected)
    ensures Elems(EdgesWithoutWeighted(edges, look, other)) == Elems(edges) - {look, other}
  {
    var keep := (e: WeightedEdge<T>) => e != look && e != other;
    var r := Filter(edges, keep);
    if isDirected {
      FilterDistinct(edges, keep);
    } else {
      forall d | d in r && d.u != d.v
        ensures multiset(r)[d] == 1
      {
        FilterCount(edges, keep, d);
      }
      forall d | d in r
        ensures Reverse(d) in r
      {
        ReverseTwice(d);
        ReverseTwice(look);
      }
    }
  }

  /** Removing a vertex keeps the network's state. */
  lemma RemovingVertexKeepsState<T(!new)>(adj: WAdjacency<T>, vertexes: set<T>, edges: seq<WeightedEdge<T>>, isDirected: bool, x: T)
    requires NetworkState(adj, vertexes, edges, isDirected)
    ensures NetworkState(WAdjacencyAvoiding(adj, x), vertexes - {x}, WEdgesAvoiding(edges, x), isDirected)
  {
    var keep := (e: WeightedEdge<T>) => e.u != x && e.v != x;
    var r := WEdgesAvoiding(edges, x);
    RemovalKeepsClosed(adj, vertexes, x);
    WRemovalPurges(adj, edges, x, edges, []);
    if isDirected {
      FilterDistinct(edges, keep);
    } else {
      forall d | d in r && d.u != d.v
        ensures multiset(r)[d] == 1
      {
        FilterCount(edges, keep, d);
      }
    }
  }

  /** The edge whose presence among the remembered ones stops `e` from being counted again. */
  function Partner<T(==,!new)>(e: WeightedEdge<T>, paired: bool): WeightedEdge<T>
  {
    if paired then Reverse(e) else e
  }

  /**
   * The edges `edgeCount()` and `edgeSum()` count, in list order: an edge
   * is counted (and remembered) unless its partner has been remembered
   * before; the partner is the reverse edge in an undirected network and
   * the edge itself in `edgeSum()` of a directed one.
   */
  function Kept<T(==,!new)>(edges: seq<WeightedEdge<T>>, paired: bool): (r: seq<WeightedEdge<T>>)
    ensures forall e :: e in r ==> e in edges
    decreases |edges|
  {
    if edges == [] then []
    else
      var init := Kept(edges[..|edges| - 1], paired);
      var e := edges[|edges| - 1];
      if Partner(e, paired) in init then init else init + [e]
  }

  /**
   * Every listed edge is counted or has its partner counted, and no
   * counted edge that is not a loop has its reverse counted as well: one
   * edge of every undirected pair.
   */
  lemma {:induction false} KeptCovers<T(!new)>(edges: seq<WeightedEdge<T>>)
    ensures forall e :: e in edges ==> e in Kept(edges, true) || Reverse(e) in Kept(edges, true)
    ensures forall e :: e in Kept(edges, true) && e.u != e.v ==> Reverse(e) !in Kept(edges, true)
    decreases |edges|
  {
    if edges != [] {
      var p := edges[..|edges| - 1];
      var e := edges[|edges| - 1];
      assert edges == p + [e];
      KeptCovers(p);
      ReverseTwice(e);
      forall d | d in Kept(p, true)
        ensures Reverse(d) == e ==> d == Reverse(e)
      {
        ReverseTwice(d);
      }
    }
  }

  /** With every edge its own partner, the count keeps one copy of each edge, and so all of a duplicate-free list. */
  lemma {:induction false} KeptEverything<T(!new)>(edges: seq<WeightedEdge<T>>)
    requires Distinct(edges)
    ensures Kept(edges, false) == edges
    decreases |edges|
  {
    if edges != [] {
      var p := edges[..|edges| - 1];
      var e := edges[|edges| - 1];
      assert edges == p + [e];
      assert Distinct(p) && e !in p;
      KeptEverything(p);
    }
  }

  /** The loops among a set of edges. */
  function Loops<T(==,!new)>(es: set<WeightedEdge<T>>): set<WeightedEdge<T>>
  {
    set e | e in es && e.u == e.v
  }

  /** The edges of a set, other than loops, whose reverse is not in the set. */
  function Alone<T(==,!new)>(es: set<WeightedEdge<T>>): set<WeightedEdge<T>>
  {
    set e | e in es && e.u != e.v && Reverse(e) !in es
  }

  /**
   * When only loops are listed twice, twice the count is the number of
   * edges listed, plus the loops (counted once though they are their own
   * reverse), plus the edges whose reverse is missing.
   */
  lemma {:induction false} KeptCount<T(!new)>(edges: seq<WeightedEdge<T>>)
    requires NonLoopsOnce(edges)
    ensures 2 * |Kept(edges, true)| == |Elems(edges)| + |Loops(Elems(edges))| + |Alone(Elems(edges))|
    decreases |edges|
  {
    if edges != [] {
      var p := edges[..|edges| - 1];
      var e := edges[|edges| - 1];
      assert edges == p + [e];
      assert multiset(edges) == multiset(p) + multiset{e};
      assert NonLoopsOnce(p) by {
        forall d | d in p && d.u != d.v
          ensures multiset(p)[d] == 1
        {
          assert d in edges;
        }
      }
      KeptCount(p);
      KeptCovers(p);
      ReverseTwice(e);
      var E := Elems(p);
      assert Elems(edges) == E + {e};
      if e.u == e.v {
        LoopJoins(E, e);
      } else {
        assert e !in E;
        OtherJoins(E, e);
      }
    }
  }

  /** A loop joining a set of edges is one more loop if it is new, and leaves the edges without reverse as they were. */
  lemma LoopJoins<T(!new)>(E: set<WeightedEdge<T>>, e: WeightedEdge<T>)
    requires e.u == e.v
    ensures Alone(E + {e}) == Alone(E)
    ensures |Loops(E + {e})| == if e in E then |Loops(E)| else |Loops(E)| + 1
  {
    if e !in E {
      assert Loops(E + {e}) == Loops(E) + {e};
    } else {
      assert E + {e} == E;
    }
  }

  /**
   * A new edge that is not a loop joining a set of edges adds no loop; it
   * gives its reverse company if the reverse is there, and is alone
   * otherwise.
   */
  lemma OtherJoins<T(!new)>(E: set<WeightedEdge<T>>, e: WeightedEdge<T>)
    requires e.u != e.v && e !in E
    ensures Loops(E + {e}) == Loops(E)
    ensures |Alone(E + {e})| == if Reverse(e) in E then |Alone(E)| - 1 else |Alone(E)| + 1
  {
    var r := Reverse(e);
    ReverseTwice(e);
    forall d | d in E
      ensures Reverse(d) == e <==> d == r
    {
      ReverseTwice(d);
    }
    if r in E {
      assert r in Alone(E);
      assert Alone(E + {e}) == Alone(E) - {r};
    } else {
      assert Alone(E + {e}) == Alone(E) + {e};
    }
  }

  /** In an undirected network no edge lacks its reverse. */
  lemma NothingAlone<T(!new)>(edges: seq<WeightedEdge<T>>)
    requires forall e :: e in edges ==> Reverse(e) in edges
    ensures Alone(Elems(edges)) == {}
  {
  }

  /** The sum of the weights of a list. */
  function WeightSum<T(==,!new)>(s: seq<WeightedEdge<T>>): int
  {
    if s == [] then 0 else WeightSum(s[..|s| - 1]) + s[|s| - 1].weight
  }

  /**
   * The loop of `edgeCount()` (undirected, `paired`) and of `edgeSum()`:
   * walking the list with the set of remembered edges, an edge whose
   * partner is not remembered is counted, its weight added, and it is
   * remembered.
   */
  method Tally<T(==,!new)>(edges: seq<WeightedEdge<T>>, paired: bool) returns (count: int, total: int)
    ensures count == |Kept(edges, paired)| && total == WeightSum(Kept(edges, paired))
  {
    var seen: set<WeightedEdge<T>> := {};
    count, total := 0, 0;
    var i := 0;
    while i < |edges|
      invariant 0 <= i <= |edges|
      invariant seen == Elems(Kept(edges[..i], paired))
      invariant count == |Kept(edges[..i], paired)| && total == WeightSum(Kept(edges[..i], paired))
    {
      var e := edges[i];
      assert edges[..i + 1][..i] == edges[..i];
      var other := if paired then WeightedEdge(e.v, e.u, e.weight) else e;
      if other !in seen {
        count := count + 1;
        total := total + e.weight;
        seen := seen + {e};
      }
      i := i + 1;
    }
    assert edges[..i] == edges;
  }

  /** Whether `s` lists the weights in the comparator's order. */
  ghost predicate Ascending<T(!new)>(cmp: Comparator<T>, s: seq<WeightedEdge<T>>)
  {
    forall i :: 0 <= i < |s| - 1 ==> cmp(s[i], s[i + 1]) <= 0
  }

  function Sign(n: int): int
  {
    if n < 0 then -1 else if n > 0 then 1 else 0
  }

  /** The part of `Comparator`'s contract the sort relies on: swapping the arguments flips the sign. */
  ghost predicate Consistent<T(!new)>(cmp: Comparator<T>)
  {
    forall a, b :: Sign(cmp(a, b)) == -Sign(cmp(b, a))
  }

  /** One step of a stable insertion sort: `x` goes after every element that does not sort after it. */
  function Insert<T(==,!new)>(cmp: Comparator<T>, x: WeightedEdge<T>, s: seq<WeightedEdge<T>>): (r: seq<WeightedEdge<T>>)
    ensures multiset(r) == multiset(s) + multiset{x}
    ensures r != [] && (r[0] == x || (s != [] && r[0] == s[0]))
    decreases |s|
  {
    if s == [] || cmp(x, s[0]) < 0 then [x] + s
    else
      assert s == [s[0]] + s[1..];
      [s[0]] + Insert(cmp, x, s[1..])
  }

  /** Inserting into an ascending list under a consistent comparator keeps it ascending. */
  lemma {:induction false} InsertAscending<T(!new)>(cmp: Comparator<T>, x: WeightedEdge<T>, s: seq<WeightedEdge<T>>)
    ensures Consistent(cmp) && Ascending(cmp, s) ==> Ascending(cmp, Insert(cmp, x, s))
    decreases |s|
  {
    if Consistent(cmp) && Ascending(cmp, s) && s != [] && cmp(x, s[0]) >= 0 {
      InsertAscending(cmp, x, s[1..]);
      assert Sign(cmp(s[0], x)) == -Sign(cmp(x, s[0]));
    }
  }

  /**
   * `Collections.sort` of the copied edge list: a stable sort by the
   * comparator.  The result is a permutation, ascending whenever the
   * comparator is consistent.
   */
  function Sort<T(==,!new)>(cmp: Comparator<T>, s: seq<WeightedEdge<T>>): (r: seq<WeightedEdge<T>>)
    ensures multiset(r) == multiset(s)
    ensures Consistent(cmp) ==> Ascending(cmp, r)
    decreases |s|
  {
    if s == [] then []
    else
      assert s == s[..|s| - 1] + [s[|s| - 1]];
      var sorted := Sort(cmp, s[..|s| - 1]);
      InsertAscending(cmp, s[|s| - 1], sorted);
      Insert(cmp, s[|s| - 1], sorted)
  }

  /** The default comparator keeps the contract, and a list ascending by it has ascending weights. */
  lemma ByWeightSorts<T(!new)>(s: seq<WeightedEdge<T>>)
    ensures Consistent(ByWeight<T>())
    ensures Ascending(ByWeight<T>(), s) <==> forall i :: 0 <= i < |s| - 1 ==> s[i].weight <= s[i + 1].weight
  {
  }

  /** The unweighted shape of the accepted edges: each joins both ends' entries, as in a forest. */
  function ForestOf<T(==,!new)>(chosen: seq<WeightedEdge<T>>): Adjacency<T>
  {
    if chosen == [] then map[]
    else
      var e := chosen[|chosen| - 1];
      AddPair(ForestOf(chosen[..|chosen| - 1]), e.u, e.v)
  }

  /** The ends of the accepted edges. */
  function Ends<T>(chosen: seq<WeightedEdge<T>>): set<T>
  {
    (set e | e in chosen :: e.u) + (set e | e in chosen :: e.v)
  }

  /**
   * The adjacency of the undirected network the accepted edges are added
   * to, one `addEdge` after the other: an entry for every end, holding the
   * other end, with the weight, of every accepted edge at that end.
   */
  function TreeAdjacency<T(==,!new)>(chosen: seq<WeightedEdge<T>>): (r: WAdjacency<T>)
    ensures r.Keys == Ends(chosen)
  {
    if chosen == [] then map[]
    else
      var init, e := chosen[..|chosen| - 1], chosen[|chosen| - 1];
      EndsGrow(chosen);
      Linked(TreeAdjacency(init), e.u, e.v, e.weight, false)
  }

  /** The ends of a nonempty list are those of all but its last edge, and the last edge's. */
  lemma EndsGrow<T>(chosen: seq<WeightedEdge<T>>)
    requires chosen != []
    ensures var e := chosen[|chosen| - 1];
      Ends(chosen) == Ends(chosen[..|chosen| - 1]) + {e.u, e.v}
  {
    assert chosen == chosen[..|chosen| - 1] + [chosen[|chosen| - 1]];
  }

  /** Accepting one more edge adds its ends and links them. */
  lemma TreeGrows<T(!new)>(chosen: seq<WeightedEdge<T>>, e: WeightedEdge<T>)
    ensures Ends(chosen + [e]) == Ends(chosen) + {e.u, e.v}
    ensures TreeAdjacency(chosen + [e]) == Linked(TreeAdjacency(chosen), e.u, e.v, e.weight, false)
  {
    assert (chosen + [e])[..|chosen|] == chosen;
  }

  /** The entry of a vertex holds exactly the other ends, with their weights, of the accepted edges at it. */
  lemma {:induction false} TreeAdjacencyHas<T(!new)>(chosen: seq<WeightedEdge<T>>, a: T, h: Hop<T>)
    ensures var r := TreeAdjacency(chosen);
      a in r && h in r[a] <==>
      exists e :: e in chosen && ((a == e.u && h == (e.v, e.weight)) || (a == e.v && h == (e.u, e.weight)))
  {
    if chosen != [] {
      var init, e := chosen[..|chosen| - 1], chosen[|chosen| - 1];
      assert chosen == init + [e];
      TreeAdjacencyHas(init, a, h);
    }
  }

  /** Each accepted edge joins two different vertices that the edges accepted before it did not connect. */
  ghost predicate Acyclic<T(!new)>(chosen: seq<WeightedEdge<T>>)
  {
    forall k :: 0 <= k < |chosen| ==>
      chosen[k].u != chosen[k].v && !Reachable(ForestOf(chosen[..k]), chosen[k].u, chosen[k].v)
  }

  /** The edge list of an undirected network built from `chosen` by `addEdge`: each edge followed by its reverse. */
  function Doubled<T(==,!new)>(chosen: seq<WeightedEdge<T>>): seq<WeightedEdge<T>>
  {
    if chosen == [] then []
    else
      var e := chosen[|chosen| - 1];
      Doubled(chosen[..|chosen| - 1]) + [e, Reverse(e)]
  }

  lemma {:induction false} DoubledRuns<T(!new)>(chosen: seq<WeightedEdge<T>>, d: WeightedEdge<T>)
    requires d in Doubled(chosen)
    ensures d.v in Succ(ForestOf(chosen), d.u)
    decreases |chosen|
  {
    var init := chosen[..|chosen| - 1];
    var e := chosen[|chosen| - 1];
    if d in Doubled(init) {
      DoubledRuns(init, d);
    }
  }

  /** Kruskal's loop keeps: the accepted edges form a forest tracked by the union-find structure, listed twice in the tree. */
  ghost predicate Kruskal<T(!new)>(chosen: seq<WeightedEdge<T>>, s: Sets<T>, treeEdges: seq<WeightedEdge<T>>)
  {
    Tracked(ForestOf(chosen), s) && Acyclic(chosen) && treeEdges == Doubled(chosen)
  }

  /** An edge whose ends the forest does not connect is not in the tree built from it. */
  lemma NewToTree<T(!new)>(chosen: seq<WeightedEdge<T>>, e: WeightedEdge<T>)
    requires !Reachable(ForestOf(chosen), e.u, e.v)
    ensures e !in Doubled(chosen)
  {
    if e in Doubled(chosen) {
      DoubledRuns(chosen, e);
      ReachableSelf(ForestOf(chosen), e.u);
      ReachableStep(ForestOf(chosen), e.u, e.u, e.v);
    }
  }

  /** An edge between two vertices the forest does not connect keeps it a forest. */
  lemma AcyclicStep<T(!new)>(chosen: seq<WeightedEdge<T>>, e: WeightedEdge<T>)
    requires Acyclic(chosen) && e.u != e.v && !Reachable(ForestOf(chosen), e.u, e.v)
    ensures Acyclic(chosen + [e])
  {
    var c := chosen + [e];
    assert c[..|chosen|] == chosen;
    forall k | 0 <= k < |c|
      ensures c[k].u != c[k].v && !Reachable(ForestOf(c[..k]), c[k].u, c[k].v)
    {
      if k < |chosen| {
        assert c[..k] == chosen[..k];
      }
    }
  }

  /**
   * An edge the corrected union accepts extends the forest: its ends were
   * not connected, so it is not in the tree yet, and the new state is
   * tracked by the union's result.
   */
  lemma KruskalStep<T(!new)>(chosen: seq<WeightedEdge<T>>, s: Sets<T>, treeEdges: seq<WeightedEdge<T>>, e: WeightedEdge<T>)
    requires Kruskal(chosen, s, treeEdges) && UnionOfRoots(s, e.u, e.v).0
    ensures e !in treeEdges
    ensures Kruskal(chosen + [e], UnionOfRoots(s, e.u, e.v).1, treeEdges + [e, Reverse(e)])
  {
    ConnectedExcluded(ForestOf(chosen), s, e.u, e.v);
    NewToTree(chosen, e);
    UnionKeepsTracked(ForestOf(chosen), s, e.u, e.v);
    AcyclicStep(chosen, e);
    assert (chosen + [e])[..|chosen|] == chosen;
  }

  /** The union-find structure joins only vertices the adjacency connects. */
  ghost predicate OnlyConnected<T(!new)>(adj: Adjacency<T>, s: Sets<T>)
  {
    forall a, b :: SameSet(s, a, b) ==> Reachable(adj, a, b)
  }

  /** A freshly registered element is its own root. */
  lemma FreshIsAlone<T(!new)>(s: Sets<T>, u: T, v: T, x: T)
    requires WellFormed(s) && RankOrdered(s) && x !in s.parent && (x == u || x == v)
    ensures var t := Registered(Registered(s, u), v);
      WellFormed(t) && RankOrdered(t) && x in t.parent && Representative(t, x) == x
  {
    RegisteredOrdered(s, u);
    RegisteredOrdered(Registered(s, u), v);
    var t := Registered(Registered(s, u), v);
    assert t.parent[x] == x;
  }

  /** Registering two elements joins nothing: a fresh element is alone in its set. */
  lemma RegisteringKeepsConnected<T(!new)>(adj: Adjacency<T>, s: Sets<T>, u: T, v: T)
    requires WellFormed(s) && RankOrdered(s) && OnlyConnected(adj, s)
    ensures OnlyConnected(adj, Registered(Registered(s, u), v))
  {
    var t := Registered(Registered(s, u), v);
    RegisteredOrdered(s, u);
    RegisteredOrdered(Registered(s, u), v);
    RegisteredWellFormed(s, u);
    RegisteredWellFormed(Registered(s, u), v);
    forall a, b | SameSet(t, a, b)
      ensures Reachable(adj, a, b)
    {
      if a in s.parent && b in s.parent {
        RegisteredKeepsRepresentative(s, u, a);
        RegisteredKeepsRepresentative(Registered(s, u), v, a);
        RegisteredKeepsRepresentative(s, u, b);
        RegisteredKeepsRepresentative(Registered(s, u), v, b);
        assert SameSet(s, a, b);
      } else if a in s.parent {
        FreshIsAlone(s, u, v, b);
        RegisteredKeepsRepresentative(s, u, a);
        RegisteredKeepsRepresentative(Registered(s, u), v, a);
        assert false;
      } else if b in s.parent {
        FreshIsAlone(s, u, v, a);
        RegisteredKeepsRepresentative(s, u, b);
        RegisteredKeepsRepresentative(Registered(s, u), v, b);
        assert false;
      } else {
        FreshIsAlone(s, u, v, a);
        FreshIsAlone(s, u, v, b);
        ReachableSelf(adj, a);
      }
    }
  }

  /** A walk of `adj` is still a walk once an edge is added. */
  lemma ReachableGrows<T(!new)>(adj: Adjacency<T>, u: T, v: T, a: T, b: T)
    requires Reachable(adj, a, b)
    ensures Reachable(AddPair(adj, u, v), a, b)
  {
    var p :| PathBetween(adj, p, a, b);
    assert PathBetween(AddPair(adj, u, v), p, a, b);
  }

  /**
   * A refused union means the adjacency already connects the two ends, and
   * the structure still joins only connected vertices.
   */
  lemma RefusedConnected<T(!new)>(adj: Adjacency<T>, s: Sets<T>, u: T, v: T)
    requires WellFormed(s) && RankOrdered(s) && OnlyConnected(adj, s) && !UnionOfRoots(s, u, v).0
    ensures Reachable(adj, u, v) && OnlyConnected(adj, UnionOfRoots(s, u, v).1)
  {
    UnionOfRootsLinks(s, u, v);
    RegisteringKeepsConnected(adj, s, u, v);
    var t := Registered(Registered(s, u), v);
    assert SameSet(t, u, v);
  }

  /** An accepted union joins only what the new edge and the old adjacency connect. */
  lemma AcceptedConnected<T(!new)>(adj: Adjacency<T>, s: Sets<T>, u: T, v: T)
    requires WellFormed(s) && RankOrdered(s) && OnlyConnected(adj, s) && UnionOfRoots(s, u, v).0
    ensures OnlyConnected(AddPair(adj, u, v), UnionOfRoots(s, u, v).1)
  {
    var t := Registered(Registered(s, u), v);
    var w := UnionOfRoots(s, u, v).1;
    var g := AddPair(adj, u, v);
    UnionOfRootsLinks(s, u, v);
    RegisteringKeepsConnected(adj, s, u, v);
    forall a, b | SameSet(w, a, b)
      ensures Reachable(g, a, b)
    {
      UnionOfRootsRepresentatives(s, u, v, a, b);
      var ra, rb, ru, rv := Representative(t, a), Representative(t, b), Representative(t, u), Representative(t, v);
      if ra == rb {
        assert SameSet(t, a, b);
        ReachableGrows(adj, u, v, a, b);
      } else if ra == ru && rb == rv {
        assert SameSet(t, a, u) && SameSet(t, v, b);
        ReachableGrows(adj, u, v, a, u);
        ReachableGrows(adj, u, v, v, b);
        ReachableStep(g, a, u, v);
        ReachableTrans(g, a, v, b);
      } else {
        assert SameSet(t, a, v) && SameSet(t, u, b);
        ReachableGrows(adj, u, v, a, v);
        ReachableGrows(adj, u, v, u, b);
        ReachableStep(g, a, v, u);
        ReachableTrans(g, a, u, b);
      }
    }
  }

  /**
   * Kruskal's rule on graphs alone, without a union-find structure: the
   * edges are scanned in order, and an edge is kept exactly when the edges
   * kept before it do not connect its ends.
   */
  ghost function Greedy<T(!new)>(s: seq<WeightedEdge<T>>): seq<WeightedEdge<T>>
  {
    if s == [] then []
    else
      var c := Greedy(s[..|s| - 1]);
      var e := s[|s| - 1];
      if Reachable(ForestOf(c), e.u, e.v) then c else c + [e]
  }

  /** `idx` lists increasing positions of `b` that hold the elements of `a`, in order. */
  predicate PicksOut<T(==)>(a: seq<T>, b: seq<T>, idx: seq<nat>)
  {
    |idx| == |a| &&
    (forall k :: 0 <= k < |idx| ==> idx[k] < |b| && a[k] == b[idx[k]]) &&
    (forall k, l :: 0 <= k < l < |idx| ==> idx[k] < idx[l])
  }

  /** `a` is `b` with some elements left out and the rest in their order. */
  ghost predicate Subsequence<T(!new)>(a: seq<T>, b: seq<T>)
  {
    exists idx :: PicksOut(a, b, idx)
  }

  /** Positions picked out of a list still pick out the same elements once the list grows. */
  lemma PicksOutLonger<T>(a: seq<T>, b: seq<T>, x: T, idx: seq<nat>)
    requires PicksOut(a, b, idx)
    ensures PicksOut(a, b + [x], idx) && PicksOut(a + [x], b + [x], idx + [|b|])
  {
  }

  /** The kept edges are a subsequence of the scanned ones. */
  lemma {:induction false} GreedySubsequence<T(!new)>(s: seq<WeightedEdge<T>>)
    ensures Subsequence(Greedy(s), s)
    decreases |s|
  {
    if s == [] {
      assert PicksOut(Greedy(s), s, []);
    } else {
      var init := s[..|s| - 1];
      var e := s[|s| - 1];
      GreedySubsequence(init);
      var c := Greedy(init);
      var idx :| PicksOut(c, init, idx);
      PicksOutLonger(c, init, e, idx);
      assert init + [e] == s;
    }
  }

  /** The kept edges form a forest: no kept edge is a loop or closes a cycle. */
  lemma {:induction false} GreedyAcyclic<T(!new)>(s: seq<WeightedEdge<T>>)
    ensures Acyclic(Greedy(s))
    decreases |s|
  {
    if s != [] {
      var init := s[..|s| - 1];
      var e := s[|s| - 1];
      GreedyAcyclic(init);
      ReachableSelf(ForestOf(Greedy(init)), e.u);
      if !Reachable(ForestOf(Greedy(init)), e.u, e.v) {
        AcyclicStep(Greedy(init), e);
      }
    }
  }

  /** The graph built from a list of edges runs every edge both ways. */
  lemma {:induction false} ForestOfSymmetric<T(!new)>(s: seq<WeightedEdge<T>>)
    ensures Symmetric(ForestOf(s))
    decreases |s|
  {
    if s != [] {
      ForestOfSymmetric(s[..|s| - 1]);
    }
  }

  /** Every listed edge is an edge of the graph built from the list. */
  lemma {:induction false} ForestOfHas<T(!new)>(s: seq<WeightedEdge<T>>, k: nat)
    requires k < |s|
    ensures s[k].v in Succ(ForestOf(s), s[k].u)
    decreases |s|
  {
    if k < |s| - 1 {
      ForestOfHas(s[..|s| - 1], k);
    }
  }

  /** Each edge of the kept forest is an edge of the graph of all scanned edges. */
  lemma {:induction false} GreedyWithin<T(!new)>(s: seq<WeightedEdge<T>>, x: T)
    ensures Succ(ForestOf(Greedy(s)), x) <= Succ(ForestOf(s), x)
    decreases |s|
  {
    if s != [] {
      GreedyWithin(s[..|s| - 1], x);
    }
  }

  /** Each edge of the graph of all scanned edges joins two vertices the kept forest connects. */
  lemma {:induction false} GreedyStepsReach<T(!new)>(s: seq<WeightedEdge<T>>)
    ensures forall x, y :: y in Succ(ForestOf(s), x) ==> Reachable(ForestOf(Greedy(s)), x, y)
    decreases |s|
  {
    if s != [] {
      var init := s[..|s| - 1];
      var e := s[|s| - 1];
      var c := Greedy(init);
      var f := ForestOf(c);
      GreedyStepsReach(init);
      forall x, y | y in Succ(ForestOf(s), x)
        ensures Reachable(ForestOf(Greedy(s)), x, y)
      {
        if Reachable(f, e.u, e.v) {
          if y in Succ(ForestOf(init), x) {
          } else if x == e.u {
          } else {
            ForestOfSymmetric(c);
            ReachableBack(f, e.u, e.v);
          }
        } else {
          assert (c + [e])[..|c|] == c;
          var g := AddPair(f, e.u, e.v);
          assert ForestOf(Greedy(s)) == g;
          if y in Succ(ForestOf(init), x) {
            ReachableGrows(f, e.u, e.v, x, y);
          } else {
            ReachableSelf(g, x);
            ReachableStep(g, x, x, y);
          }
        }
      }
    }
  }

  /** Reachability carries over to `b` when every edge of `a` is a walk in `b`. */
  lemma {:induction false} ReachThrough<T(!new)>(a: Adjacency<T>, b: Adjacency<T>, p: seq<T>, x: T, y: T)
    requires forall m, n :: n in Succ(a, m) ==> Reachable(b, m, n)
    requires PathBetween(a, p, x, y)
    ensures Reachable(b, x, y)
    decreases |p|
  {
    if |p| == 1 {
      ReachableSelf(b, x);
    } else {
      var q := p[..|p| - 1];
      var z := q[|q| - 1];
      assert PathBetween(a, q, x, z);
      ReachThrough(a, b, q, x, z);
      assert y in Succ(a, z);
      ReachableTrans(b, x, z, y);
    }
  }

  /**
   * The kept forest spans the scanned edges: it connects the ends of every
   * scanned edge, and it connects two vertices exactly when the scanned
   * edges do.
   */
  lemma GreedySpans<T(!new)>(s: seq<WeightedEdge<T>>)
    ensures forall k :: 0 <= k < |s| ==> Reachable(ForestOf(Greedy(s)), s[k].u, s[k].v)
    ensures forall x, y :: Reachable(ForestOf(Greedy(s)), x, y) <==> Reachable(ForestOf(s), x, y)
  {
    GreedyStepsReach(s);
    forall k | 0 <= k < |s|
      ensures Reachable(ForestOf(Greedy(s)), s[k].u, s[k].v)
    {
      ForestOfHas(s, k);
    }
    forall x, y
      ensures Reachable(ForestOf(Greedy(s)), x, y) <==> Reachable(ForestOf(s), x, y)
    {
      if Reachable(ForestOf(s), x, y) {
        var p :| PathBetween(ForestOf(s), p, x, y);
        ReachThrough(ForestOf(s), ForestOf(Greedy(s)), p, x, y);
      }
      if Reachable(ForestOf(Greedy(s)), x, y) {
        forall m, n | n in Succ(ForestOf(Greedy(s)), m)
          ensures Reachable(ForestOf(s), m, n)
        {
          GreedyWithin(s, m);
          ReachableSelf(ForestOf(s), m);
          ReachableStep(ForestOf(s), m, m, n);
        }
        var p :| PathBetween(ForestOf(Greedy(s)), p, x, y);
        ReachThrough(ForestOf(Greedy(s)), ForestOf(s), p, x, y);
      }
    }
  }

  /** What is drawn from a permutation of a list is drawn from the list. */
  lemma SortedMembers<T(!new)>(edges: seq<WeightedEdge<T>>, sorted: seq<WeightedEdge<T>>, chosen: seq<WeightedEdge<T>>)
    requires multiset(sorted) == multiset(edges) && forall e :: e in chosen ==> e in sorted
    ensures forall e :: e in chosen ==> e in edges
  {
    forall e | e in chosen
      ensures e in edges
    {
      assert e in multiset(sorted);
    }
  }

  /** Kruskal's rule run over a whole permutation of the edges connects the ends of every edge. */
  lemma SortedSpans<T(!new)>(edges: seq<WeightedEdge<T>>, sorted: seq<WeightedEdge<T>>)
    requires multiset(sorted) == multiset(edges)
    ensures forall e :: e in edges ==> Reachable(ForestOf(Greedy(sorted)), e.u, e.v)
  {
    GreedySpans(sorted);
    forall e | e in edges
      ensures Reachable(ForestOf(Greedy(sorted)), e.u, e.v)
    {
      assert e in multiset(sorted);
      var k :| 0 <= k < |sorted| && sorted[k] == e;
    }
  }

  /**
   * One step of the scan: the corrected union accepts the next edge exactly
   * when Kruskal's rule keeps it, and the structure still joins only what
   * the kept edges connect.
   */
  lemma GreedyStep<T(!new)>(prefix: seq<WeightedEdge<T>>, e: WeightedEdge<T>, s: Sets<T>)
    requires Tracked(ForestOf(Greedy(prefix)), s) && OnlyConnected(ForestOf(Greedy(prefix)), s)
    ensures var (ok, t) := UnionOfRoots(s, e.u, e.v);
      Greedy(prefix + [e]) == (if ok then Greedy(prefix) + [e] else Greedy(prefix)) &&
      OnlyConnected(ForestOf(Greedy(prefix + [e])), t)
  {
    var c := Greedy(prefix);
    assert (prefix + [e])[..|prefix|] == prefix;
    if UnionOfRoots(s, e.u, e.v).0 {
      ConnectedExcluded(ForestOf(c), s, e.u, e.v);
      AcceptedConnected(ForestOf(c), s, e.u, e.v);
      assert (c + [e])[..|c|] == c;
    } else {
      RefusedConnected(ForestOf(c), s, e.u, e.v);
    }
  }

  /**
   * What the scan keeps after `i` edges: the accepted edges are those
   * Kruskal's rule keeps from `sorted[..i]`, drawn from the list, tracked
   * by the union-find structure, which joins only what they connect, and
   * listed twice in the tree.
   */
  ghost predicate ScanState<T(!new)>(sorted: seq<WeightedEdge<T>>, i: nat, chosen: seq<WeightedEdge<T>>,
                                      s: Sets<T>, treeEdges: seq<WeightedEdge<T>>)
  {
    i <= |sorted| && Kruskal(chosen, s, treeEdges) && chosen == Greedy(sorted[..i]) &&
    OnlyConnected(ForestOf(chosen), s) && forall e :: e in chosen ==> e in sorted
  }

  /** Before the first edge nothing is accepted and a fresh structure joins nothing. */
  lemma ScanStarts<T(!new)>(sorted: seq<WeightedEdge<T>>, s: Sets<T>)
    requires s.parent == map[] && s.rank == map[]
    ensures ScanState(sorted, 0, [], s, [])
  {
    assert Tracked(map[], s);
    assert sorted[..0] == [];
  }

  /** One turn of the scan's loop keeps its state, with the union's answer deciding. */
  lemma ScanStep<T(!new)>(sorted: seq<WeightedEdge<T>>, i: nat, chosen: seq<WeightedEdge<T>>,
                          s: Sets<T>, treeEdges: seq<WeightedEdge<T>>)
    requires ScanState(sorted, i, chosen, s, treeEdges) && i < |sorted|
    ensures var e := sorted[i];
      var (ok, t) := UnionOfRoots(s, e.u, e.v);
      (ok ==> e !in treeEdges && ScanState(sorted, i + 1, chosen + [e], t, treeEdges + [e, Reverse(e)])) &&
      (!ok ==> ScanState(sorted, i + 1, chosen, t, treeEdges))
  {
    var e := sorted[i];
    GreedyPrefix(sorted, i, s);
    if UnionOfRoots(s, e.u, e.v).0 {
      KruskalStep(chosen, s, treeEdges, e);
    } else {
      RefusalKeepsTracked(ForestOf(chosen), s, e.u, e.v);
    }
  }

  /** `GreedyStep` on the prefix of `sorted` before its `i`-th edge. */
  lemma GreedyPrefix<T(!new)>(sorted: seq<WeightedEdge<T>>, i: nat, s: Sets<T>)
    requires i < |sorted|
    requires Tracked(ForestOf(Greedy(sorted[..i])), s) && OnlyConnected(ForestOf(Greedy(sorted[..i])), s)
    ensures var e := sorted[i];
      var (ok, t) := UnionOfRoots(s, e.u, e.v);
      Greedy(sorted[..i + 1]) == (if ok then Greedy(sorted[..i]) + [e] else Greedy(sorted[..i])) &&
      OnlyConnected(ForestOf(Greedy(sorted[..i + 1])), t)
  {
    assert sorted[..i + 1] == sorted[..i] + [sorted[i]];
    GreedyStep(sorted[..i], sorted[i], s);
  }

  /**
   * The scan's state over the objects it updates: both are valid, the
   * accepted edges and the structure keep `ScanState`, and the tree holds
   * exactly the ends and the links of the accepted edges.
   */
  ghost predicate Building<T(!new)>(sorted: seq<WeightedEdge<T>>, i: nat, chosen: seq<WeightedEdge<T>>,
                                    tree: Network<T>, dsu: DisjointSetUnion<T>)
    reads tree, tree.graph, dsu
  {
    tree.Valid() && dsu.Valid() && ScanState(sorted, i, chosen, dsu.State(), tree.graph.edges) &&
    tree.graph.vertexes == Ends(chosen) && tree.graph.adj == TreeAdjacency(chosen)
  }

  /** An empty tree and a fresh structure start the scan. */
  lemma BuildingStarts<T(!new)>(sorted: seq<WeightedEdge<T>>, tree: Network<T>, dsu: DisjointSetUnion<T>)
    requires tree.Valid() && tree.graph.edges == [] && tree.graph.vertexes == {} && tree.graph.adj == map[]
    requires dsu.Valid() && dsu.parent == map[] && dsu.rank == map[]
    ensures Building(sorted, 0, [], tree, dsu)
  {
    ScanStarts(sorted, dsu.State());
  }

  /**
   * The body of the loop of `spanningTree()`: the union-find structure is
   * asked to join the ends of the `i`-th sorted edge, and when it does the
   * edge is added to the tree.
   */
  method Take<T(==,!new)>(sorted: seq<WeightedEdge<T>>, i: nat, tree: Network<T>, dsu: DisjointSetUnion<T>,
                          ghost chosen: seq<WeightedEdge<T>>)
    returns (ok: bool, ghost chosen': seq<WeightedEdge<T>>)
    requires !tree.isDirected && i < |sorted| && Building(sorted, i, chosen, tree, dsu)
    modifies tree.graph, dsu
    ensures Building(sorted, i + 1, chosen', tree, dsu)
    ensures chosen' == if ok then chosen + [sorted[i]] else chosen
  {
    var e := sorted[i];
    ScanStep(sorted, i, chosen, dsu.State(), tree.graph.edges);
    ok := dsu.UnionByRoot(e.u, e.v);
    chosen' := chosen;
    if ok {
      tree.AddEdgeBetween(e.u, e.v, e.weight);
      chosen' := chosen + [e];
      TreeGrows(chosen, e);
    }
  }

  /**
   * The loop of `spanningTree()` over the sorted edges, while fewer than
   * `limit` (`V - 1`) were accepted: an edge whose ends the union-find
   * structure joins is added to the tree.  The accepted edges are exactly
   * those Kruskal's rule keeps from the scanned prefix, and the scan stops
   * at the end of the list or once `limit` edges were accepted.
   */
  method Scan<T(==,!new)>(sorted: seq<WeightedEdge<T>>, limit: int, tree: Network<T>, dsu: DisjointSetUnion<T>)
    returns (ghost chosen: seq<WeightedEdge<T>>, ghost scanned: nat)
    requires tree.Valid() && !tree.isDirected && tree.graph.edges == []
    requires tree.graph.vertexes == {} && tree.graph.adj == map[]
    requires dsu.Valid() && dsu.parent == map[] && dsu.rank == map[]
    modifies tree.graph, dsu
    ensures tree.Valid() && dsu.Valid() && Kruskal(chosen, dsu.State(), tree.graph.edges)
    ensures forall e :: e in chosen ==> e in sorted
    ensures |chosen| <= limit || chosen == []
    ensures scanned <= |sorted| && chosen == Greedy(sorted[..scanned])
    ensures scanned == |sorted| || |chosen| >= limit
    ensures tree.graph.vertexes == Ends(chosen) && tree.graph.adj == TreeAdjacency(chosen)
  {
    chosen := [];
    BuildingStarts(sorted, tree, dsu);
    var i, count := 0, 0;
    while i < |sorted| && count < limit
      invariant Building(sorted, i, chosen, tree, dsu)
      invariant count == |chosen| && (count <= limit || count == 0)
    {
      var ok;
      ok, chosen := Take(sorted, i, tree, dsu, chosen);
      if ok {
        count := count + 1;
      }
      i := i + 1;
    }
    scanned := i;
  }

  /**
   * A network: the shared state of `AbstractWeightedGraph`, whose vertex
   * operations and `shortestPath` it inherits, whether its edges are
   * directed, and the comparator its edges are sorted by.
   */
  class Network<T(==,!new)> {
    const graph: AbstractWeightedGraph<T>
    const isDirected: bool
    var order: Comparator<T>

    ghost predicate Valid()
      reads this, graph
    {
      NetworkState(graph.adj, graph.vertexes, graph.edges, isDirected)
    }

    /** `Network(isDirected)`: no vertices, no edges; every edge compares by ascending weight. */
    constructor (isDirected: bool)
      ensures Valid() && fresh(graph) && this.isDirected == isDirected && order == ByWeight()
      ensures graph.adj == map[] && graph.vertexes == {} && graph.edges == []
    {
      graph := new AbstractWeightedGraph();
      this.isDirected := isDirected;
      order := ByWeight();
    }

    /** `addVertex` of the shared graph keeps the network's state. */
    method AddVertex(x: T)
      requires Valid()
      modifies graph
      ensures Valid()
      ensures graph.vertexes == old(graph.vertexes) + {x}
      ensures graph.adj == old(graph.adj) && graph.edges == old(graph.edges)
    {
      graph.AddVertex(x);
    }

    /** `removeVertex` of the shared graph keeps the network's state. */
    method RemoveVertex(x: T) returns (s: Status)
      requires Valid()
      modifies graph
      ensures Valid()
      ensures x !in old(graph.vertexes) ==> s == Raised(VertexNotFound) && unchanged(graph)
      ensures x in old(graph.vertexes) ==>
        s == Done &&
        graph.vertexes == old(graph.vertexes) - {x} &&
        graph.edges == WEdgesAvoiding(old(graph.edges), x) &&
        graph.adj == WAdjacencyAvoiding(old(graph.adj), x)
    {
      RemovingVertexKeepsState(graph.adj, graph.vertexes, graph.edges, isDirected, x);
      s := graph.RemoveVertex(x);
    }

    /**
     * `addEdge(edge)`: an edge already listed changes nothing.  Otherwise it
     * is listed, followed by its reverse when undirected; both ends become
     * vertices, get an adjacency entry if they had none, and the pairs of
     * the new edge join the entries.
     */
    method AddEdge(e: WeightedEdge<T>)
      requires Valid()
      modifies graph
      ensures Valid()
      ensures e in old(graph.edges) ==> unchanged(graph)
      ensures e !in old(graph.edges) ==>
        graph.edges == old(graph.edges) + (if isDirected then [e] else [e, Reverse(e)]) &&
        graph.vertexes == old(graph.vertexes) + {e.u, e.v} &&
        graph.adj == Linked(old(graph.adj), e.u, e.v, e.weight, isDirected)
    {
      if e in graph.edges {
        return;
      }
      AddingKeepsState(graph.adj, graph.vertexes, graph.edges, isDirected, e);
      graph.edges := graph.edges + if isDirected then [e] else [e, WeightedEdge(e.v, e.u, e.weight)];
      graph.vertexes := graph.vertexes + {e.u, e.v};
      graph.adj := Linked(graph.adj, e.u, e.v, e.weight, isDirected);
    }

    /** `addEdge(u, v, weight)`: `addEdge` of the edge `(u, v, weight)`. */
    method AddEdgeBetween(u: T, v: T, weight: int)
      requires Valid()
      modifies graph
      ensures Valid()
      ensures WeightedEdge(u, v, weight) in old(graph.edges) ==> unchanged(graph)
      ensures WeightedEdge(u, v, weight) !in old(graph.edges) ==>
        graph.edges == old(graph.edges) + (if isDirected then [WeightedEdge(u, v, weight)] else [WeightedEdge(u, v, weight), WeightedEdge(v, u, weight)]) &&
        graph.vertexes == old(graph.vertexes) + {u, v} &&
        graph.adj == Linked(old(graph.adj), u, v, weight, isDirected)
    {
      AddEdge(WeightedEdge(u, v, weight));
    }

    /**
     * `removeEdge(u, v, weight)`: every copy of `(u, v, weight)` and, when
     * undirected, of `(v, u, weight)` leaves the edge list, the others keep
     * their order; the adjacency map and the vertices stay as they were.
     */
    method RemoveEdge(u: T, v: T, weight: int)
      requires Valid()
      modifies graph
      ensures Valid()
      ensures graph.edges == EdgesWithoutWeighted(old(graph.edges), WeightedEdge(u, v, weight),
                                                  if isDirected then WeightedEdge(u, v, weight) else WeightedEdge(v, u, weight))
      ensures Elems(graph.edges) == Elems(old(graph.edges)) - {WeightedEdge(u, v, weight), WeightedEdge(v, u, weight)} ||
              (isDirected && Elems(graph.edges) == Elems(old(graph.edges)) - {WeightedEdge(u, v, weight)})
      ensures graph.adj == old(graph.adj) && graph.vertexes == old(graph.vertexes)
    {
      var look := WeightedEdge(u, v, weight);
      var other := if !isDirected then WeightedEdge(v, u, weight) else look;
      RemovingKeepsState(graph.adj, graph.vertexes, graph.edges, isDirected, look, other);
      graph.edges := EdgesWithoutWeighted(graph.edges, look, other);
    }

    /**
     * `edgeCount()`: a directed network counts every listed edge; an
     * undirected one counts an edge unless its reverse was counted before,
     * so each edge with its reverse is counted once, and so is a loop.
     */
    method EdgeCount() returns (n: int)
      ensures isDirected ==> n == |graph.edges|
      ensures !isDirected ==> n == |Kept(graph.edges, true)|
      ensures Valid() && !isDirected ==> 2 * n == |Elems(graph.edges)| + |Loops(Elems(graph.edges))|
    {
      if isDirected {
        return |graph.edges|;
      }
      var total;
      n, total := Tally(graph.edges, true);
      if Valid() {
        KeptCount(graph.edges);
        NothingAlone(graph.edges);
      }
    }

    /**
     * `edgeSum()`: the weights of the edges `edgeCount()` counts, in an
     * undirected network; in a directed one a repeated edge would count
     * once, and since none is repeated every weight counts.
     */
    method EdgeSum() returns (total: int)
      ensures total == WeightSum(Kept(graph.edges, !isDirected))
      ensures Valid() && isDirected ==> total == WeightSum(graph.edges)
    {
      var count;
      count, total := Tally(graph.edges, !isDirected);
      if Valid() && isDirected {
        KeptEverything(graph.edges);
      }
    }

    /** `setComparator(comparator)`: the order the spanning tree sorts the edges by. */
    method SetComparator(cmp: Comparator<T>)
      modifies this
      ensures order == cmp
    {
      order := cmp;
    }

    /**
     * `spanningTree()` by Kruskal's algorithm: no tree (`null`) when there
     * are no edges or the network is directed.  Otherwise the sorted copy of
     * the edge list is scanned in order while fewer than `V - 1` edges were
     * accepted, and an edge is accepted when a fresh union-find structure
     * joins its ends' sets; accepted edges are added to a fresh undirected
     * network.  The accepted edges are those Kruskal's rule keeps from the
     * scanned prefix of the sorted list: edges of the network, at most
     * `V - 1` of them, forming a forest.  When the whole list was scanned,
     * the forest connects the ends of every edge of the network.
     */
    method SpanningTree() returns (r: Option<Network<T>>, ghost chosen: seq<WeightedEdge<T>>,
                                   ghost sorted: seq<WeightedEdge<T>>, ghost scanned: nat)
      requires Valid()
      ensures r.None? <==> graph.edges == [] || isDirected
      ensures r.Some? ==> fresh(r.value) && fresh(r.value.graph) && r.value.Valid() && !r.value.isDirected
      ensures r.Some? ==> r.value.graph.edges == Doubled(chosen) && Acyclic(chosen)
      ensures r.Some? ==> r.value.graph.vertexes == Ends(chosen) && r.value.graph.adj == TreeAdjacency(chosen)
      ensures forall e :: e in chosen ==> e in graph.edges
      ensures |chosen| <= |graph.vertexes| - 1 || chosen == []
      ensures r.Some? ==> multiset(sorted) == multiset(graph.edges) && (Consistent(order) ==> Ascending(order, sorted))
      ensures r.Some? ==> scanned <= |sorted| && chosen == Greedy(sorted[..scanned]) && Subsequence(chosen, sorted[..scanned])
      ensures r.Some? ==> scanned == |sorted| || |chosen| >= |graph.vertexes| - 1
      ensures r.Some? && scanned == |sorted| ==> forall e :: e in graph.edges ==> Reachable(ForestOf(chosen), e.u, e.v)
    {
      chosen, sorted, scanned := [], [], 0;
      if graph.edges == [] || isDirected {
        return None, chosen, sorted, scanned;
      }
      var copy := Sort(order, graph.edges);
      sorted := copy;
      var tree := new Network(false);
      var dsu := new DisjointSetUnion();
      chosen, scanned := Scan(copy, graph.VertexCount() - 1, tree, dsu);
      SortedMembers(graph.edges, copy, chosen);
      GreedySubsequence(copy[..scanned]);
      if scanned == |copy| {
        assert copy[..scanned] == copy;
        SortedSpans(graph.edges, copy);
      }
      r := Some(tree);
    }

    /**
     * `maxFlow(source, sink)`: a fresh `EdmondsKarp` residual graph built
     * from the network's adjacency (which always succeeds on a consistent
     * network), then its `maxFlow`: `-1` when the source is the sink,
     * `MissingEntry` when the source is not a vertex, and otherwise a
     * maximum flow over the built graph's capacities, with its value.
     */
    method MaxFlow(source: T, sink: T)
      returns (r: Outcome<int>, ghost built: Residual<T>, ghost origin: map<Loc<T>, Origin<T>>, ghost res: Residual<T>)
      requires Valid()
      ensures r == Ok(-1) <==> source == sink
      ensures r == Thrown(MissingEntry) <==> source != sink && source !in graph.vertexes
      ensures built.Keys == graph.vertexes && Explained(graph.adj, built)
      ensures forall k, h :: k in graph.adj && h in graph.adj[k] ==> Covers(built, k, h)
      ensures Traced(built, origin, AllPairs(graph.adj))
      ensures r.Ok? && source != sink ==> SameShape(built, res) && MaximumFlow(res, source, sink, r.value)
    {
      var b;
      b, origin := Build(graph.adj, graph.vertexes);
      assert Fits(graph.adj, graph.vertexes);
      var residual := b.value;
      var flows;
      r, flows := MaxFlowOn(residual, source, sink);
      built, res := residual, flows;
    }
  }
}
