/**
 * `Forest` (src/Forest.java): an undirected graph kept free of cycles by a
 * union-find structure.  Every undirected edge is listed in both directions
 * and entered in both adjacency entries; an edge whose ends are already in
 * one set is refused.  It also offers bipartiteness, connected components
 * and an edge count that counts each undirected edge once.
 */
module Forests {
  import opened Outcomes
  import opened Sequences
  import opened Edges
  import opened Paths
  import opened Filters
  import opened Traversals
  import opened UnweightedGraphs
  import opened DisjointSets

  /** Every adjacency edge runs both ways. */
  ghost predicate Symmetric<T(!new)>(adj: Adjacency<T>)
  {
    forall a, b :: b in Succ(adj, a) ==> a in Succ(adj, b)
  }

  /**
   * The shape every `Forest` keeps: the adjacency mentions only vertices and
   * is symmetric; the edge list has no duplicates and no loops, lists each
   * edge with its reverse, and only edges of the adjacency.
   */
  ghost predicate Undirected<T(!new)>(adj: Adjacency<T>, vertexes: set<T>, edges: seq<Edge<T>>)
  {
    Nodes(adj) <= vertexes && Symmetric(adj) && Distinct(edges) &&
    forall e :: e in edges ==> e.u != e.v && e.v in Succ(adj, e.u) && Edge(e.v, e.u) in edges
  }

  /** `a` and `b` are registered and have one representative. */
  predicate SameSet<T(==)>(s: Sets<T>, a: T, b: T)
  {
    WellFormed(s) && RankOrdered(s) && a in s.parent && b in s.parent && Representative(s, a) == Representative(s, b)
  }

  /** The union-find structure has every vertex of the adjacency, and the ends of each edge in one set. */
  ghost predicate Tracked<T(!new)>(adj: Adjacency<T>, s: Sets<T>)
  {
    WellFormed(s) && RankOrdered(s) && Nodes(adj) <= s.parent.Keys &&
    forall a, b :: b in Succ(adj, a) ==> SameSet(s, a, b)
  }

  /** `side` gives the two ends of every edge different sides. */
  ghost predicate ProperColouring<T(!new)>(adj: Adjacency<T>, side: map<T, bool>)
  {
    Nodes(adj) <= side.Keys && forall a, b :: b in Succ(adj, a) ==> a in side && b in side && side[a] != side[b]
  }

  /** The graph is bipartite: its vertices split into two sides with no edge inside a side. */
  ghost predicate TwoColourable<T(!new)>(adj: Adjacency<T>)
  {
    exists side :: ProperColouring(adj, side)
  }

  /** The adjacency after `addEdge(u, v)`: `v` joins the entry of `u`, then `u` joins the entry of `v`. */
  function AddPair<T(==,!new)>(adj: Adjacency<T>, u: T, v: T): (r: Adjacency<T>)
    ensures forall a, b :: b in Succ(r, a) <==> b in Succ(adj, a) || (a == u && b == v) || (a == v && b == u)
    ensures r.Keys == adj.Keys + {u, v}
  {
    var first := adj[u := Succ(adj, u) + {v}];
    first[v := Succ(first, v) + {u}]
  }

  lemma AddPairNodes<T(!new)>(adj: Adjacency<T>, u: T, v: T)
    ensures Nodes(AddPair(adj, u, v)) == Nodes(adj) + {u, v}
  {
    var r := AddPair(adj, u, v);
    forall x | x in Nodes(r)
      ensures x in Nodes(adj) + {u, v}
    {
      if x !in r.Keys {
        var k :| k in r && x in r[k];
        assert x in Succ(r, k);
      }
    }
    forall x | x in Nodes(adj)
      ensures x in Nodes(r)
    {
      if x !in adj.Keys {
        var k :| k in adj && x in adj[k];
        assert x in Succ(r, k);
      }
    }
  }

  /** In a symmetric adjacency every walk can be walked back. */
  lemma ReachableBack<T(!new)>(adj: Adjacency<T>, a: T, b: T)
    requires Symmetric(adj) && Reachable(adj, a, b)
    ensures Reachable(adj, b, a)
  {
    var p :| PathBetween(adj, p, a, b);
    var r := Reversed(p);
    var n := |p|;
    forall i | 0 <= i < n - 1
      ensures r[i + 1] in Succ(adj, r[i])
    {
      var k := n - 2 - i;
      assert r[i] == p[k + 1] && r[i + 1] == p[k];
      assert p[k + 1] in Succ(adj, p[k]);
    }
    assert PathBetween(adj, r, b, a);
  }

  /** Along a walk the union-find representative does not change. */
  lemma {:induction false} WalkStaysInSet<T(!new)>(adj: Adjacency<T>, s: Sets<T>, p: seq<T>, a: T, b: T)
    requires Tracked(adj, s) && PathBetween(adj, p, a, b) && a in s.parent
    ensures b in s.parent && Representative(s, a) == Representative(s, b)
    decreases |p|
  {
    if |p| > 1 {
      var q := p[..|p| - 1];
      var c := q[|q| - 1];
      assert PathBetween(adj, q, a, c);
      WalkStaysInSet(adj, s, q, a, c);
      assert b in Succ(adj, c);
    }
  }

  /** A vertex that reaches another vertex has an adjacency entry. */
  lemma ReachesOther<T(!new)>(adj: Adjacency<T>, u: T, v: T)
    requires Reachable(adj, u, v) && v != u
    ensures u in adj
  {
    var p :| PathBetween(adj, p, u, v);
    assert p[1] in Succ(adj, p[0]);
  }

  /** Registering two elements moves no tracked edge to different sets. */
  lemma RegisteringKeepsTracked<T(!new)>(adj: Adjacency<T>, s: Sets<T>, u: T, v: T, a: T)
    requires Tracked(adj, s) && a in s.parent
    ensures var t := Registered(Registered(s, u), v);
      WellFormed(t) && RankOrdered(t) && Representative(t, a) == Representative(s, a)
  {
    RegisteredKeepsRepresentative(s, u, a);
    RegisteredKeepsRepresentative(Registered(s, u), v, a);
  }

  /** The corrected union refuses two ends that are already connected. */
  lemma ConnectedRefused<T(!new)>(adj: Adjacency<T>, s: Sets<T>, u: T, v: T)
    requires Tracked(adj, s) && Reachable(adj, u, v)
    ensures !UnionOfRoots(s, u, v).0
  {
    if u in s.parent {
      var p :| PathBetween(adj, p, u, v);
      WalkStaysInSet(adj, s, p, u, v);
      RegisteringKeepsTracked(adj, s, u, v, u);
      RegisteringKeepsTracked(adj, s, u, v, v);
    } else if v != u {
      ReachesOther(adj, u, v);
      assert false;
    }
  }

  /** A refused union leaves every edge tracked. */
  lemma RefusalKeepsTracked<T(!new)>(adj: Adjacency<T>, s: Sets<T>, u: T, v: T)
    requires Tracked(adj, s) && !UnionOfRoots(s, u, v).0
    ensures Tracked(adj, UnionOfRoots(s, u, v).1)
  {
    var t := UnionOfRoots(s, u, v).1;
    UnionOfRootsLinks(s, u, v);
    forall a, b | b in Succ(adj, a)
      ensures SameSet(t, a, b)
    {
      RegisteringKeepsTracked(adj, s, u, v, a);
      RegisteringKeepsTracked(adj, s, u, v, b);
    }
  }

  /** A successful union tracks the old edges and the new edge in both directions. */
  lemma UnionKeepsTracked<T(!new)>(adj: Adjacency<T>, s: Sets<T>, u: T, v: T)
    requires Tracked(adj, s) && UnionOfRoots(s, u, v).0
    ensures Tracked(AddPair(adj, u, v), UnionOfRoots(s, u, v).1)
  {
    var w := UnionOfRoots(s, u, v).1;
    var r := AddPair(adj, u, v);
    AddPairNodes(adj, u, v);
    forall a, b | b in Succ(r, a)
      ensures SameSet(w, a, b)
    {
      UnionEdge(adj, s, u, v, a, b);
    }
  }

  /** One edge of the adjacency after `addEdge(u, v)` has its ends in one set after the union. */
  lemma UnionEdge<T(!new)>(adj: Adjacency<T>, s: Sets<T>, u: T, v: T, a: T, b: T)
    requires Tracked(adj, s)
    requires b in Succ(adj, a) || (a == u && b == v) || (a == v && b == u)
    ensures SameSet(UnionOfRoots(s, u, v).1, a, b)
  {
    if b in Succ(adj, a) {
      assert SameSet(s, a, b);
      RegisteringKeepsTracked(adj, s, u, v, a);
      RegisteringKeepsTracked(adj, s, u, v, b);
    }
    UnionOfRootsRepresentatives(s, u, v, a, b);
  }

  /** The side of `x`, with vertices not yet placed on the `false` side. */
  function Side<T(==)>(side: map<T, bool>, x: T): bool
  {
    if x in side then side[x] else false
  }

  /**
   * The sides after joining the sets of `u` and `v`: when `u` and `v` are on
   * one side, every element of the set of `v` changes side.
   */
  function Recoloured<T(==)>(side: map<T, bool>, t: Sets<T>, u: T, v: T): map<T, bool>
    requires WellFormed(t) && RankOrdered(t) && v in t.parent
  {
    var flip := Side(side, u) == Side(side, v);
    map z | z in t.parent :: if flip && Representative(t, z) == Representative(t, v) then !Side(side, z) else Side(side, z)
  }

  /** Joining two different sets by the edge `u - v` keeps a proper colouring, recoloured. */
  lemma UnionKeepsColouring<T(!new)>(adj: Adjacency<T>, s: Sets<T>, side: map<T, bool>, u: T, v: T)
    requires Tracked(adj, s) && ProperColouring(adj, side) && UnionOfRoots(s, u, v).0
    ensures var t := Registered(Registered(s, u), v);
      WellFormed(t) && RankOrdered(t) && v in t.parent &&
      ProperColouring(AddPair(adj, u, v), Recoloured(side, t, u, v))
  {
    RegisteredOrdered(s, u);
    RegisteredOrdered(Registered(s, u), v);
    var t := Registered(Registered(s, u), v);
    var r := AddPair(adj, u, v);
    var side' := Recoloured(side, t, u, v);
    AddPairNodes(adj, u, v);
    forall a, b | b in Succ(r, a)
      ensures a in side' && b in side' && side'[a] != side'[b]
    {
      ColourEdge(adj, s, side, u, v, a, b);
    }
  }

  /** One edge after `addEdge(u, v)` has its ends on different sides after recolouring. */
  lemma ColourEdge<T(!new)>(adj: Adjacency<T>, s: Sets<T>, side: map<T, bool>, u: T, v: T, a: T, b: T)
    requires Tracked(adj, s) && ProperColouring(adj, side) && UnionOfRoots(s, u, v).0
    requires b in Succ(adj, a) || (a == u && b == v) || (a == v && b == u)
    ensures var t := Registered(Registered(s, u), v);
      WellFormed(t) && RankOrdered(t) && v in t.parent &&
      var side' := Recoloured(side, t, u, v);
      a in side' && b in side' && side'[a] != side'[b]
  {
    RegisteredOrdered(s, u);
    RegisteredOrdered(Registered(s, u), v);
    var t := Registered(Registered(s, u), v);
    var flip := Side(side, u) == Side(side, v);
    var rv := Representative(t, v);
    if b in Succ(adj, a) {
      assert SameSet(s, a, b);
      RegisteringKeepsTracked(adj, s, u, v, a);
      RegisteringKeepsTracked(adj, s, u, v, b);
      assert Side(side, a) != Side(side, b);
      RecolouredAt(side, t, u, v, a);
      RecolouredAt(side, t, u, v, b);
    } else {
      assert Representative(t, u) != rv;
      RecolouredAt(side, t, u, v, u);
      RecolouredAt(side, t, u, v, v);
    }
  }

  lemma RecolouredAt<T>(side: map<T, bool>, t: Sets<T>, u: T, v: T, z: T)
    requires WellFormed(t) && RankOrdered(t) && v in t.parent && z in t.parent
    ensures var flip := Side(side, u) == Side(side, v);
      z in Recoloured(side, t, u, v) &&
      Recoloured(side, t, u, v)[z] == if flip && Representative(t, z) == Representative(t, v) then !Side(side, z) else Side(side, z)
  {
  }

  /** The successors after `removeVertex(x)`: the old ones that are not `x`, of a vertex that is not `x`. */
  lemma AvoidingSucc<T(!new)>(adj: Adjacency<T>, x: T, a: T, b: T)
    ensures b in Succ(AdjacencyAvoiding(adj, x), a) <==> b in Succ(adj, a) && a != x && b != x
  {
  }

  /** `removeVertex(x)` only takes edges away, so it keeps the shape of the graph. */
  lemma RemovalKeepsShape<T(!new)>(adj: Adjacency<T>, vertexes: set<T>, edges: seq<Edge<T>>, x: T)
    requires Undirected(adj, vertexes, edges)
    ensures Undirected(AdjacencyAvoiding(adj, x), vertexes - {x}, EdgesAvoiding(edges, x))
  {
    var r := AdjacencyAvoiding(adj, x);
    var es := EdgesAvoiding(edges, x);
    RemovalPurges(adj, edges, x, edges, []);
    FilterDistinct(edges, (e: Edge<T>) => e.u != x && e.v != x);
    forall a, b | b in Succ(r, a)
      ensures a in Succ(r, b)
    {
      AvoidingSucc(adj, x, a, b);
      AvoidingSucc(adj, x, b, a);
    }
    forall k | k in Nodes(r)
      ensures k in vertexes - {x}
    {
      if k in r.Keys {
        assert k in Nodes(adj);
      } else {
        var c :| c in r && k in r[c];
        AvoidingSucc(adj, x, c, k);
      }
    }
    forall e | e in es
      ensures e.u != e.v && e.v in Succ(r, e.u) && Edge(e.v, e.u) in es
    {
      AvoidingSucc(adj, x, e.u, e.v);
    }
  }

  /** `removeVertex(x)` keeps the union-find structure tracking every remaining edge. */
  lemma RemovalKeepsTracked<T(!new)>(adj: Adjacency<T>, s: Sets<T>, x: T)
    requires Tracked(adj, s)
    ensures Tracked(AdjacencyAvoiding(adj, x), s)
  {
    var r := AdjacencyAvoiding(adj, x);
    forall a, b | b in Succ(r, a)
      ensures SameSet(s, a, b)
    {
      AvoidingSucc(adj, x, a, b);
    }
    forall k | k in Nodes(r)
      ensures k in s.parent
    {
      if k !in r.Keys {
        var c :| c in r && k in r[c];
        AvoidingSucc(adj, x, c, k);
        assert k in Nodes(adj);
      }
    }
  }

  /** `removeVertex(x)` keeps a proper colouring proper. */
  lemma RemovalKeepsColouring<T(!new)>(adj: Adjacency<T>, side: map<T, bool>, x: T)
    requires ProperColouring(adj, side)
    ensures ProperColouring(AdjacencyAvoiding(adj, x), side)
  {
    var r := AdjacencyAvoiding(adj, x);
    forall a, b | b in Succ(r, a)
      ensures a in side && b in side && side[a] != side[b]
    {
      AvoidingSucc(adj, x, a, b);
    }
    forall k | k in Nodes(r)
      ensures k in side
    {
      if k !in r.Keys {
        var c :| c in r && k in r[c];
        AvoidingSucc(adj, x, c, k);
        assert k in Nodes(adj);
      }
    }
  }

  /** The invariant of a forest's state: an undirected graph tracked by `s` and properly coloured by `side`. */
  ghost predicate ForestState<T(!new)>(adj: Adjacency<T>, vertexes: set<T>, edges: seq<Edge<T>>,
                                       s: Sets<T>, side: map<T, bool>)
  {
    Undirected(adj, vertexes, edges) && Tracked(adj, s) && ProperColouring(adj, side)
  }

  /** The edges of `seen` whose reverse is not among them. */
  function Unpaired<T(==)>(seen: set<Edge<T>>): set<Edge<T>>
  {
    set e | e in seen && Edge(e.v, e.u) !in seen
  }

  /**
   * What `edgeCount()` has remembered after the edges `seen`: only edges
   * seen, every seen edge whose reverse was not seen, and never an edge
   * together with its reverse.
   */
  ghost predicate CountedPrefix<T>(seen: set<Edge<T>>, counted: set<Edge<T>>)
  {
    counted <= seen &&
    (forall e :: e in seen && Edge(e.v, e.u) !in seen ==> e in counted) &&
    (forall e :: e in counted ==> Edge(e.v, e.u) !in counted)
  }

  /**
   * One step of `edgeCount()` on a new edge `e` that is not a loop: its
   * reverse was remembered exactly when it was seen; remembering `e`
   * otherwise keeps the bookkeeping, and the unpaired edges grow by one when
   * `e` is counted and shrink by one when it is not.
   */
  lemma CountStep<T>(seen: set<Edge<T>>, counted: set<Edge<T>>, e: Edge<T>)
    requires CountedPrefix(seen, counted) && e !in seen && e.u != e.v
    ensures Edge(e.v, e.u) in counted <==> Edge(e.v, e.u) in seen
    ensures CountedPrefix(seen + {e}, if Edge(e.v, e.u) in counted then counted else counted + {e})
    ensures |Unpaired(seen + {e})| == if Edge(e.v, e.u) in seen then |Unpaired(seen)| - 1 else |Unpaired(seen)| + 1
  {
    var r := Edge(e.v, e.u);
    assert Edge(r.v, r.u) == e;
    if r in seen {
      assert r in Unpaired(seen);
      assert Unpaired(seen + {e}) == Unpaired(seen) - {r};
    } else {
      assert e !in Unpaired(seen);
      assert Unpaired(seen + {e}) == Unpaired(seen) + {e};
    }
  }

  /**
   * The loop of `edgeCount()` over a list of distinct edges without loops:
   * an edge is counted unless its reverse was counted before, so every edge
   * listed with its reverse is counted once and every other edge once.
   */
  method CountOnce<T(==)>(edges: seq<Edge<T>>) returns (n: int)
    requires Distinct(edges) && forall e :: e in edges ==> e.u != e.v
    ensures 2 * n == |edges| + |Unpaired(Elems(edges))|
  {
    var counted: set<Edge<T>> := {};
    n := 0;
    var i := 0;
    while i < |edges|
      invariant 0 <= i <= |edges|
      invariant CountedPrefix(Elems(edges[..i]), counted)
      invariant 2 * n == i + |Unpaired(Elems(edges[..i]))|
    {
      var e := edges[i];
      assert edges[..i + 1] == edges[..i] + [e];
      assert Elems(edges[..i + 1]) == Elems(edges[..i]) + {e};
      assert e !in Elems(edges[..i]);
      CountStep(Elems(edges[..i]), counted, e);
      var reverse := Edge(e.v, e.u);
      if reverse !in counted {
        n := n + 1;
        counted := counted + {e};
      }
      i := i + 1;
    }
    assert edges[..i] == edges;
  }

  /** The colours of `isBipartite()`. */
  datatype Colour = Uncoloured | White | Black

  /** The colour a search from `src` gives `x`: white on the side of `src`, black on the other. */
  function Scheme<T(==)>(side: map<T, bool>, src: T, x: T): (c: Colour)
    ensures c != Uncoloured
  {
    if Side(side, x) == Side(side, src) then White else Black
  }

  /**
   * A search from `src` that started with the vertices `start` visited and
   * the colours `colour0`, and has now visited `visited` with the colours
   * `colour`: the earlier colours stand, every vertex it visited is
   * reachable from `src` and has its colour in the scheme of `src`, and
   * every vertex not visited is uncoloured.
   */
  ghost predicate Painted<T(!new)>(adj: Adjacency<T>, side: map<T, bool>, vertexes: set<T>, src: T,
                                   start: set<T>, colour0: map<T, Colour>, visited: set<T>, colour: map<T, Colour>)
  {
    colour0.Keys == vertexes && colour.Keys == vertexes && start <= visited <= vertexes &&
    (forall x :: x in start ==> colour[x] == colour0[x]) &&
    (forall x :: x in visited && x !in start ==> colour[x] == Scheme(side, src, x) && Reachable(adj, src, x)) &&
    (forall x :: x in vertexes && x !in visited ==> colour[x] == Uncoloured)
  }

  /** Every vertex of `visited` is coloured, and the ends of every edge out of it have different colours. */
  ghost predicate ProperlyPainted<T(!new)>(adj: Adjacency<T>, visited: set<T>, colour: map<T, Colour>)
  {
    visited <= colour.Keys &&
    (forall x :: x in visited ==> colour[x] != Uncoloured) &&
    (forall a, b :: a in visited && b in Succ(adj, a) ==> b in colour && colour[a] != colour[b])
  }

  /**
   * One successor `v` of a visited `u` in the search from `src`: `v` was
   * not visited before the search, and the two have different colours.
   */
  lemma SuccessorContrasts<T(!new)>(adj: Adjacency<T>, side: map<T, bool>, vertexes: set<T>, src: T, start: set<T>,
                                    colour0: map<T, Colour>, visited: set<T>, colour: map<T, Colour>, u: T, v: T)
    requires Symmetric(adj) && ProperColouring(adj, side) && Nodes(adj) <= vertexes
    requires PreState(adj, start, {}) && Painted(adj, side, vertexes, src, start, colour0, visited, colour)
    requires u in visited && u !in start && v in Succ(adj, u)
    ensures v in vertexes && v !in start && colour[u] != colour[v]
  {
    assert u in Succ(adj, v);
    assert v in Nodes(adj);
    assert Side(side, u) == side[u] && Side(side, v) == side[v];
  }

  /** Giving that successor the colour opposite to that of `u`, and visiting it, keeps the scheme of `src`. */
  lemma SuccessorRepainted<T(!new)>(adj: Adjacency<T>, side: map<T, bool>, vertexes: set<T>, src: T, start: set<T>,
                                    colour0: map<T, Colour>, visited: set<T>, colour: map<T, Colour>, u: T, v: T)
    requires ProperColouring(adj, side) && Painted(adj, side, vertexes, src, start, colour0, visited, colour)
    requires u in visited && u !in start && v in Succ(adj, u) && v in vertexes && v !in start
    ensures Painted(adj, side, vertexes, src, start, colour0, visited + {v},
                    colour[v := if colour[u] == White then Black else White])
  {
    assert Side(side, u) == side[u] && Side(side, v) == side[v];
    ReachableStep(adj, src, u, v);
  }

  /**
   * The loop of `BFS` over the successors of `u` part way through: the
   * successors outside `rest` are visited, the search's colours are in the
   * scheme of `src`, and the queue `q0` has grown by the newly visited
   * vertices.
   */
  ghost predicate Colouring<T(!new)>(adj: Adjacency<T>, side: map<T, bool>, vertexes: set<T>, src: T, start: set<T>,
                                     colour0: map<T, Colour>, u: T, visited0: set<T>, q0: seq<T>,
                                     rest: set<T>, visited: set<T>, colour: map<T, Colour>, q: seq<T>)
  {
    rest <= Succ(adj, u) && Succ(adj, u) - rest <= visited && visited0 <= visited &&
    Painted(adj, side, vertexes, src, start, colour0, visited, colour) &&
    |q0| <= |q| && q[..|q0|] == q0 && Distinct(q) && Elems(q[|q0|..]) == visited - visited0 && Elems(q) <= visited
  }

  /**
   * One successor `v` of `u` in the loop: it has a colour different from
   * that of `u`, and colouring it opposite to `u` (and queueing it if it
   * was not visited) keeps the loop's invariant.
   */
  lemma ColourStep<T(!new)>(adj: Adjacency<T>, side: map<T, bool>, vertexes: set<T>, src: T, start: set<T>,
                            colour0: map<T, Colour>, u: T, visited0: set<T>, q0: seq<T>,
                            rest: set<T>, visited: set<T>, colour: map<T, Colour>, q: seq<T>, v: T)
    requires Symmetric(adj) && ProperColouring(adj, side) && Nodes(adj) <= vertexes && PreState(adj, start, {})
    requires u in visited0 && u !in start && v in rest
    requires Colouring(adj, side, vertexes, src, start, colour0, u, visited0, q0, rest, visited, colour, q)
    ensures colour[u] != colour[v]
    ensures var colour' := colour[v := if colour[u] == White then Black else White];
      if v in visited then
        Colouring(adj, side, vertexes, src, start, colour0, u, visited0, q0, rest - {v}, visited, colour', q)
      else
        Colouring(adj, side, vertexes, src, start, colour0, u, visited0, q0, rest - {v}, visited + {v}, colour', q + [v])
  {
    SuccessorContrasts(adj, side, vertexes, src, start, colour0, visited, colour, u, v);
    SuccessorRepainted(adj, side, vertexes, src, start, colour0, visited, colour, u, v);
    if v !in visited {
      DistinctAppend(q, [v]);
      assert (q + [v])[|q0|..] == q[|q0|..] + [v];
      assert Elems(q[|q0|..] + [v]) == Elems(q[|q0|..]) + {v};
      assert (q + [v])[..|q0|] == q[..|q0|];
    }
  }

  /**
   * The loop of `BFS` over the successors of `u`, just taken off the
   * queue: each successor gets the colour opposite to that of `u`, and
   * those not yet visited are visited and join the back of the queue.  An
   * edge whose ends share a colour would end it with `clash`, which cannot
   * happen.
   */
  method ColourSuccessors<T(!new)>(adj: Adjacency<T>, vertexes: set<T>, src: T, ghost start: set<T>,
                                   ghost colour0: map<T, Colour>, u: T, visited: set<T>, colour: map<T, Colour>,
                                   q: seq<T>, ghost side: map<T, bool>)
    returns (visited': set<T>, colour': map<T, Colour>, q': seq<T>, clash: bool)
    requires Symmetric(adj) && ProperColouring(adj, side) && Nodes(adj) <= vertexes && PreState(adj, start, {})
    requires Painted(adj, side, vertexes, src, start, colour0, visited, colour)
    requires u in adj && u in visited && u !in start
    requires Distinct(q) && Elems(q) <= visited
    ensures !clash && Painted(adj, side, vertexes, src, start, colour0, visited', colour')
    ensures visited <= visited' && adj[u] <= visited'
    ensures |q| <= |q'| && q'[..|q|] == q && Distinct(q') && Elems(q'[|q|..]) == visited' - visited
  {
    clash := false;
    visited', colour', q' := visited, colour, q;
    var rest := adj[u];
    assert q'[|q|..] == [];
    while rest != {}
      invariant Colouring(adj, side, vertexes, src, start, colour0, u, visited, q, rest, visited', colour', q')
      decreases rest
    {
      var v :| v in rest;
      ColourStep(adj, side, vertexes, src, start, colour0, u, visited, q, rest, visited', colour', q', v);
      rest := rest - {v};
      if colour'[u] == colour'[v] {
        assert false;
        clash := true;
        return;
      }
      colour' := colour'[v := if colour'[u] == White then Black else White];
      if v !in visited' {
        visited' := visited' + {v};
        q' := q' + [v];
      }
    }
  }

  /**
   * The invariant of the queue loop of `BFS`: the colours so far are in the
   * scheme of `src`; the queue holds distinct vertices, and together with
   * the vertices taken off it makes up what the search has visited; every
   * visited vertex that is not queued has all its successors visited.
   */
  ghost predicate Searching<T(!new)>(adj: Adjacency<T>, side: map<T, bool>, vertexes: set<T>, src: T, start: set<T>,
                                     colour0: map<T, Colour>, visited: set<T>, colour: map<T, Colour>,
                                     q: seq<T>, popped: set<T>)
  {
    Painted(adj, side, vertexes, src, start, colour0, visited, colour) && src in visited &&
    Distinct(q) && Elems(q) + popped == visited - start && Elems(q) !! popped &&
    PreState(adj, visited, Elems(q))
  }

  /**
   * Taking `q[0]` off the queue and queueing its newly visited successors
   * (all of its successors now visited) keeps the invariant of the queue loop.
   */
  lemma SearchStep<T(!new)>(adj: Adjacency<T>, side: map<T, bool>, vertexes: set<T>, src: T, start: set<T>,
                            colour0: map<T, Colour>, visited: set<T>, colour: map<T, Colour>, q: seq<T>, popped: set<T>,
                            visited': set<T>, colour': map<T, Colour>, q': seq<T>)
    requires q != [] && Searching(adj, side, vertexes, src, start, colour0, visited, colour, q, popped)
    requires Painted(adj, side, vertexes, src, start, colour0, visited', colour')
    requires visited <= visited' && Succ(adj, q[0]) <= visited'
    requires |q| - 1 <= |q'| && q'[..|q| - 1] == q[1..] && Distinct(q') && Elems(q'[|q| - 1..]) == visited' - visited
    ensures q[0] in vertexes && q[0] !in popped
    ensures Searching(adj, side, vertexes, src, start, colour0, visited', colour', q', popped + {q[0]})
  {
    var u := q[0];
    var rest := q[1..];
    assert q == [u] + rest;
    assert Elems(q) == {u} + Elems(rest) && u !in Elems(rest);
    assert q' == rest + q'[|q| - 1..];
    assert Elems(q') == Elems(rest) + Elems(q'[|q| - 1..]);
  }

  /**
   * One round of the queue loop of `BFS`: the front vertex `u` leaves the
   * queue; a `u` without an adjacency entry is passed over, otherwise its
   * successors are coloured and queued.
   */
  method TakeNext<T(!new)>(adj: Adjacency<T>, vertexes: set<T>, src: T, ghost start: set<T>,
                           ghost colour0: map<T, Colour>, visited: set<T>, colour: map<T, Colour>,
                           q: seq<T>, ghost popped: set<T>, ghost side: map<T, bool>)
    returns (visited': set<T>, colour': map<T, Colour>, q': seq<T>, clash: bool, ghost popped': set<T>)
    requires Symmetric(adj) && ProperColouring(adj, side) && Nodes(adj) <= vertexes && PreState(adj, start, {})
    requires q != [] && Searching(adj, side, vertexes, src, start, colour0, visited, colour, q, popped)
    ensures !clash && Searching(adj, side, vertexes, src, start, colour0, visited', colour', q', popped')
    ensures popped' == popped + {q[0]} && q[0] in vertexes && q[0] !in popped
  {
    var u := q[0];
    q' := q[1..];
    popped' := popped + {u};
    visited', colour', clash := visited, colour, false;
    assert q'[|q'|..] == [] && q'[..|q'|] == q';
    if u in adj {
      visited', colour', q', clash := ColourSuccessors(adj, vertexes, src, start, colour0, u, visited, colour, q', side);
    }
    SearchStep(adj, side, vertexes, src, start, colour0, visited, colour, q, popped, visited', colour', q');
  }

  /**
   * The breadth-first search `BFS(src, ...)` of `isBipartite()`: the queue
   * starts with `src` coloured white, and each vertex taken off its front
   * colours its successors.  A clash of colours would end the search, and
   * never happens on a graph with a proper two-colouring `side`.  The
   * search visits exactly the vertices reachable from `src`, in the scheme
   * of `src`.
   */
  method Bfs<T(!new)>(adj: Adjacency<T>, vertexes: set<T>, src: T, visited: set<T>, colour: map<T, Colour>,
                      ghost side: map<T, bool>)
    returns (visited': set<T>, colour': map<T, Colour>, clash: bool)
    requires Symmetric(adj) && ProperColouring(adj, side) && Nodes(adj) <= vertexes
    requires src in vertexes && src !in visited && visited <= vertexes && colour.Keys == vertexes
    requires PreState(adj, visited, {})
    requires forall x :: x in vertexes && x !in visited ==> colour[x] == Uncoloured
    ensures !clash
    ensures visited + {src} <= visited' && PreState(adj, visited', {})
    ensures Painted(adj, side, vertexes, src, visited, colour, visited', colour')
    ensures forall x :: Reachable(adj, src, x) ==> x in visited'
  {
    clash := false;
    visited', colour' := visited + {src}, colour[src := White];
    var q := [src];
    ghost var popped: set<T> := {};
    SearchStarts(adj, side, vertexes, src, visited, colour);
    while q != [] && !clash
      invariant !clash
      invariant Searching(adj, side, vertexes, src, visited, colour, visited', colour', q, popped)
      decreases |vertexes - popped|
    {
      ghost var popped0 := popped;
      visited', colour', q, clash, popped := TakeNext(adj, vertexes, src, visited, colour, visited', colour', q, popped, side);
      GrowsStrictly(vertexes - popped, vertexes - popped0);
    }
    SearchEnds(adj, side, vertexes, src, visited, colour, visited', colour', popped);
  }

  /** The queue loop of `BFS` starts with `src` white and alone in the queue. */
  lemma SearchStarts<T(!new)>(adj: Adjacency<T>, side: map<T, bool>, vertexes: set<T>, src: T,
                              visited: set<T>, colour: map<T, Colour>)
    requires src in vertexes && src !in visited && visited <= vertexes && colour.Keys == vertexes
    requires PreState(adj, visited, {})
    requires forall x :: x in vertexes && x !in visited ==> colour[x] == Uncoloured
    ensures Searching(adj, side, vertexes, src, visited, colour, visited + {src}, colour[src := White], [src], {})
  {
    ReachableSelf(adj, src);
    assert Elems([src]) == {src};
  }

  /** With the queue empty, what the search visited is closed, so it holds everything reachable from `src`. */
  lemma SearchEnds<T(!new)>(adj: Adjacency<T>, side: map<T, bool>, vertexes: set<T>, src: T, start: set<T>,
                            colour0: map<T, Colour>, visited: set<T>, colour: map<T, Colour>, popped: set<T>)
    requires Searching(adj, side, vertexes, src, start, colour0, visited, colour, [], popped)
    ensures PreState(adj, visited, {})
    ensures forall x :: Reachable(adj, src, x) ==> x in visited
  {
    var none: seq<T> := [];
    assert Elems(none) == {};
    forall x | Reachable(adj, src, x)
      ensures x in visited
    {
      if x !in visited {
        Enclosed(adj, src, visited, x);
      }
    }
  }

  /** After a search from `src`, every visited vertex is coloured and no edge out of one has ends of one colour. */
  lemma SearchPaintsProperly<T(!new)>(adj: Adjacency<T>, side: map<T, bool>, vertexes: set<T>, src: T,
                                      start: set<T>, colour0: map<T, Colour>, visited: set<T>, colour: map<T, Colour>)
    requires Symmetric(adj) && ProperColouring(adj, side)
    requires PreState(adj, start, {}) && PreState(adj, visited, {})
    requires Painted(adj, side, vertexes, src, start, colour0, visited, colour)
    requires ProperlyPainted(adj, start, colour0)
    ensures ProperlyPainted(adj, visited, colour)
  {
    forall a, b | a in visited && b in Succ(adj, a)
      ensures b in colour && colour[a] != colour[b]
    {
      assert a in Succ(adj, b) && b in visited;
      if a !in start {
        assert b !in start;
        assert Side(side, a) == side[a] && Side(side, b) == side[b];
      }
    }
  }

  /**
   * `isBipartite()` on an adjacency our `side` colours properly: the
   * vertices are coloured from every vertex not yet visited.  The verdict
   * `b` is never changed from `true`; the colours give every edge ends of
   * different colours.
   */
  method Bipartite<T(!new)>(adj: Adjacency<T>, vertexes: set<T>, ghost side: map<T, bool>)
    returns (b: bool, colour: map<T, Colour>)
    requires Symmetric(adj) && ProperColouring(adj, side) && Nodes(adj) <= vertexes
    ensures b
    ensures colour.Keys == vertexes && ProperlyPainted(adj, vertexes, colour)
  {
    b := true;
    colour := map x | x in vertexes :: Uncoloured;
    var visited: set<T> := {};
    var left := vertexes;
    while left != {}
      invariant left <= vertexes && visited <= vertexes && vertexes <= visited + left
      invariant colour.Keys == vertexes && PreState(adj, visited, {})
      invariant forall x :: x in vertexes && x !in visited ==> colour[x] == Uncoloured
      invariant ProperlyPainted(adj, visited, colour)
      decreases left
    {
      var vertex :| vertex in left;
      left := left - {vertex};
      if vertex !in visited {
        ghost var start, colour0 := visited, colour;
        var clash;
        visited, colour, clash := Bfs(adj, vertexes, vertex, visited, colour, side);
        SearchPaintsProperly(adj, side, vertexes, vertex, start, colour0, visited, colour);
      }
    }
  }

  /** A colouring that paints every vertex properly shows the graph two-colourable. */
  lemma PaintingColours<T(!new)>(adj: Adjacency<T>, vertexes: set<T>, colour: map<T, Colour>)
    requires Nodes(adj) <= vertexes && ProperlyPainted(adj, vertexes, colour)
    ensures TwoColourable(adj)
  {
    var side := map x | x in colour :: colour[x] == White;
    assert ProperColouring(adj, side);
  }

  /** `comp` is a whole class of vertices under reachability: its members are exactly those its members reach. */
  ghost predicate IsClass<T(!new)>(adj: Adjacency<T>, comp: seq<T>)
  {
    forall x, y :: x in comp ==> (y in comp <==> Reachable(adj, x, y))
  }

  /**
   * The loop of `getConnectedComponents()` over the vertex set, each
   * component listed by `DFS` in the order its vertices are first met.
   */
  method ComponentsOf<T(!new)>(adj: Adjacency<T>, vertexes: set<T>) returns (comps: seq<seq<T>>)
    requires Symmetric(adj) && Nodes(adj) <= vertexes
    ensures Distinct(Flatten(comps)) && Elems(Flatten(comps)) == vertexes
    ensures forall k :: 0 <= k < |comps| ==> comps[k] != [] && IsClass(adj, comps[k])
  {
    var visited: set<T> := {};
    var left := vertexes;
    comps := [];
    while left != {}
      invariant left <= vertexes && visited <= vertexes && vertexes <= visited + left
      invariant Distinct(Flatten(comps)) && Elems(Flatten(comps)) == visited
      invariant PreState(adj, visited, {})
      invariant forall k :: 0 <= k < |comps| ==> comps[k] != [] && IsClass(adj, comps[k])
      decreases left
    {
      var vertex :| vertex in left;
      left := left - {vertex};
      if vertex !in visited {
        ghost var before := visited;
        var component: seq<T>;
        visited, component := PreOrder(adj, vertex, visited, [], {}, vertexes);
        assert component[0..] == component;
        ComponentIsClass(adj, before, visited, vertex, component);
        FlattenAppend(comps, component);
        DistinctAppend(Flatten(comps), component);
        ghost var earlier := comps;
        comps := comps + [component];
        forall k | 0 <= k < |comps|
          ensures comps[k] != [] && IsClass(adj, comps[k])
        {
          if k < |earlier| {
            assert comps[k] == earlier[k];
          }
        }
      }
    }
  }

  /**
   * A search from `root` that grew the closed set `visited` to the closed
   * set `visited'`, meeting only vertices reachable from `root`, met exactly
   * the class of `root` under reachability.
   */
  lemma ComponentIsClass<T(!new)>(adj: Adjacency<T>, visited: set<T>, visited': set<T>, root: T, comp: seq<T>)
    requires Symmetric(adj) && PreState(adj, visited, {}) && PreState(adj, visited', {})
    requires comp != [] && comp[0] == root && Elems(comp) == visited' - visited
    requires forall x :: x in visited' - visited ==> Reachable(adj, root, x)
    ensures IsClass(adj, comp)
  {
    forall x, y | x in comp
      ensures y in comp <==> Reachable(adj, x, y)
    {
      assert x in Elems(comp);
      ReachableBack(adj, root, x);
      if y in comp {
        assert y in Elems(comp);
        ReachableTrans(adj, x, root, y);
      }
      if Reachable(adj, x, y) {
        if y !in visited' {
          Enclosed(adj, x, visited', y);
        }
        if y in visited {
          ReachableBack(adj, x, y);
          Enclosed(adj, y, visited, x);
        }
        assert y in Elems(comp);
      }
    }
  }

  /** In the edge list of a forest every edge has its reverse, so none is unpaired. */
  lemma AllPaired<T(!new)>(edges: seq<Edge<T>>)
    requires forall e :: e in edges ==> Edge(e.v, e.u) in edges
    ensures Unpaired(Elems(edges)) == {}
  {
  }

  /** The edges of `removeEdge(u, v)`: both directions leave the list. */
  function EdgesWithout<T(==)>(edges: seq<Edge<T>>, u: T, v: T): seq<Edge<T>>
  {
    Filter(edges, (e: Edge<T>) => e != Edge(u, v) && e != Edge(v, u))
  }

  /**
   * A forest: the shared graph state of `AbstractGraph`, whose vertex
   * operations and `shortestPath` it inherits, with the union-find
   * structure that refuses cycles.  `side` is a two-colouring of the
   * adjacency that exists in every state; it witnesses bipartiteness.
   */
  class Forest<T(==,!new)> {
    const graph: AbstractGraph<T>
    const dsu: DisjointSetUnion<T>
    ghost var side: map<T, bool>

    ghost predicate Valid()
      reads this, graph, dsu
    {
      dsu.Valid() && ForestState(graph.adj, graph.vertexes, graph.edges, dsu.State(), side)
    }

    /** An empty forest with an empty union-find structure. */
    constructor ()
      ensures Valid() && fresh(graph) && fresh(dsu)
      ensures graph.adj == map[] && graph.vertexes == {} && graph.edges == []
      ensures dsu.parent == map[] && dsu.rank == map[]
    {
      graph := new AbstractGraph();
      dsu := new DisjointSetUnion();
      side := map[];
    }

    /** `addVertex` of the shared graph keeps every forest invariant. */
    method AddVertex(x: T)
      requires Valid()
      modifies graph
      ensures Valid()
      ensures graph.vertexes == old(graph.vertexes) + {x}
      ensures graph.adj == old(graph.adj) && graph.edges == old(graph.edges)
    {
      graph.AddVertex(x);
    }

    /** `removeVertex` of the shared graph keeps every forest invariant; the union-find structure is left as it is. */
    method RemoveVertex(x: T) returns (s: Status)
      requires Valid()
      modifies graph
      ensures Valid()
      ensures x !in old(graph.vertexes) ==> s == Raised(VertexNotFound) && unchanged(graph)
      ensures x in old(graph.vertexes) ==>
        s == Done &&
        graph.vertexes == old(graph.vertexes) - {x} &&
        graph.edges == EdgesAvoiding(old(graph.edges), x) &&
        graph.adj == AdjacencyAvoiding(old(graph.adj), x)
    {
      RemovalKeepsShape(graph.adj, graph.vertexes, graph.edges, x);
      RemovalKeepsTracked(graph.adj, dsu.State(), x);
      RemovalKeepsColouring(graph.adj, side, x);
      s := graph.RemoveVertex(x);
    }

    /**
     * `addEdge(u, v)`: an edge already listed changes nothing.  Otherwise
     * the union-find structure registers both ends and joins their sets;
     * when they already were in one set the edge is refused with
     * `CycleCreated` and the graph is unchanged, which always happens when
     * `u` and `v` are connected (in particular when `u == v`).  An accepted
     * edge is listed in both directions and entered in both adjacency
     * entries.
     */
    method AddEdge(u: T, v: T) returns (s: Status)
      requires Valid()
      modifies this, graph, dsu
      ensures Valid()
      ensures Edge(u, v) in old(graph.edges) ==> s == Done && unchanged(graph) && unchanged(dsu)
      ensures Edge(u, v) !in old(graph.edges) ==>
        dsu.State() == UnionOfRoots(old(dsu.State()), u, v).1 &&
        (s == Done <==> UnionOfRoots(old(dsu.State()), u, v).0)
      ensures Edge(u, v) !in old(graph.edges) && Reachable(old(graph.adj), u, v) ==> s == Raised(CycleCreated)
      ensures s != Done ==> s == Raised(CycleCreated) && unchanged(graph)
      ensures s == Done && Edge(u, v) !in old(graph.edges) ==>
        u != v && !Reachable(old(graph.adj), u, v) &&
        graph.edges == old(graph.edges) + [Edge(u, v), Edge(v, u)] &&
        graph.vertexes == old(graph.vertexes) + {u, v} &&
        graph.adj == AddPair(old(graph.adj), u, v)
    {
      if Edge(u, v) in graph.edges {
        return Done;
      }
      s := Join(u, v);
    }

    /** `addEdge(u, v)` for an edge not yet listed: the union-find decides whether it is accepted. */
    method Join(u: T, v: T) returns (s: Status)
      requires Valid() && Edge(u, v) !in graph.edges
      modifies this, graph, dsu
      ensures Valid()
      ensures dsu.State() == UnionOfRoots(old(dsu.State()), u, v).1
      ensures s == Done <==> UnionOfRoots(old(dsu.State()), u, v).0
      ensures Reachable(old(graph.adj), u, v) ==> s == Raised(CycleCreated)
      ensures s != Done ==> s == Raised(CycleCreated) && unchanged(graph)
      ensures s == Done ==>
        u != v && !Reachable(old(graph.adj), u, v) &&
        graph.edges == old(graph.edges) + [Edge(u, v), Edge(v, u)] &&
        graph.vertexes == old(graph.vertexes) + {u, v} &&
        graph.adj == AddPair(old(graph.adj), u, v)
    {
      ghost var before := dsu.State();
      ConnectedExcluded(graph.adj, before, u, v);
      var ok := dsu.UnionByRoot(u, v);
      if !ok {
        RefusalKeepsTracked(graph.adj, before, u, v);
        return Raised(CycleCreated);
      }
      AcceptedKeepsForest(graph.adj, graph.vertexes, graph.edges, before, side, u, v);
      Accept(u, v, Recoloured(side, Registered(Registered(before, u), v), u, v));
      s := Done;
    }

    /** An edge the union-find accepted joins the graph, and `side'` becomes its two-colouring. */
    method Accept(u: T, v: T, ghost side': map<T, bool>)
      requires dsu.Valid()
      requires ForestState(AddPair(graph.adj, u, v), graph.vertexes + {u, v},
                           graph.edges + [Edge(u, v), Edge(v, u)], dsu.State(), side')
      modifies this, graph
      ensures Valid()
      ensures graph.edges == old(graph.edges) + [Edge(u, v), Edge(v, u)]
      ensures graph.vertexes == old(graph.vertexes) + {u, v}
      ensures graph.adj == AddPair(old(graph.adj), u, v)
    {
      side := side';
      Attach(u, v);
    }

    /** Lists an accepted edge in both directions and enters it in both adjacency entries. */
    method Attach(u: T, v: T)
      modifies graph
      ensures graph.edges == old(graph.edges) + [Edge(u, v), Edge(v, u)]
      ensures graph.vertexes == old(graph.vertexes) + {u, v}
      ensures graph.adj == AddPair(old(graph.adj), u, v)
    {
      graph.edges := graph.edges + [Edge(u, v), Edge(v, u)];
      graph.vertexes := graph.vertexes + {u, v};
      graph.adj := AddPair(graph.adj, u, v);
    }

    /**
     * `removeEdge(u, v)`: both directions leave the edge list, the others
     * keep their order; the adjacency map, the vertices and the union-find
     * structure stay as they were.
     */
    method RemoveEdge(u: T, v: T)
      requires Valid()
      modifies graph
      ensures Valid()
      ensures graph.edges == EdgesWithout(old(graph.edges), u, v)
      ensures Elems(graph.edges) == Elems(old(graph.edges)) - {Edge(u, v), Edge(v, u)}
      ensures graph.adj == old(graph.adj) && graph.vertexes == old(graph.vertexes)
    {
      FilterDistinct(graph.edges, (e: Edge<T>) => e != Edge(u, v) && e != Edge(v, u));
      graph.edges := EdgesWithout(graph.edges, u, v);
    }

    /**
     * `isBipartite()`: a breadth-first colouring from every vertex not yet
     * visited.  The verdict the searches would report is assigned only to
     * their own parameter, so the answer is always `true`; it is also the
     * right answer, because a forest is two-colourable, and the searches
     * never meet an edge whose ends share a colour.
     */
    method IsBipartite() returns (b: bool)
      requires Valid()
      ensures b && TwoColourable(graph.adj)
    {
      var colour;
      b, colour := Bipartite(graph.adj, graph.vertexes, side);
      PaintingColours(graph.adj, graph.vertexes, colour);
    }

    /**
     * `getConnectedComponents()`: a depth-first search from every vertex
     * not yet visited, in some order of the vertex set.  The components
     * cover every vertex exactly once, and two vertices share a component
     * exactly when one reaches the other.
     */
    method GetConnectedComponents() returns (comps: seq<seq<T>>)
      requires Valid()
      ensures Distinct(Flatten(comps)) && Elems(Flatten(comps)) == graph.vertexes
      ensures forall k :: 0 <= k < |comps| ==> comps[k] != [] && IsClass(graph.adj, comps[k])
    {
      comps := ComponentsOf(graph.adj, graph.vertexes);
    }

    /**
     * `edgeCount()`: walking the edge list, an edge is counted (and
     * remembered) unless its reverse was remembered before.  Every undirected
     * edge is listed once in each direction, so the count is half the list.
     */
    method EdgeCount() returns (n: int)
      requires Valid()
      ensures 2 * n == |graph.edges|
    {
      n := CountOnce(graph.edges);
      AllPaired(graph.edges);
    }
  }

  /** An accepted edge between different vertices keeps the shape of the edge list and adjacency. */
  lemma NewEdgeKeepsShape<T(!new)>(adj: Adjacency<T>, vertexes: set<T>, edges: seq<Edge<T>>, u: T, v: T)
    requires Undirected(adj, vertexes, edges) && Edge(u, v) !in edges && u != v
    ensures Undirected(AddPair(adj, u, v), vertexes + {u, v}, edges + [Edge(u, v), Edge(v, u)])
  {
    AddPairNodes(adj, u, v);
    assert Edge(v, u) !in edges;
    DistinctAppend(edges, [Edge(u, v), Edge(v, u)]);
  }

  /** An edge whose ends are connected, in particular a loop, is always refused. */
  lemma ConnectedExcluded<T(!new)>(adj: Adjacency<T>, s: Sets<T>, u: T, v: T)
    requires Tracked(adj, s)
    ensures UnionOfRoots(s, u, v).0 ==> u != v && !Reachable(adj, u, v)
  {
    ReachableSelf(adj, u);
    if Reachable(adj, u, v) {
      ConnectedRefused(adj, s, u, v);
    }
  }

  /** An accepted edge keeps all three invariants of a forest. */
  lemma AcceptedKeepsForest<T(!new)>(adj: Adjacency<T>, vertexes: set<T>, edges: seq<Edge<T>>,
                                     s: Sets<T>, side: map<T, bool>, u: T, v: T)
    requires ForestState(adj, vertexes, edges, s, side)
    requires Edge(u, v) !in edges && UnionOfRoots(s, u, v).0
    ensures var t := Registered(Registered(s, u), v);
      WellFormed(t) && RankOrdered(t) && v in t.parent &&
      ForestState(AddPair(adj, u, v), vertexes + {u, v}, edges + [Edge(u, v), Edge(v, u)],
                  UnionOfRoots(s, u, v).1, Recoloured(side, t, u, v))
  {
    ConnectedExcluded(adj, s, u, v);
    UnionKeepsTracked(adj, s, u, v);
    UnionKeepsColouring(adj, s, side, u, v);
    NewEdgeKeepsShape(adj, vertexes, edges, u, v);
  }
}
