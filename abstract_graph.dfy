/**
 * The unweighted adjacency model shared by `DirectedGraph` and `Forest`
 * (src/AbstractGraph.java): a vertex set, an adjacency map and an edge list,
 * with vertex insertion and removal, degree and breadth-first shortest path.
 */
module UnweightedGraphs {
  import opened Outcomes
  import opened Edges
  import opened Sequences
  import opened Paths
  import opened Filters

  /** `removeVertex`'s edge filter: the edges with neither endpoint equal to `x`. */
  function EdgesAvoiding<T(==)>(edges: seq<Edge<T>>, x: T): seq<Edge<T>>
  {
    Filter(edges, (e: Edge<T>) => e.u != x && e.v != x)
  }

  /** `removeVertex`'s adjacency rebuild: the entry of `x` dropped and `x` taken out of every other entry. */
  function AdjacencyAvoiding<T(==)>(adj: Adjacency<T>, x: T): (r: Adjacency<T>)
    ensures r.Keys == adj.Keys - {x}
  {
    map k | k in adj && k != x :: adj[k] - {x}
  }

  /**
   * After `removeVertex(x)` nothing refers to `x`; every edge and every
   * successor that did not involve `x` is still there, the edges in their
   * old order.
   */
  lemma RemovalPurges<T>(adj: Adjacency<T>, edges: seq<Edge<T>>, x: T, a: seq<Edge<T>>, b: seq<Edge<T>>)
    requires edges == a + b
    ensures var r := AdjacencyAvoiding(adj, x);
      x !in r && (forall k :: k in r ==> x !in r[k]) &&
      (forall k, y :: k in adj && k != x && y in adj[k] && y != x ==> k in r && y in r[k])
    ensures forall e :: e in EdgesAvoiding(edges, x) <==> e in edges && e.u != x && e.v != x
    ensures EdgesAvoiding(edges, x) == EdgesAvoiding(a, x) + EdgesAvoiding(b, x)
  {
    FilterAppend(a, b, (e: Edge<T>) => e.u != x && e.v != x);
  }

  /** Every visited vertex sits at its true distance from `u`, `walk` holding a shortest walk to it. */
  ghost predicate Settled<T(!new)>(adj: Adjacency<T>, u: T, dist: map<T, nat>, walk: map<T, seq<T>>)
  {
    u in dist && dist.Keys == walk.Keys &&
    (forall x :: x in walk ==> PathBetween(adj, walk[x], u, x) && |walk[x]| == dist[x] + 1) &&
    (forall x, p :: x in dist && PathBetween(adj, p, u, x) ==> |p| >= dist[x] + 1)
  }

  /** The queue holds distances between `k` and `k + 1` in non-decreasing order. */
  ghost predicate Layered<T>(q: seq<T>, dist: map<T, nat>, k: nat)
  {
    (forall x :: x in q ==> x in dist && k <= dist[x] <= k + 1) &&
    (forall i, j :: 0 <= i < j < |q| ==> dist[q[i]] <= dist[q[j]])
  }

  /**
   * `shortestPath`'s search state: the visited vertices (the keys of `dist`)
   * are the finished ones, the one being expanded (`open`, at distance `k`)
   * and the queued ones; all sit at their true distance, every finished
   * vertex's successors are visited and the queue is layered from `k`.
   */
  ghost predicate Searching<T(!new)>(adj: Adjacency<T>, u: T, dist: map<T, nat>, walk: map<T, seq<T>>,
                                     done: set<T>, open: set<T>, q: seq<T>, k: nat)
  {
    Settled(adj, u, dist, walk) && dist.Keys == done + open + Elems(q) &&
    (forall y :: y in done ==> Succ(adj, y) <= dist.Keys) &&
    (forall y :: y in open ==> y in dist && dist[y] == k) &&
    Layered(q, dist, k)
  }

  /**
   * A walk from `u` to an unvisited vertex leaves the visited set through a
   * vertex that is not finished, so it is at least one edge longer than the
   * distance `k` of the vertex being expanded.
   */
  lemma NoShortcut<T(!new)>(adj: Adjacency<T>, u: T, dist: map<T, nat>, walk: map<T, seq<T>>,
                            done: set<T>, open: set<T>, q: seq<T>, k: nat, p: seq<T>, x: T)
    requires Searching(adj, u, dist, walk, done, open, q, k)
    requires PathBetween(adj, p, u, x) && x !in dist
    ensures |p| >= k + 2
  {
    var i := LeavesSet(adj, p, dist.Keys);
    var y := p[i];
    assert y in open + Elems(q);
    assert PathBetween(adj, p[..i + 1], u, y);
  }

  /** Unreachable: no walk from `u` leaves a visited set whose every member is finished. */
  lemma Enclosed<T(!new)>(adj: Adjacency<T>, u: T, visited: set<T>, v: T)
    requires u in visited && v !in visited
    requires forall y :: y in visited ==> Succ(adj, y) <= visited
    ensures !Reachable(adj, u, v)
  {
    if p :| PathBetween(adj, p, u, v) {
      var i := LeavesSet(adj, p, visited);
    }
  }

  /** The search starts with `u` alone, at distance 0, in the queue. */
  lemma Start<T(!new)>(adj: Adjacency<T>, u: T)
    ensures Searching(adj, u, map[u := 0], map[u := [u]], {}, {}, [u], 0)
  {
    assert Elems([u]) == {u};
    assert PathBetween(adj, [u], u, u);
  }

  /** Taking the head off the queue makes it the vertex being expanded. */
  lemma Pop<T(!new)>(adj: Adjacency<T>, u: T, dist: map<T, nat>, walk: map<T, seq<T>>,
                     done: set<T>, q: seq<T>, k: nat)
    requires Searching(adj, u, dist, walk, done, {}, q, k) && q != []
    ensures q[0] in dist && Searching(adj, u, dist, walk, done, {q[0]}, q[1..], dist[q[0]])
  {
    var k' := dist[q[0]];
    forall x | x in q[1..]
      ensures x in dist && k' <= dist[x] <= k' + 1
    {
      var j :| 0 <= j < |q[1..]| && q[1..][j] == x;
      assert q[j + 1] == x;
    }
    assert q == [q[0]] + q[1..];
    assert Elems(q) == {q[0]} + Elems(q[1..]);
  }

  /**
   * Discovering an unvisited successor `s` of the vertex `w` being expanded,
   * at distance `k + 1`, keeps every distance true and the queue layered.
   */
  lemma Discover<T(!new)>(adj: Adjacency<T>, u: T, dist: map<T, nat>, walk: map<T, seq<T>>,
                          done: set<T>, w: T, q: seq<T>, k: nat, s: T)
    requires Searching(adj, u, dist, walk, done, {w}, q, k)
    requires s in Succ(adj, w) && s !in dist
    ensures Searching(adj, u, dist[s := k + 1], walk[s := walk[w] + [s]], done, {w}, q + [s], k)
  {
    forall p | PathBetween(adj, p, u, s)
      ensures |p| >= k + 2
    {
      NoShortcut(adj, u, dist, walk, done, {w}, q, k, p, s);
    }
    PathExtend(adj, walk[w], u, w, s);
    LayeredAppend(q, dist, k, s);
    assert Elems(q + [s]) == Elems(q) + {s};
  }

  /** A vertex at distance `k + 1` can join the back of a queue layered from `k`. */
  lemma LayeredAppend<T>(q: seq<T>, dist: map<T, nat>, k: nat, s: T)
    requires Layered(q, dist, k) && s !in dist
    ensures Layered(q + [s], dist[s := k + 1], k)
  {
    var dist', q' := dist[s := k + 1], q + [s];
    forall i, j | 0 <= i < j < |q'|
      ensures dist'[q'[i]] <= dist'[q'[j]]
    {
      if j < |q| {
        assert q'[i] == q[i] && q'[j] == q[j];
        assert q[i] in dist && q[j] in dist;
      } else {
        assert q'[i] == q[i] && q[i] in q;
      }
    }
  }

  /** Once all its successors are visited, the vertex being expanded is finished. */
  lemma Finish<T(!new)>(adj: Adjacency<T>, u: T, dist: map<T, nat>, walk: map<T, seq<T>>,
                        done: set<T>, w: T, q: seq<T>, k: nat)
    requires Searching(adj, u, dist, walk, done, {w}, q, k) && Succ(adj, w) <= dist.Keys
    ensures Searching(adj, u, dist, walk, done + {w}, {}, q, k)
  {
  }

  class AbstractGraph<T(==,!new)> {
    var adj: Adjacency<T>
    var vertexes: set<T>
    var edges: seq<Edge<T>>

    /** A graph with no vertices, no edges and no adjacency entries. */
    constructor ()
      ensures adj == map[] && vertexes == {} && edges == []
    {
      adj := map[];
      vertexes := {};
      edges := [];
    }

    /** `vertexCount`: the number of vertices. */
    function VertexCount(): (n: nat)
      reads this
      ensures n == |vertexes|
    {
      |vertexes|
    }

    /** `contains(v)`: membership in the vertex set, not in the adjacency map. */
    function Contains(x: T): (b: bool)
      reads this
      ensures b <==> x in vertexes
    {
      x in vertexes
    }

    /**
     * `degree(v)`: absent vertices are refused; otherwise the size of the
     * adjacency entry, and Java's null-dereference exception when a vertex added
     * by `addVertex` alone has none.
     */
    function Degree(x: T): (r: Outcome<nat>)
      reads this
      ensures x !in vertexes <==> r == Thrown(VertexNotFound)
      ensures r.Ok? <==> x in vertexes && x in adj
      ensures r.Ok? ==> r.value == |adj[x]|
    {
      if x !in vertexes then Thrown(VertexNotFound)
      else if x !in adj then Thrown(MissingEntry)
      else Ok(|adj[x]|)
    }

    /** `addVertex(v)`: only the vertex set grows; no adjacency entry is created. */
    method AddVertex(x: T)
      modifies this
      ensures vertexes == old(vertexes) + {x}
      ensures adj == old(adj) && edges == old(edges)
    {
      vertexes := vertexes + {x};
    }

    /**
     * `removeVertex(v)`: an absent vertex is refused and nothing changes;
     * otherwise `v` leaves the vertex set, every edge with `v` as an endpoint
     * leaves the list and the adjacency map is rebuilt without `v`.
     */
    method RemoveVertex(x: T) returns (s: Status)
      modifies this
      ensures x !in old(vertexes) ==> s == Raised(VertexNotFound) && unchanged(this)
      ensures x in old(vertexes) ==>
        s == Done &&
        vertexes == old(vertexes) - {x} &&
        edges == EdgesAvoiding(old(edges), x) &&
        adj == AdjacencyAvoiding(old(adj), x)
    {
      if x !in vertexes {
        return Raised(VertexNotFound);
      }
      vertexes := vertexes - {x};
      edges := EdgesAvoiding(edges, x);
      adj := AdjacencyAvoiding(adj, x);
      s := Done;
    }

    /**
     * The inner loop of `shortestPath`: every unvisited successor of `w` is
     * visited at distance `k + 1` and joins the back of the queue.
     */
    method Expand(ghost u: T, w: T, visited: set<T>, dist: map<T, nat>, q: seq<T>,
                  ghost walk: map<T, seq<T>>, ghost done: set<T>, ghost k: nat)
      returns (visited': set<T>, dist': map<T, nat>, q': seq<T>, ghost walk': map<T, seq<T>>)
      requires visited == dist.Keys && Searching(adj, u, dist, walk, done, {w}, q, k)
      ensures visited' == dist'.Keys && Searching(adj, u, dist', walk', done, {w}, q', k)
      ensures visited <= visited' <= visited + Succ(adj, w)
      ensures Succ(adj, w) <= visited'
      ensures visited' == visited ==> q' == q
    {
      visited', dist', q', walk' := visited, dist, q, walk;
      if w !in adj {
        return;
      }
      var rest := adj[w];
      while rest != {}
        invariant rest <= adj[w]
        invariant visited' == dist'.Keys && Searching(adj, u, dist', walk', done, {w}, q', k)
        invariant visited <= visited' <= visited + Succ(adj, w)
        invariant adj[w] - rest <= visited'
        invariant visited' == visited ==> q' == q
        decreases rest
      {
        var s :| s in rest;
        rest := rest - {s};
        visited', dist', q', walk' := Visit(u, w, s, visited', dist', q', walk', done, k);
      }
    }

    /** One successor `s` of `w`: visited at distance `k + 1` and queued unless it was visited already. */
    method Visit(ghost u: T, w: T, s: T, visited: set<T>, dist: map<T, nat>, q: seq<T>,
                 ghost walk: map<T, seq<T>>, ghost done: set<T>, ghost k: nat)
      returns (visited': set<T>, dist': map<T, nat>, q': seq<T>, ghost walk': map<T, seq<T>>)
      requires visited == dist.Keys && Searching(adj, u, dist, walk, done, {w}, q, k)
      requires s in Succ(adj, w)
      ensures visited' == dist'.Keys && Searching(adj, u, dist', walk', done, {w}, q', k)
      ensures visited' == visited + {s}
      ensures s in visited ==> q' == q
    {
      visited', dist', q', walk' := visited, dist, q, walk;
      if s !in visited {
        Discover(adj, u, dist, walk, done, w, q, k, s);
        visited' := visited + {s};
        dist' := dist[s := dist[w] + 1];
        walk' := walk[s := walk[w] + [s]];
        q' := q + [s];
      }
    }

    /**
     * One round of `shortestPath`'s loop: the head of the queue leaves it and
     * is either `v`, ending the search with its distance, or is expanded.
     */
    method Round(ghost u: T, v: T, visited: set<T>, dist: map<T, nat>, q: seq<T>,
                 ghost walk: map<T, seq<T>>, ghost done: set<T>, ghost k: nat, ghost universe: set<T>)
      returns (found: bool, d: int, visited': set<T>, dist': map<T, nat>, q': seq<T>,
               ghost walk': map<T, seq<T>>, ghost done': set<T>, ghost k': nat)
      requires q != [] && visited == dist.Keys && visited <= universe && Nodes(adj) <= universe
      requires Searching(adj, u, dist, walk, done, {}, q, k) && v !in done
      ensures found ==> d >= 0 && Reachable(adj, u, v) && IsDistance(adj, u, v, d)
      ensures !found ==>
        visited' == dist'.Keys && visited' <= universe &&
        Searching(adj, u, dist', walk', done', {}, q', k') && v !in done' &&
        visited <= visited' && (visited' == visited ==> |q'| < |q|)
    {
      Pop(adj, u, dist, walk, done, q, k);
      var w := q[0];
      q' := q[1..];
      if w == v {
        assert PathBetween(adj, walk[w], u, v);
        return true, dist[w], visited, dist, q', walk, done, k;
      }
      k' := dist[w];
      visited', dist', q', walk' := Expand(u, w, visited, dist, q', walk, done, k');
      SuccInNodes(adj, w);
      Finish(adj, u, dist', walk', done, w, q', k');
      done' := done + {w};
      found, d := false, -1;
    }

    /**
     * `shortestPath(u, v)`: breadth-first search from `u`, checking each
     * vertex against `v` as it leaves the queue.  The result is the fewest
     * edges of any walk from `u` to `v`, and -1 exactly when there is none;
     * `shortestPath(u, u)` is 0 even for a `u` outside the graph.
     */
    method ShortestPath(u: T, v: T) returns (d: int)
      ensures d >= -1
      ensures d == -1 <==> !Reachable(adj, u, v)
      ensures d >= 0 ==> IsDistance(adj, u, v, d)
    {
      var visited: set<T> := {u};
      var dist: map<T, nat> := map[u := 0];
      var q: seq<T> := [u];
      ghost var walk: map<T, seq<T>> := map[u := [u]];
      ghost var done: set<T> := {};
      ghost var k: nat := 0;
      ghost var universe := Nodes(adj) + {u};
      Start(adj, u);
      while q != []
        invariant visited == dist.Keys && visited <= universe && Nodes(adj) <= universe
        invariant Searching(adj, u, dist, walk, done, {}, q, k) && v !in done
        decreases |universe| - |visited|, |q|
      {
        var found: bool;
        ghost var before := visited;
        found, d, visited, dist, q, walk, done, k := Round(u, v, visited, dist, q, walk, done, k, universe);
        if found {
          return;
        }
        NoLarger(visited, universe);
        if visited != before {
          GrowsStrictly(before, visited);
        }
      }
      Enclosed(adj, u, visited, v);
      d := -1;
    }
  }
}
