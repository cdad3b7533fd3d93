/**
 * The weighted adjacency model of `Network` (src/AbstractWeightedGraph.java):
 * a vertex set, an adjacency map from a vertex to its `(successor, weight)`
 * pairs, and a list of weighted edges; vertex insertion and removal, degree,
 * and the queue-based Bellman-Ford relaxation (SPFA) of `shortestPath`.
 */
module WeightedGraphs {
  import opened Outcomes
  import opened Sequences
  import opened Edges
  import opened Filters

  /** `INF` (src/WeightedGraph.java:20): the distance of a vertex not yet reached. */
  const INF: nat := 0x3F3F3F3F

  /** A `Pair<T, Integer>` of an adjacency entry: a successor and the weight of the edge to it. */
  type Hop<T> = (T, int)

  type WAdjacency<T> = map<T, set<Hop<T>>>

  /** No edge of the adjacency has a negative weight. */
  predicate NonNegative<T(==)>(adj: WAdjacency<T>)
  {
    forall a, h :: a in adj && h in adj[a] ==> h.1 >= 0
  }

  /** Every successor is a vertex with an adjacency entry of its own, as `Network.addEdge` arranges. */
  predicate Closed<T(==)>(adj: WAdjacency<T>, vertexes: set<T>)
  {
    forall a, h :: a in adj && h in adj[a] ==> h.0 in adj && h.0 in vertexes
  }

  /** The vertex a walk from `a` has reached after its first `i` hops. */
  function At<T>(a: T, hops: seq<Hop<T>>, i: nat): T
    requires i <= |hops|
  {
    if i == 0 then a else hops[i - 1].0
  }

  /** Where a walk from `a` ends. */
  function End<T>(a: T, hops: seq<Hop<T>>): T
  {
    At(a, hops, |hops|)
  }

  /** A walk from `a`: every hop is an adjacency pair of the vertex it leaves. */
  predicate IsWalk<T(==)>(adj: WAdjacency<T>, a: T, hops: seq<Hop<T>>)
  {
    forall i :: 0 <= i < |hops| ==> At(a, hops, i) in adj && hops[i] in adj[At(a, hops, i)]
  }

  /** The total weight of a walk. */
  function Weight<T>(hops: seq<Hop<T>>): int
  {
    if hops == [] then 0 else Weight(hops[..|hops| - 1]) + hops[|hops| - 1].1
  }

  /** A walk extended by a pair of the vertex it ends at is a walk one hop longer. */
  lemma WalkExtend<T>(adj: WAdjacency<T>, a: T, hops: seq<Hop<T>>, h: Hop<T>)
    requires IsWalk(adj, a, hops) && End(a, hops) in adj && h in adj[End(a, hops)]
    ensures IsWalk(adj, a, hops + [h]) && End(a, hops + [h]) == h.0
    ensures Weight(hops + [h]) == Weight(hops) + h.1
  {
    var r := hops + [h];
    assert r[..|r| - 1] == hops;
    forall i | 0 <= i < |r|
      ensures At(a, r, i) in adj && r[i] in adj[At(a, r, i)]
    {
      if i < |hops| {
        assert At(a, r, i) == At(a, hops, i);
      }
    }
  }

  /** On non-negative weights no walk weighs less than nothing. */
  lemma {:induction false} WeightNonNegative<T>(adj: WAdjacency<T>, a: T, hops: seq<Hop<T>>)
    requires NonNegative(adj) && IsWalk(adj, a, hops)
    ensures Weight(hops) >= 0
    decreases |hops|
  {
    if hops != [] {
      var init := hops[..|hops| - 1];
      assert IsWalk(adj, a, init) by {
        forall i | 0 <= i < |init|
          ensures At(a, init, i) in adj && init[i] in adj[At(a, init, i)]
        {
          assert At(a, init, i) == At(a, hops, i);
        }
      }
      WeightNonNegative(adj, a, init);
      var k := |hops| - 1;
      assert At(a, hops, k) in adj && hops[k] in adj[At(a, hops, k)];
    }
  }

  /** Some element of a non-empty set. */
  ghost function Pick<T>(s: set<T>): (x: T)
    requires s != {}
    ensures x in s
  {
    var x :| x in s; x
  }

  /** The sum of the values of a map of distances. */
  ghost function Total<T>(d: map<T, nat>): nat
    decreases |d|
  {
    if |d| == 0 then 0
    else
      var k := Pick(d.Keys);
      assert |d - {k}| < |d| by {
        assert (d - {k}).Keys == d.Keys - {k};
      }
      d[k] + Total(d - {k})
  }

  /** Any key can be taken out of the sum first. */
  lemma {:induction false} TotalPick<T>(d: map<T, nat>, k: T)
    requires k in d
    ensures Total(d) == d[k] + Total(d - {k})
    decreases |d|
  {
    var j := Pick(d.Keys);
    assert Total(d) == d[j] + Total(d - {j});
    if j != k {
      assert (d - {j}).Keys == d.Keys - {j};
      assert (d - {k}).Keys == d.Keys - {k};
      TotalPick(d - {j}, k);
      TotalPick(d - {k}, j);
      assert (d - {j}) - {k} == (d - {k}) - {j};
    }
  }

  /**
   * Every vertex `y` that is not exempt and has been reached has all its
   * edges relaxed: each successor has a distance, at most `y`'s plus the
   * weight.
   */
  ghost predicate Settled<T(!new)>(adj: WAdjacency<T>, dist: map<T, nat>, exempt: set<T>)
  {
    forall y :: y in dist && y !in exempt && dist[y] < INF ==>
      y in adj && forall h :: h in adj[y] ==> h.0 in dist && dist[h.0] <= dist[y] + h.1
  }

  /**
   * The facts about SPFA's variables that hold at every step: `dist` has
   * an entry for each vertex and the source, the source's is 0 and none is
   * above `INF`; `inQueue` is the set of the queue's vertices, which have
   * all been reached; and every reached vertex has a walk from the source
   * whose weight is its distance.
   */
  ghost predicate Relaxing<T(!new)>(adj: WAdjacency<T>, u: T, keys: set<T>, dist: map<T, nat>, q: seq<T>,
                                    inQueue: set<T>, walk: map<T, seq<Hop<T>>>)
  {
    dist.Keys == keys && u in keys && dist[u] == 0 &&
    (forall x :: x in dist ==> dist[x] <= INF) &&
    Distinct(q) && inQueue == Elems(q) &&
    (forall x :: x in inQueue ==> x in dist && dist[x] < INF) &&
    (forall x :: x in dist && dist[x] < INF ==>
      x in walk && IsWalk(adj, u, walk[x]) && End(u, walk[x]) == x && Weight(walk[x]) == dist[x])
  }

  /** Dropping the last pair of a walk leaves a walk. */
  lemma WalkPrefix<T>(adj: WAdjacency<T>, a: T, hops: seq<Hop<T>>)
    requires IsWalk(adj, a, hops) && hops != []
    ensures IsWalk(adj, a, hops[..|hops| - 1])
  {
    var init := hops[..|hops| - 1];
    forall i | 0 <= i < |init|
      ensures At(a, init, i) in adj && init[i] in adj[At(a, init, i)]
    {
      assert At(a, init, i) == At(a, hops, i);
    }
  }

  /**
   * Once every reached vertex is settled, no walk from the source to a
   * vertex weighs less than that vertex's distance, unless it weighs at
   * least `INF`.
   */
  lemma {:induction false} NoShorterWalk<T(!new)>(adj: WAdjacency<T>, u: T, dist: map<T, nat>, hops: seq<Hop<T>>)
    requires NonNegative(adj) && IsWalk(adj, u, hops)
    requires u in dist && dist[u] == 0 && (forall x :: x in dist ==> dist[x] <= INF)
    requires Settled(adj, dist, {})
    ensures (End(u, hops) in dist && dist[End(u, hops)] <= Weight(hops)) || Weight(hops) >= INF
    decreases |hops|
  {
    if hops != [] {
      var k := |hops| - 1;
      var init := hops[..k];
      assert hops == init + [hops[k]];
      WalkPrefix(adj, u, hops);
      NoShorterWalk(adj, u, dist, init);
      var y := End(u, init);
      assert At(u, hops, k) == y;
      WalkExtend(adj, u, init, hops[k]);
    }
  }

  /**
   * The invariant of the loop over `adj.get(x)`, whose pairs not in `rest`
   * have been looked at: the SPFA facts hold, every vertex but `x` and the
   * queued ones is settled, and so is each pair of `x` already looked at;
   * `x`'s own distance is as it was; no distance has grown; the queue has
   * only grown at the back, by vertices whose distance fell.
   */
  ghost predicate Round<T(!new)>(adj: WAdjacency<T>, u: T, keys: set<T>, x: T, rest: set<Hop<T>>,
                                 dist0: map<T, nat>, q0: seq<T>, dist: map<T, nat>, q: seq<T>,
                                 inQueue: set<T>, walk: map<T, seq<Hop<T>>>)
  {
    x in adj && rest <= adj[x] && x in dist0 && dist.Keys == dist0.Keys &&
    Relaxing(adj, u, keys, dist, q, inQueue, walk) && Settled(adj, dist, inQueue + {x}) &&
    x !in inQueue && dist[x] == dist0[x] && dist[x] < INF &&
    (forall h :: h in adj[x] && h !in rest ==> h.0 in dist && dist[h.0] <= dist[x] + h.1) &&
    (forall y :: y in dist0 ==> dist[y] <= dist0[y]) &&
    QueueGrown(q0, q, dist0, dist)
  }

  /** The queue has only grown at the back, by vertices whose distance fell. */
  ghost predicate QueueGrown<T>(q0: seq<T>, q: seq<T>, dist0: map<T, nat>, dist: map<T, nat>)
  {
    |q0| <= |q| && q[..|q0|] == q0 && forall y :: y in q[|q0|..] ==> y in dist && y in dist0 && dist[y] < dist0[y]
  }

  /** Lowering the distance of `s`, and queueing it if it was not queued, keeps the queue grown as required. */
  lemma QueueGrownStep<T>(q0: seq<T>, q: seq<T>, dist0: map<T, nat>, dist: map<T, nat>, s: T, n: nat, queued: bool)
    requires QueueGrown(q0, q, dist0, dist) && s in dist && s in dist0 && n < dist[s] <= dist0[s]
    requires dist.Keys == dist0.Keys
    ensures QueueGrown(q0, if queued then q else q + [s], dist0, dist[s := n])
  {
    var q' := if queued then q else q + [s];
    var d := dist[s := n];
    assert q'[..|q0|] == q0 by {
      assert q[..|q0|] == q0;
    }
    forall y | y in q'[|q0|..]
      ensures y in d && y in dist0 && d[y] < dist0[y]
    {
      if y != s {
        assert y in q[|q0|..];
      }
    }
  }

  /** A pair that does not improve its successor's distance only joins the pairs looked at. */
  lemma RoundKeep<T(!new)>(adj: WAdjacency<T>, u: T, keys: set<T>, x: T, rest: set<Hop<T>>,
                           dist0: map<T, nat>, q0: seq<T>, dist: map<T, nat>, q: seq<T>,
                           inQueue: set<T>, walk: map<T, seq<Hop<T>>>, h: Hop<T>)
    requires Round(adj, u, keys, x, rest, dist0, q0, dist, q, inQueue, walk)
    requires h in rest && h.0 in dist && dist[h.0] <= dist[x] + h.1
    ensures Round(adj, u, keys, x, rest - {h}, dist0, q0, dist, q, inQueue, walk)
  {
  }

  /** Lowering the distance of `s` through `x`, with the walk to `x` extended by the pair, keeps the SPFA facts. */
  lemma ImproveKeepsRelaxing<T(!new)>(adj: WAdjacency<T>, u: T, keys: set<T>, x: T, dist: map<T, nat>, q: seq<T>,
                                      inQueue: set<T>, walk: map<T, seq<Hop<T>>>, h: Hop<T>)
    requires NonNegative(adj) && Relaxing(adj, u, keys, dist, q, inQueue, walk)
    requires x in adj && h in adj[x] && x in dist && dist[x] < INF
    requires h.0 in dist && dist[h.0] > dist[x] + h.1
    ensures var s := h.0;
      var q' := if s in inQueue then q else q + [s];
      Relaxing(adj, u, keys, dist[s := dist[x] + h.1], q', inQueue + {s}, walk[s := walk[x] + [h]])
  {
    var s := h.0;
    WalkExtend(adj, u, walk[x], h);
    if s !in inQueue {
      DistinctAppend(q, [s]);
    }
  }

  /** After the same step every vertex but `x` and the queued ones is still settled. */
  lemma ImproveKeepsSettled<T(!new)>(adj: WAdjacency<T>, x: T, dist: map<T, nat>, inQueue: set<T>, h: Hop<T>)
    requires Settled(adj, dist, inQueue + {x}) && x in dist
    requires h.0 in dist && dist[h.0] > dist[x] + h.1 && h.1 >= 0
    ensures Settled(adj, dist[h.0 := dist[x] + h.1], inQueue + {h.0} + {x})
  {
  }

  /** An improving pair joins the pairs looked at, after the improvement. */
  lemma RoundImprove<T(!new)>(adj: WAdjacency<T>, u: T, keys: set<T>, x: T, rest: set<Hop<T>>,
                              dist0: map<T, nat>, q0: seq<T>, dist: map<T, nat>, q: seq<T>,
                              inQueue: set<T>, walk: map<T, seq<Hop<T>>>, h: Hop<T>,
                              d: map<T, nat>, q': seq<T>, inQueue': set<T>, walk': map<T, seq<Hop<T>>>)
    requires NonNegative(adj) && Round(adj, u, keys, x, rest, dist0, q0, dist, q, inQueue, walk)
    requires h in rest && h.0 in dist && dist[h.0] > dist[x] + h.1
    requires d == dist[h.0 := dist[x] + h.1] && walk' == walk[h.0 := walk[x] + [h]]
    requires q' == (if h.0 in inQueue then q else q + [h.0]) && inQueue' == inQueue + {h.0}
    ensures Round(adj, u, keys, x, rest - {h}, dist0, q0, d, q', inQueue', walk')
  {
    var s := h.0;
    assert h.1 >= 0;
    assert s != x;
    ImproveKeepsRelaxing(adj, u, keys, x, dist, q, inQueue, walk, h);
    assert Relaxing(adj, u, keys, d, q', inQueue', walk');
    ImproveKeepsSettled(adj, x, dist, inQueue, h);
    assert inQueue + {s} + {x} == inQueue' + {x};
    assert Settled(adj, d, inQueue' + {x});
    assert x !in inQueue' && d[x] == dist0[x];
    forall h' | h' in adj[x] && h' !in rest - {h}
      ensures h'.0 in d && d[h'.0] <= d[x] + h'.1
    {
      if h' != h {
        assert h'.0 in dist && dist[h'.0] <= dist[x] + h'.1;
      }
    }
    assert forall y :: y in dist0 ==> d[y] <= dist0[y];
    QueueGrownStep(q0, q, dist0, dist, s, dist[x] + h.1, s in inQueue);

  }

  /**
   * The loop over `adj.get(x)` of one SPFA round: each successor whose
   * distance improves through `x` is given the shorter distance and, unless
   * it is already queued, joins the back of the queue.  A successor with no
   * distance entry stops the loop (`ok` false): Java unboxes the `null` that
   * `dist.get` returns and throws.
   */
  method RelaxFrom<T(==,!new)>(adj: WAdjacency<T>, ghost u: T, ghost keys: set<T>, x: T, dist: map<T, nat>,
                               q: seq<T>, inQueue: set<T>, ghost walk: map<T, seq<Hop<T>>>)
    returns (ok: bool, dist': map<T, nat>, q': seq<T>, inQueue': set<T>, ghost walk': map<T, seq<Hop<T>>>)
    requires NonNegative(adj) && x in adj && x in dist && dist[x] < INF && x !in inQueue
    requires Relaxing(adj, u, keys, dist, q, inQueue, walk) && Settled(adj, dist, inQueue + {x})
    ensures !ok ==> exists h :: h in adj[x] && h.0 !in dist
    ensures ok ==> Relaxing(adj, u, keys, dist', q', inQueue', walk') && Settled(adj, dist', inQueue')
    ensures ok ==> Lowered(dist, dist') && QueueGrown(q, q', dist, dist')
  {
    ok, dist', q', inQueue', walk' := true, dist, q, inQueue, walk;
    var rest := adj[x];
    while rest != {}
      invariant Round(adj, u, keys, x, rest, dist, q, dist', q', inQueue', walk')
      decreases rest
    {
      var h :| h in rest;
      ok, dist', q', inQueue', walk' := Look(adj, u, keys, x, rest, dist, q, dist', q', inQueue', walk', h);
      if !ok {
        return;
      }
      rest := rest - {h};
    }
    RoundEnds(adj, u, keys, x, dist, q, dist', q', inQueue', walk');
  }

  /** One pass of the loop over `adj.get(x)`: the pair `h` is looked at, and relaxed if it improves its successor. */
  method Look<T(==,!new)>(adj: WAdjacency<T>, ghost u: T, ghost keys: set<T>, x: T, ghost rest: set<Hop<T>>,
                          ghost dist0: map<T, nat>, ghost q0: seq<T>, dist: map<T, nat>, q: seq<T>,
                          inQueue: set<T>, ghost walk: map<T, seq<Hop<T>>>, h: Hop<T>)
    returns (ok: bool, dist': map<T, nat>, q': seq<T>, inQueue': set<T>, ghost walk': map<T, seq<Hop<T>>>)
    requires NonNegative(adj) && Round(adj, u, keys, x, rest, dist0, q0, dist, q, inQueue, walk)
    requires h in rest
    ensures !ok ==> h in adj[x] && h.0 !in dist0
    ensures ok ==> Round(adj, u, keys, x, rest - {h}, dist0, q0, dist', q', inQueue', walk')
  {
    var s := h.0;
    if s !in dist {
      return false, dist, q, inQueue, walk;
    }
    if dist[s] > dist[x] + h.1 {
      dist' := dist[s := dist[x] + h.1];
      walk' := walk[s := walk[x] + [h]];
      q' := if s in inQueue then q else q + [s];
      inQueue' := inQueue + {s};
      RoundImprove(adj, u, keys, x, rest, dist0, q0, dist, q, inQueue, walk, h, dist', q', inQueue', walk');
    } else {
      RoundKeep(adj, u, keys, x, rest, dist0, q0, dist, q, inQueue, walk, h);
      dist', q', inQueue', walk' := dist, q, inQueue, walk;
    }
    ok := true;
  }

  /** No distance has grown. */
  ghost predicate Lowered<T>(dist: map<T, nat>, dist': map<T, nat>)
  {
    dist'.Keys == dist.Keys && forall y :: y in dist ==> dist'[y] <= dist[y]
  }

  /** Distances that have not grown have no larger a sum, and a smaller one once any has fallen. */
  lemma {:induction false} TotalMono<T>(d: map<T, nat>, d': map<T, nat>)
    requires Lowered(d, d')
    ensures Total(d') <= Total(d)
    ensures d' != d ==> Total(d') < Total(d)
    decreases |d|
  {
    if |d| == 0 {
      assert d'.Keys == {};
      assert d' == d;
    } else {
      var k := Pick(d.Keys);
      assert Total(d) == d[k] + Total(d - {k});
      TotalPick(d', k);
      var r, r' := d - {k}, d' - {k};
      assert r.Keys == d.Keys - {k};
      assert Lowered(r, r');
      TotalMono(r, r');
      if d'[k] == d[k] && r' == r {
        assert d' == d by {
          forall y | y in d
            ensures d'[y] == d[y]
          {
            if y != k {
              assert r[y] == d[y] && r'[y] == d'[y];
            }
          }
        }
      }
    }
  }

  /** The first vertex queued beyond `q0` has had its distance lowered. */
  lemma GrownTail<T>(q0: seq<T>, q: seq<T>, dist0: map<T, nat>, dist: map<T, nat>)
    requires QueueGrown(q0, q, dist0, dist) && |q| > |q0|
    ensures q[|q0|] in dist && q[|q0|] in dist0 && dist[q[|q0|]] < dist0[q[|q0|]]
  {
    assert q[|q0|] in q[|q0|..];
  }

  /**
   * One vertex's relaxation either lowers the sum of the distances or
   * changes nothing: the queue only grows by vertices whose distance fell.
   */
  lemma LoweredTotal<T>(dist0: map<T, nat>, dist: map<T, nat>, q0: seq<T>, q: seq<T>)
    requires Lowered(dist0, dist) && QueueGrown(q0, q, dist0, dist)
    ensures Total(dist) < Total(dist0) || (dist == dist0 && q == q0)
  {
    TotalMono(dist0, dist);
    if dist == dist0 {
      if |q| > |q0| {
        GrownTail(q0, q, dist0, dist);
        assert false;
      }
      assert q == q[..|q0|];
    }
  }

  /** Once every pair of `x` has been looked at, `x` is settled too. */
  lemma RoundEnds<T(!new)>(adj: WAdjacency<T>, u: T, keys: set<T>, x: T, dist0: map<T, nat>, q0: seq<T>,
                           dist: map<T, nat>, q: seq<T>, inQueue: set<T>, walk: map<T, seq<Hop<T>>>)
    requires Round(adj, u, keys, x, {}, dist0, q0, dist, q, inQueue, walk)
    ensures Relaxing(adj, u, keys, dist, q, inQueue, walk) && Settled(adj, dist, inQueue)
    ensures Lowered(dist0, dist) && QueueGrown(q0, q, dist0, dist)
  {
  }

  /** Taking the front vertex off the queue leaves it the one vertex exempt from being settled. */
  lemma PopKeeps<T(!new)>(adj: WAdjacency<T>, u: T, keys: set<T>, dist: map<T, nat>, q: seq<T>,
                          inQueue: set<T>, walk: map<T, seq<Hop<T>>>)
    requires Relaxing(adj, u, keys, dist, q, inQueue, walk) && Settled(adj, dist, inQueue) && q != []
    ensures var x := q[0];
      x in dist && dist[x] < INF && x !in inQueue - {x} &&
      Relaxing(adj, u, keys, dist, q[1..], inQueue - {x}, walk) && Settled(adj, dist, (inQueue - {x}) + {x})
  {
    var x := q[0];
    assert q == [x] + q[1..];
    assert Elems(q[1..]) == inQueue - {x};
    assert (inQueue - {x}) + {x} == inQueue;
  }

  /**
   * What SPFA's final distances say, once the queue is empty and every
   * reached vertex is settled: a distance of `INF` means every walk weighs
   * `INF` or more; any other distance is the weight of a walk and no walk
   * weighs less.
   */
  lemma Answer<T(!new)>(adj: WAdjacency<T>, u: T, v: T, keys: set<T>, dist: map<T, nat>, walk: map<T, seq<Hop<T>>>)
    requires NonNegative(adj) && Relaxing(adj, u, keys, dist, [], {}, walk) && Settled(adj, dist, {}) && v in dist
    ensures dist[v] == INF ==> forall hops :: IsWalk(adj, u, hops) && End(u, hops) == v ==> Weight(hops) >= INF
    ensures dist[v] < INF ==>
      (exists hops :: IsWalk(adj, u, hops) && End(u, hops) == v && Weight(hops) == dist[v]) &&
      (forall hops :: IsWalk(adj, u, hops) && End(u, hops) == v ==> Weight(hops) >= dist[v])
  {
    forall hops | IsWalk(adj, u, hops) && End(u, hops) == v
      ensures dist[v] <= Weight(hops) || Weight(hops) >= INF
    {
      NoShorterWalk(adj, u, dist, hops);
    }
    if dist[v] < INF {
      assert IsWalk(adj, u, walk[v]) && End(u, walk[v]) == v && Weight(walk[v]) == dist[v];
    }
  }

  class AbstractWeightedGraph<T(==,!new)> {
    var adj: WAdjacency<T>
    var vertexes: set<T>
    var edges: seq<WeightedEdge<T>>

    /** A graph with no vertices, no edges and no adjacency entries. */
    constructor ()
      ensures adj == map[] && vertexes == {} && edges == []
    {
      adj := map[];
      vertexes := {};
      edges := [];
    }

    /** `vertexCount`: the number of vertices. */
    function VertexCount(): (n: nat)
      reads this
      ensures n == |vertexes|
    {
      |vertexes|
    }

    /** `contains(v)`: membership in the vertex set, not in the adjacency map. */
    function Contains(x: T): (b: bool)
      reads this
      ensures b <==> x in vertexes
    {
      x in vertexes
    }

    /**
     * `degree(v)`: absent vertices are refused; otherwise the number of
     * `(successor, weight)` pairs of the entry, and Java's
     * null-dereference exception for a vertex that has none.
     */
    function Degree(x: T): (r: Outcome<nat>)
      reads this
      ensures x !in vertexes <==> r == Thrown(VertexNotFound)
      ensures r.Ok? <==> x in vertexes && x in adj
      ensures r.Ok? ==> r.value == |adj[x]|
    {
      if x !in vertexes then Thrown(VertexNotFound)
      else if x !in adj then Thrown(MissingEntry)
      else Ok(|adj[x]|)
    }

    /** `addVertex(v)`: only the vertex set grows; no adjacency entry is created. */
    method AddVertex(x: T)
      modifies this
      ensures vertexes == old(vertexes) + {x}
      ensures adj == old(adj) && edges == old(edges)
    {
      vertexes := vertexes + {x};
    }

    /**
     * `removeVertex(v)`: an absent vertex is refused and nothing changes;
     * otherwise `v` leaves the vertex set, every edge with `v` as an endpoint
     * leaves the list, and the adjacency map loses `v`'s entry and every pair
     * leading to `v`.
     */
    method RemoveVertex(x: T) returns (s: Status)
      modifies this
      ensures x !in old(vertexes) ==> s == Raised(VertexNotFound) && unchanged(this)
      ensures x in old(vertexes) ==>
        s == Done &&
        vertexes == old(vertexes) - {x} &&
        edges == WEdgesAvoiding(old(edges), x) &&
        adj == WAdjacencyAvoiding(old(adj), x)
    {
      if x !in vertexes {
        return Raised(VertexNotFound);
      }
      vertexes := vertexes - {x};
      edges := WEdgesAvoiding(edges, x);
      adj := WAdjacencyAvoiding(adj, x);
      s := Done;
    }

    /**
     * `shortestPath(u, v)` by SPFA: every vertex starts at `INF` and `u` at
     * 0; the queue starts with `u`; each vertex taken off the queue relaxes
     * its edges.  Java reads `adj.get(vertex)` without a guard, so a queued
     * vertex without an entry (the source first of all) ends in
     * `MissingEntry`, as does a successor or a `v` that has no distance.
     * With non-negative weights the result is the least weight of a walk
     * from `u` to `v`, or -1 when every walk weighs `INF` or more.
     */
    method ShortestPath(u: T, v: T) returns (r: Outcome<int>)
      requires NonNegative(adj)
      ensures u !in adj ==> r == Thrown(MissingEntry)
      ensures r.Thrown? ==> r.failure == MissingEntry
      ensures Closed(adj, vertexes) && u in adj && v in vertexes + {u} ==> r.Ok?
      ensures r.Ok? ==> r.value == -1 || 0 <= r.value < INF
      ensures r == Ok(-1) ==> forall hops :: IsWalk(adj, u, hops) && End(u, hops) == v ==> Weight(hops) >= INF
      ensures r.Ok? && r.value >= 0 ==>
        (exists hops :: IsWalk(adj, u, hops) && End(u, hops) == v && Weight(hops) == r.value) &&
        (forall hops :: IsWalk(adj, u, hops) && End(u, hops) == v ==> Weight(hops) >= r.value)
    {
      var found: Option<map<T, nat>>;
      ghost var walk: map<T, seq<Hop<T>>>;
      found, walk := Distances(adj, vertexes, u);
      if found.None? {
        return Thrown(MissingEntry);
      }
      var dist := found.value;
      if v !in dist {
        return Thrown(MissingEntry);
      }
      Answer(adj, u, v, vertexes + {u}, dist, walk);
      if dist[v] == INF {
        return Ok(-1);
      }
      r := Ok(dist[v]);
    }
  }

  /**
   * The queue loop of `shortestPath(u, v)`: every vertex starts at `INF` and
   * `u` at 0, and the queue starts with `u`.  `None` stands for the
   * `MissingEntry` of a queued vertex or a successor without an entry;
   * the source without one is the first such vertex.  Otherwise no vertex
   * is queued any more and every reached vertex is settled.
   */
  method Distances<T(==,!new)>(adj: WAdjacency<T>, vertexes: set<T>, u: T)
    returns (r: Option<map<T, nat>>, ghost walk: map<T, seq<Hop<T>>>)
    requires NonNegative(adj)
    ensures u !in adj ==> r.None?
    ensures Closed(adj, vertexes) && u in adj ==> r.Some?
    ensures r.Some? ==> Relaxing(adj, u, vertexes + {u}, r.value, [], {}, walk) && Settled(adj, r.value, {})
  {
    ghost var keys := vertexes + {u};
    var dist: map<T, nat> := map x | x in vertexes :: INF;
    dist := dist[u := 0];
    var q := [u];
    var inQueue := {u};
    walk := map[u := []];
    assert Elems(q) == {u};
    while q != []
      invariant Relaxing(adj, u, keys, dist, q, inQueue, walk) && Settled(adj, dist, inQueue)
      invariant Closed(adj, vertexes) && u in adj ==> inQueue <= adj.Keys
      invariant u !in adj ==> q == [u]
      decreases Total(dist), |q|
    {
      var x := q[0];
      PopKeeps(adj, u, keys, dist, q, inQueue, walk);
      q := q[1..];
      inQueue := inQueue - {x};
      if x !in adj {
        return None, walk;
      }
      var ok: bool;
      ghost var dist0, q0 := dist, q;
      ok, dist, q, inQueue, walk := RelaxFrom(adj, u, keys, x, dist, q, inQueue, walk);
      if !ok {
        return None, walk;
      }
      LoweredTotal(dist0, dist, q0, q);
      if Closed(adj, vertexes) && u in adj {
        QueuedHaveEntries(adj, vertexes, u, keys, dist, q, inQueue, walk);
      }
    }
    r := Some(dist);
  }

  /** When every successor has an entry, so has every vertex the queue holds. */
  lemma QueuedHaveEntries<T(!new)>(adj: WAdjacency<T>, vertexes: set<T>, u: T, keys: set<T>, dist: map<T, nat>,
                                   q: seq<T>, inQueue: set<T>, walk: map<T, seq<Hop<T>>>)
    requires Closed(adj, vertexes) && u in adj && Relaxing(adj, u, keys, dist, q, inQueue, walk)
    ensures inQueue <= adj.Keys
  {
    forall y | y in inQueue
      ensures y in adj
    {
      var hops := walk[y];
      if hops != [] {
        var n := |hops| - 1;
        assert At(u, hops, n) in adj && hops[n] in adj[At(u, hops, n)];
      }
    }
  }

  /** `removeVertex`'s edge filter: the edges with neither endpoint equal to `x`. */
  function WEdgesAvoiding<T(==)>(edges: seq<WeightedEdge<T>>, x: T): seq<WeightedEdge<T>>
  {
    Filter(edges, (e: WeightedEdge<T>) => e.u != x && e.v != x)
  }

  /** `removeVertex`'s adjacency rebuild: the entry of `x` dropped and every pair leading to `x` dropped from the rest. */
  function WAdjacencyAvoiding<T(==)>(adj: WAdjacency<T>, x: T): (r: WAdjacency<T>)
    ensures r.Keys == adj.Keys - {x}
  {
    map k | k in adj && k != x :: set h | h in adj[k] && h.0 != x
  }

  /**
   * After `removeVertex(x)` nothing refers to `x`; every edge and every pair
   * that did not involve `x` is still there, the edges in their old order.
   */
  lemma WRemovalPurges<T>(adj: WAdjacency<T>, edges: seq<WeightedEdge<T>>, x: T, a: seq<WeightedEdge<T>>, b: seq<WeightedEdge<T>>)
    requires edges == a + b
    ensures var r := WAdjacencyAvoiding(adj, x);
      x !in r && (forall k, h :: k in r && h in r[k] ==> h.0 != x && h in adj[k]) &&
      (forall k, h :: k in adj && k != x && h in adj[k] && h.0 != x ==> k in r && h in r[k])
    ensures forall e :: e in WEdgesAvoiding(edges, x) <==> e in edges && e.u != x && e.v != x
    ensures WEdgesAvoiding(edges, x) == WEdgesAvoiding(a, x) + WEdgesAvoiding(b, x)
  {
    FilterAppend(a, b, (e: WeightedEdge<T>) => e.u != x && e.v != x);
  }

  /** Removing a vertex keeps the weights non-negative and the adjacency closed over the remaining vertices. */
  lemma RemovalKeepsClosed<T>(adj: WAdjacency<T>, vertexes: set<T>, x: T)
    requires Closed(adj, vertexes)
    ensures Closed(WAdjacencyAvoiding(adj, x), vertexes - {x})
    ensures NonNegative(adj) ==> NonNegative(WAdjacencyAvoiding(adj, x))
  {
  }
}
