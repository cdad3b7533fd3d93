/**
 * The `EdmondsKarp` helper of `Network` (src/Network.java:290-386): a
 * residual graph built from the network's adjacency, a breadth-first search
 * for an augmenting path, and the loop of `maxFlow` that pushes the
 * bottleneck along each path found until none is left.
 *
 * Java keeps the residual edges as mutable objects that the parent map and
 * the adjacency lists share.  Here an edge is a value, and the parent map
 * records where its edge lives: the vertex whose list holds it and its index
 * there.  Updating "the parent edge" updates the list entry at that place.
 */
module MaxFlows {
  import opened Outcomes
  import opened Sequences
  import opened Paths
  import opened UnweightedGraphs
  import opened WeightedGraphs

  /** An `EdmondsKarp.Edge`: tail, head, current flow, capacity, and the index of its paired edge in the head's list. */
  datatype REdge<T> = REdge(u: T, v: T, flow: int, cap: int, rev: nat)

  /** `EdmondsKarp.adj`: every vertex's list of residual edges. */
  type Residual<T> = map<T, seq<REdge<T>>>

  /** Where an edge lives: the vertex whose list holds it, and its index there. */
  type Loc<T> = (T, nat)

  /** The capacity left on an edge, counted as 0 when the flow has reached it. */
  function Room<T>(e: REdge<T>): nat
  {
    if e.flow < e.cap then e.cap - e.flow else 0
  }

  /** The flow leaving a vertex: the sum of the flows on its list. */
  function FlowSum<T>(s: seq<REdge<T>>): int
  {
    if s == [] then 0 else s[0].flow + FlowSum(s[1..])
  }

  /** The capacity still free on a vertex's list. */
  function Slack<T>(s: seq<REdge<T>>): nat
  {
    if s == [] then 0 else Room(s[0]) + Slack(s[1..])
  }

  /** The positive capacities on a vertex's list. */
  function CapSum<T>(s: seq<REdge<T>>): nat
  {
    if s == [] then 0 else (if s[0].cap > 0 then s[0].cap else 0) + CapSum(s[1..])
  }

  /** Changing one edge of a list, capacity kept, moves the sums by that edge's change. */
  lemma {:induction false} ChangeOne<T>(s: seq<REdge<T>>, i: nat, e: REdge<T>)
    requires i < |s| && e.cap == s[i].cap
    ensures FlowSum(s[i := e]) == FlowSum(s) + e.flow - s[i].flow
    ensures Slack(s[i := e]) == Slack(s) + Room(e) - Room(s[i])
  {
    if i == 0 {
      assert s[i := e][1..] == s[1..];
    } else {
      assert s[i := e][1..] == s[1..][i - 1 := e];
      ChangeOne(s[1..], i - 1, e);
    }
  }

  /** A list without flow has flow sum 0. */
  lemma {:induction false} IdleSum<T>(s: seq<REdge<T>>)
    requires forall j :: 0 <= j < |s| ==> s[j].flow == 0
    ensures FlowSum(s) == 0
  {
    if s != [] {
      IdleSum(s[1..]);
    }
  }

  /** Every edge's flow is within its positive capacity, so a list never carries more than that. */
  lemma {:induction false} WithinCapacity<T>(s: seq<REdge<T>>)
    requires forall j :: 0 <= j < |s| ==> s[j].flow <= s[j].cap || s[j].flow == 0
    ensures FlowSum(s) <= CapSum(s)
  {
    if s != [] {
      WithinCapacity(s[1..]);
    }
  }

  /**
   * The residual graph's pairing: the edge at index `i` of `k`'s list leaves
   * `k`, its `rev` names a place in its head's list, and its flow is within
   * its capacity or zero.  An edge of a self-loop carries no flow.  Any other
   * edge and the edge its `rev` names point at each other, carry opposite
   * flows, and one of them has capacity 0.
   */
  ghost predicate PairedAt<T>(res: Residual<T>, k: T, i: int)
    requires k in res && 0 <= i < |res[k]|
  {
    var e := res[k][i];
    e.u == k && e.v in res && e.rev < |res[e.v]| &&
    (e.flow <= e.cap || e.flow == 0) &&
    if e.v == k then e.flow == 0
    else
      var p := res[e.v][e.rev];
      p.v == k && p.rev == i && p.flow == -e.flow && (e.cap == 0 || p.cap == 0)
  }

  ghost predicate Paired<T(!new)>(res: Residual<T>)
  {
    forall k, i :: k in res && 0 <= i < |res[k]| ==> PairedAt(res, k, i)
  }

  /** No edge carries flow. */
  ghost predicate Idle<T(!new)>(res: Residual<T>)
  {
    forall k, i :: k in res && 0 <= i < |res[k]| ==> res[k][i].flow == 0
  }

  /** `b` has the lists of `a` with only the flows changed. */
  ghost predicate SameShape<T(!new)>(a: Residual<T>, b: Residual<T>)
  {
    a.Keys == b.Keys &&
    (forall k :: k in a ==> |a[k]| == |b[k]|) &&
    (forall k, i :: k in a && 0 <= i < |a[k]| ==> a[k][i].(flow := 0) == b[k][i].(flow := 0))
  }

  /** Every vertex other than the source and the sink passes on as much flow as it receives. */
  ghost predicate Conserved<T(!new)>(res: Residual<T>, source: T, sink: T)
  {
    forall k :: k in res && k != source && k != sink ==> FlowSum(res[k]) == 0
  }

  /** The edges with room left, as an adjacency map from a vertex to the heads of those edges. */
  function ResidualGraph<T(==)>(res: Residual<T>): Adjacency<T>
  {
    map k | k in res :: set j | 0 <= j < |res[k]| && res[k][j].flow < res[k][j].cap :: res[k][j].v
  }

  // ----- construction -----------------------------------------------------

  /** Every source and head of the adjacency has a list of its own, so no lookup fails. */
  predicate Fits<T(==)>(adj: WAdjacency<T>, vertexes: set<T>)
  {
    forall u, h :: u in adj && h in adj[u] ==> u in vertexes && h.0 in vertexes
  }

  /**
   * Each residual edge comes from the adjacency: a forward edge from a pair
   * `(e.v, e.cap)` of its tail, or a back edge of capacity 0 from a pair
   * of its head that names the tail.
   */
  ghost predicate Explained<T(!new)>(adj: WAdjacency<T>, res: Residual<T>)
  {
    forall k, i :: k in res && 0 <= i < |res[k]| ==>
      (k in adj && (res[k][i].v, res[k][i].cap) in adj[k]) ||
      (res[k][i].cap == 0 && res[k][i].v in adj && (exists c :: (k, c) in adj[res[k][i].v]))
  }

  /** The pair `h` of `k` has its forward edge in `k`'s list. */
  ghost predicate Covers<T>(res: Residual<T>, k: T, h: Hop<T>)
  {
    k in res && exists i :: 0 <= i < |res[k]| && res[k][i].v == h.0 && res[k][i].cap == h.1
  }

  /** One pair `(v, cap)` of `u`: a forward edge onto `u`'s list and its back edge onto `v`'s. */
  function Added<T>(res: Residual<T>, u: T, v: T, cap: int): Residual<T>
    requires u in res && v in res
  {
    var forward := REdge(u, v, 0, cap, |res[v]|);
    var back := REdge(v, u, 0, 0, |res[u]|);
    var r := res[u := res[u] + [forward]];
    r[v := r[v] + [back]]
  }

  /**
   * Which adjacency pair a residual edge was built for: the pair `hop` of
   * `tail`, and whether the edge is that pair's forward edge or its back edge.
   */
  datatype Origin<T> = Origin(tail: T, hop: Hop<T>, forward: bool)

  /** The edge at `loc` is the edge its origin calls for: the forward edge in the tail's list, the back edge of capacity 0 in the head's. */
  ghost predicate Matches<T>(res: Residual<T>, loc: Loc<T>, o: Origin<T>)
    requires loc.0 in res && loc.1 < |res[loc.0]|
  {
    var e := res[loc.0][loc.1];
    if o.forward then loc.0 == o.tail && e.v == o.hop.0 && e.cap == o.hop.1
    else loc.0 == o.hop.0 && e.v == o.tail && e.cap == 0
  }

  /**
   * `origin` traces every residual edge back to one of `pairs`: each place
   * in a list has an origin the edge there matches, no two places share an
   * origin, and every pair has both its forward and its back edge.
   */
  ghost predicate Traced<T(!new)>(res: Residual<T>, origin: map<Loc<T>, Origin<T>>, pairs: set<(T, Hop<T>)>)
  {
    (forall loc: Loc<T> :: loc in origin <==> loc.0 in res && loc.1 < |res[loc.0]|) &&
    (forall loc: Loc<T> :: loc in origin ==> (origin[loc].tail, origin[loc].hop) in pairs && Matches(res, loc, origin[loc])) &&
    (forall a: Loc<T>, b: Loc<T> :: a in origin && b in origin && origin[a] == origin[b] ==> a == b) &&
    (forall p, forward: bool :: p in pairs ==> Origin(p.0, p.1, forward) in origin.Values)
  }

  /** Every pair of the adjacency, with its tail. */
  function AllPairs<T>(adj: WAdjacency<T>): set<(T, Hop<T>)>
  {
    set k, h | k in adj && h in adj[k] :: (k, h)
  }

  /** The places `Added` fills: the end of the tail's list and, after it, the end of the head's. */
  function AddedOrigin<T>(res: Residual<T>, origin: map<Loc<T>, Origin<T>>, u: T, v: T, cap: int): map<Loc<T>, Origin<T>>
    requires u in res && v in res
  {
    var back := if u == v then |res[u]| + 1 else |res[v]|;
    origin[(u, |res[u]|) := Origin(u, (v, cap), true)][(v, back) := Origin(u, (v, cap), false)]
  }

  /** Adding a new pair extends the trace by exactly that pair. */
  lemma AddedTraced<T(!new)>(res: Residual<T>, origin: map<Loc<T>, Origin<T>>, pairs: set<(T, Hop<T>)>, u: T, v: T, cap: int)
    requires u in res && v in res && Traced(res, origin, pairs) && (u, (v, cap)) !in pairs
    ensures Traced(Added(res, u, v, cap), AddedOrigin(res, origin, u, v, cap), pairs + {(u, (v, cap))})
  {
    AddedPlaces(res, origin, pairs, u, v, cap);
    AddedMatches(res, origin, pairs, u, v, cap);
    AddedOnce(res, origin, pairs, u, v, cap);
    AddedBoth(res, origin, pairs, u, v, cap);
  }

  /** The new places are the two list ends `Added` fills. */
  lemma AddedPlaces<T(!new)>(res: Residual<T>, origin: map<Loc<T>, Origin<T>>, pairs: set<(T, Hop<T>)>, u: T, v: T, cap: int)
    requires u in res && v in res && Traced(res, origin, pairs)
    ensures var r, o := Added(res, u, v, cap), AddedOrigin(res, origin, u, v, cap);
      forall loc: Loc<T> :: loc in o <==> loc.0 in r && loc.1 < |r[loc.0]|
  {
    var r, o := Added(res, u, v, cap), AddedOrigin(res, origin, u, v, cap);
    var n := |res[u]|;
    var back := if u == v then n + 1 else |res[v]|;
    forall loc: Loc<T>
      ensures loc in o <==> loc.0 in r && loc.1 < |r[loc.0]|
    {
      if loc.0 in r && loc.1 < |r[loc.0]| && loc != (u, n) && loc != (v, back) {
        assert loc.1 < |res[loc.0]|;
      }
    }
  }

  /** Each edge after `Added` matches its origin. */
  lemma AddedMatches<T(!new)>(res: Residual<T>, origin: map<Loc<T>, Origin<T>>, pairs: set<(T, Hop<T>)>, u: T, v: T, cap: int)
    requires u in res && v in res && Traced(res, origin, pairs)
    ensures var r, o := Added(res, u, v, cap), AddedOrigin(res, origin, u, v, cap);
      forall loc: Loc<T> :: loc in o ==>
        (loc.0 in r && loc.1 < |r[loc.0]| &&
         (o[loc].tail, o[loc].hop) in pairs + {(u, (v, cap))} && Matches(r, loc, o[loc]))
  {
    var r, o := Added(res, u, v, cap), AddedOrigin(res, origin, u, v, cap);
    var n := |res[u]|;
    var back := if u == v then n + 1 else |res[v]|;
    assert r[u][n] == REdge(u, v, 0, cap, |res[v]|);
    assert r[v][back] == REdge(v, u, 0, 0, n);
    forall loc: Loc<T> | loc in o
      ensures loc.0 in r && loc.1 < |r[loc.0]|
      ensures (o[loc].tail, o[loc].hop) in pairs + {(u, (v, cap))} && Matches(r, loc, o[loc])
    {
      if loc != (u, n) && loc != (v, back) {
        assert loc in origin;
        assert loc.1 < |res[loc.0]| && r[loc.0][loc.1] == res[loc.0][loc.1];
        assert Matches(res, loc, origin[loc]);
      }
    }
  }

  /** No two places share an origin after `Added`, the new pair being new. */
  lemma AddedOnce<T(!new)>(res: Residual<T>, origin: map<Loc<T>, Origin<T>>, pairs: set<(T, Hop<T>)>, u: T, v: T, cap: int)
    requires u in res && v in res && Traced(res, origin, pairs) && (u, (v, cap)) !in pairs
    ensures var o := AddedOrigin(res, origin, u, v, cap);
      forall a: Loc<T>, b: Loc<T> :: a in o && b in o && o[a] == o[b] ==> a == b
  {
    var o := AddedOrigin(res, origin, u, v, cap);
    var n := |res[u]|;
    var back := if u == v then n + 1 else |res[v]|;
    assert (u, n) !in origin && (v, back) !in origin;
    forall a: Loc<T>, b: Loc<T> | a in o && b in o && o[a] == o[b]
      ensures a == b
    {
      if a in origin && a != (u, n) && a != (v, back) {
        assert (origin[a].tail, origin[a].hop) in pairs;
      }
      if b in origin && b != (u, n) && b != (v, back) {
        assert (origin[b].tail, origin[b].hop) in pairs;
      }
    }
  }

  /** After `Added` every pair, the new one included, has both its edges. */
  lemma AddedBoth<T(!new)>(res: Residual<T>, origin: map<Loc<T>, Origin<T>>, pairs: set<(T, Hop<T>)>, u: T, v: T, cap: int)
    requires u in res && v in res && Traced(res, origin, pairs)
    ensures var o := AddedOrigin(res, origin, u, v, cap);
      forall p, forward: bool :: p in pairs + {(u, (v, cap))} ==> Origin(p.0, p.1, forward) in o.Values
  {
    var o := AddedOrigin(res, origin, u, v, cap);
    var n := |res[u]|;
    var back := if u == v then n + 1 else |res[v]|;
    assert (u, n) !in origin && (v, back) !in origin;
    forall p, forward: bool | p in pairs + {(u, (v, cap))}
      ensures Origin(p.0, p.1, forward) in o.Values
    {
      if p in pairs {
        assert Origin(p.0, p.1, forward) in origin.Values;
        var loc: Loc<T> :| loc in origin && origin[loc] == Origin(p.0, p.1, forward);
        assert o[loc] == Origin(p.0, p.1, forward);
      } else if forward {
        assert o[(u, n)] == Origin(p.0, p.1, forward);
      } else {
        assert o[(v, back)] == Origin(p.0, p.1, forward);
      }
    }
  }

  /** Adding a pair keeps the residual graph paired, idle and explained, and covers the pair. */
  lemma AddedKeeps<T(!new)>(adj: WAdjacency<T>, res: Residual<T>, u: T, v: T, cap: int)
    requires u in res && v in res && u in adj && (v, cap) in adj[u]
    requires Paired(res) && Idle(res) && Explained(adj, res)
    ensures var r := Added(res, u, v, cap);
      r.Keys == res.Keys && (forall k :: k in res ==> res[k] <= r[k]) &&
      Paired(r) && Idle(r) && Explained(adj, r) && Covers(r, u, (v, cap))
  {
    var r := Added(res, u, v, cap);
    var n := |res[u]|;
    assert r[u][n] == REdge(u, v, 0, cap, |res[v]|);
    forall k, i | k in r && 0 <= i < |r[k]|
      ensures PairedAt(r, k, i)
    {
      if i < |res[k]| {
        assert r[k][i] == res[k][i];
        assert PairedAt(res, k, i);
        var e := res[k][i];
        if e.v != k {
          assert r[e.v][e.rev] == res[e.v][e.rev];
        }
      }
    }
    forall k, i | k in r && 0 <= i < |r[k]|
      ensures (k in adj && (r[k][i].v, r[k][i].cap) in adj[k]) ||
        (r[k][i].cap == 0 && r[k][i].v in adj && (exists c :: (k, c) in adj[r[k][i].v]))
    {
      if i < |res[k]| {
        assert r[k][i] == res[k][i];
      } else if !(k == u && i == n) {
        assert r[k][i] == REdge(v, u, 0, 0, n);
      }
    }
  }

  /**
   * The pairs of one adjacency entry, in the order the set hands them out;
   * Java's `this.adj.get(v).size()` and `this.adj.get(u).size()` throw when
   * `v` or `u` has no list.
   */
  method AddRow<T(==,!new)>(adj: WAdjacency<T>, vertexes: set<T>, u: T, res: Residual<T>,
                            ghost origin: map<Loc<T>, Origin<T>>, ghost done: set<(T, Hop<T>)>)
    returns (ok: bool, res': Residual<T>, ghost origin': map<Loc<T>, Origin<T>>)
    requires u in adj && res.Keys == vertexes && Paired(res) && Idle(res) && Explained(adj, res)
    requires Traced(res, origin, done) && forall p :: p in done ==> p.0 != u
    ensures !ok ==> exists h :: h in adj[u] && (u !in vertexes || h.0 !in vertexes)
    ensures ok ==> res'.Keys == vertexes && Paired(res') && Idle(res') && Explained(adj, res')
    ensures ok ==> forall k :: k in res ==> res[k] <= res'[k]
    ensures ok ==> forall h :: h in adj[u] ==> u in vertexes && h.0 in vertexes && Covers(res', u, h)
    ensures ok ==> Traced(res', origin', done + RowPairs(adj, u))
  {
    res', origin' := res, origin;
    var pairs := adj[u];
    while pairs != {}
      invariant pairs <= adj[u]
      invariant RowState(adj, vertexes, u, res, res', origin', done, pairs)
      decreases pairs
    {
      var h :| h in pairs;
      var added;
      added, res', origin' := AddHop(adj, vertexes, u, res, res', origin', done, pairs, h);
      pairs := pairs - {h};
      if !added {
        return false, res', origin';
      }
    }
    RowDone(adj, u, done);
    ok := true;
  }

  /** The state of `AddRow` with the pairs in `pairs` still to add. */
  ghost predicate RowState<T(!new)>(adj: WAdjacency<T>, vertexes: set<T>, u: T, res: Residual<T>, res': Residual<T>,
                                     origin': map<Loc<T>, Origin<T>>, done: set<(T, Hop<T>)>, pairs: set<Hop<T>>)
    requires u in adj
  {
    res'.Keys == vertexes && Paired(res') && Idle(res') && Explained(adj, res') &&
    (forall k :: k in res ==> k in res' && res[k] <= res'[k]) &&
    (forall h :: h in adj[u] && h !in pairs ==> u in vertexes && h.0 in vertexes && Covers(res', u, h)) &&
    Traced(res', origin', SeenPairs(adj, u, done, pairs))
  }

  /**
   * One turn of the loop of `AddRow`: the pair `h` of `u` adds its forward
   * and back edges, or, when `h`'s head or `u` has no list, the row stops.
   */
  method AddHop<T(==,!new)>(adj: WAdjacency<T>, vertexes: set<T>, u: T, res: Residual<T>, res': Residual<T>,
                             ghost origin': map<Loc<T>, Origin<T>>, ghost done: set<(T, Hop<T>)>, pairs: set<Hop<T>>, h: Hop<T>)
    returns (added: bool, res'': Residual<T>, ghost origin'': map<Loc<T>, Origin<T>>)
    requires u in adj && h in pairs && pairs <= adj[u] && forall p :: p in done ==> p.0 != u
    requires RowState(adj, vertexes, u, res, res', origin', done, pairs)
    ensures !added <==> u !in vertexes || h.0 !in vertexes
    ensures added ==> RowState(adj, vertexes, u, res, res'', origin'', done, pairs - {h})
  {
    RowStep(adj, u, done, pairs, h);
    ghost var seen := SeenPairs(adj, u, done, pairs);
    var v, cap := h.0, h.1;
    if v !in res' || u !in res' {
      return false, res', origin';
    }
    AddedKeeps(adj, res', u, v, cap);
    AddedTraced(res', origin', seen, u, v, cap);
    origin'' := AddedOrigin(res', origin', u, v, cap);
    res'' := Added(res', u, v, cap);
    forall g | g in adj[u] && g !in pairs - {h} && g != h
      ensures Covers(res'', u, g)
    {
      assert Covers(res', u, g);
      var i :| 0 <= i < |res'[u]| && res'[u][i].v == g.0 && res'[u][i].cap == g.1;
      assert res''[u][i] == res'[u][i];
    }
    added := true;
  }

  /** The pairs done once the pairs of `u` outside `pairs` are added. */
  function SeenPairs<T>(adj: WAdjacency<T>, u: T, done: set<(T, Hop<T>)>, pairs: set<Hop<T>>): set<(T, Hop<T>)>
    requires u in adj
  {
    done + set h | h in adj[u] && h !in pairs :: (u, h)
  }

  /** Taking the pair `h` of `u` out of `pairs` adds it to the pairs seen, where it was not yet. */
  lemma RowStep<T>(adj: WAdjacency<T>, u: T, done: set<(T, Hop<T>)>, pairs: set<Hop<T>>, h: Hop<T>)
    requires u in adj && h in pairs && pairs <= adj[u] && forall p :: p in done ==> p.0 != u
    ensures (u, h) !in SeenPairs(adj, u, done, pairs)
    ensures SeenPairs(adj, u, done, pairs - {h}) == SeenPairs(adj, u, done, pairs) + {(u, h)}
  {
  }

  /** With no pair of `u` left, every pair of its entry has been seen. */
  lemma RowDone<T>(adj: WAdjacency<T>, u: T, done: set<(T, Hop<T>)>)
    requires u in adj
    ensures SeenPairs(adj, u, done, {}) == done + RowPairs(adj, u)
  {
  }

  /** The pairs of `u`'s entry, with their tail. */
  function RowPairs<T>(adj: WAdjacency<T>, u: T): set<(T, Hop<T>)>
    requires u in adj
  {
    set h | h in adj[u] :: (u, h)
  }

  /**
   * The constructor of `EdmondsKarp`: an empty list for every vertex, then a
   * forward edge of the pair's capacity and a back edge of capacity 0 for
   * every adjacency pair, each `rev` naming the other's index.  A pair whose
   * tail or head is not a vertex ends in `MissingEntry`.  The ghost `origin`
   * traces each residual edge to its pair: every pair has exactly one
   * forward and one back edge, and there is no other edge.
   */
  method Build<T(==,!new)>(adj: WAdjacency<T>, vertexes: set<T>) returns (r: Outcome<Residual<T>>, ghost origin: map<Loc<T>, Origin<T>>)
    ensures r.Ok? <==> Fits(adj, vertexes)
    ensures r.Thrown? ==> r.failure == MissingEntry
    ensures r.Ok? ==> r.value.Keys == vertexes && Paired(r.value) && Idle(r.value) && Explained(adj, r.value)
    ensures r.Ok? ==> forall k, h :: k in adj && h in adj[k] ==> Covers(r.value, k, h)
    ensures r.Ok? ==> Traced(r.value, origin, AllPairs(adj))
  {
    var res: Residual<T> := map v | v in vertexes :: [];
    origin := map[];
    var left := adj.Keys;
    while left != {}
      invariant left <= adj.Keys
      invariant res.Keys == vertexes && Paired(res) && Idle(res) && Explained(adj, res)
      invariant forall k, h :: k in adj && k !in left && h in adj[k] ==>
        k in vertexes && h.0 in vertexes && Covers(res, k, h)
      invariant Traced(res, origin, DonePairs(adj, left))
      decreases left
    {
      var u :| u in left;
      ghost var done := DonePairs(adj, left);
      left := left - {u};
      var ok, res', origin' := AddRow(adj, vertexes, u, res, origin, done);
      if !ok {
        return Thrown(MissingEntry), origin;
      }
      DonePairsGrow(adj, left, u);
      forall k, h | k in adj && k !in left && k != u && h in adj[k]
        ensures Covers(res', k, h)
      {
        assert Covers(res, k, h);
        var i :| 0 <= i < |res[k]| && res[k][i].v == h.0 && res[k][i].cap == h.1;
        assert res'[k][i] == res[k][i];
      }
      res, origin := res', origin';
    }
    assert DonePairs(adj, left) == AllPairs(adj);
    return Ok(res), origin;
  }

  /** The pairs of the entries no longer `left`. */
  function DonePairs<T>(adj: WAdjacency<T>, left: set<T>): set<(T, Hop<T>)>
  {
    set k, h | k in adj && k !in left && h in adj[k] :: (k, h)
  }

  /** Finishing the entry of `u` adds its pairs to those done. */
  lemma DonePairsGrow<T>(adj: WAdjacency<T>, left: set<T>, u: T)
    requires u in adj && u !in left
    ensures DonePairs(adj, left) == DonePairs(adj, left + {u}) + RowPairs(adj, u)
    ensures forall p :: p in DonePairs(adj, left + {u}) ==> p.0 != u
  {
  }

  // ----- searching for an augmenting path --------------------------------

  /**
   * The edge `parent[v]` that discovered `v`: it lies in its tail's list, has
   * room left and leads to `v`; the tail was discovered at a lower level,
   * unless `v` is the source (whose parent is recorded but never followed).
   */
  ghost predicate TreeEdge<T>(res: Residual<T>, source: T, parent: map<T, Loc<T>>, level: map<T, nat>, v: T)
    requires v in parent
  {
    var t, i := parent[v].0, parent[v].1;
    t in level && t in res && i < |res[t]| &&
    res[t][i].u == t && res[t][i].v == v && res[t][i].flow < res[t][i].cap &&
    (v != source ==> v in level && level[t] < level[v])
  }

  /** The search tree: the discovered vertices are the source and the parent map's keys. */
  ghost predicate Tree<T(!new)>(res: Residual<T>, source: T, parent: map<T, Loc<T>>, level: map<T, nat>)
  {
    level.Keys == parent.Keys + {source} && level.Keys <= res.Keys && level[source] == 0 &&
    forall v :: v in parent ==> TreeEdge(res, source, parent, level, v)
  }

  /** Every edge with room left out of `x` leads to a discovered vertex. */
  ghost predicate Expanded<T>(res: Residual<T>, level: map<T, nat>, x: T)
  {
    x in res && forall j :: 0 <= j < |res[x]| && res[x][j].flow < res[x][j].cap ==> res[x][j].v in level
  }

  /** The discovered vertices are closed under edges with room left. */
  ghost predicate Complete<T(!new)>(res: Residual<T>, level: map<T, nat>)
  {
    forall x :: x in level ==> Expanded(res, level, x)
  }

  /** Recording the edge at index `j` of `u`'s list as the parent of its new head keeps the search tree. */
  lemma Discovered<T(!new)>(res: Residual<T>, source: T, parent: map<T, Loc<T>>, level: map<T, nat>, u: T, j: nat)
    requires Paired(res) && Tree(res, source, parent, level) && u in level && j < |res[u]|
    requires res[u][j].v !in parent && res[u][j].flow < res[u][j].cap
    ensures var v := res[u][j].v;
      Tree(res, source, parent[v := (u, j)], if v == source then level else level[v := level[u] + 1])
  {
    assert PairedAt(res, u, j);
    var v := res[u][j].v;
    var parent', level' := parent[v := (u, j)], if v == source then level else level[v := level[u] + 1];
    forall x | x in parent'
      ensures TreeEdge(res, source, parent', level', x)
    {
      if x != v {
        assert TreeEdge(res, source, parent, level, x);
      }
    }
  }

  /**
   * The loop of `haveArgumentedPath` over the list of a vertex `u` just taken
   * off the queue: every head not yet in the parent map, reached by an
   * edge with room left, gets that edge as parent and joins the queue.
   */
  method Expand<T(==,!new)>(res: Residual<T>, source: T, u: T, parent: map<T, Loc<T>>,
                            ghost level: map<T, nat>, q: seq<T>)
    returns (parent': map<T, Loc<T>>, ghost level': map<T, nat>, q': seq<T>)
    requires Paired(res) && Tree(res, source, parent, level) && u in level
    ensures Tree(res, source, parent', level') && Expanded(res, level', u)
    ensures parent.Keys <= parent'.Keys && level.Keys <= level'.Keys
    ensures Elems(q') == Elems(q) + (parent'.Keys - parent.Keys)
    ensures parent'.Keys == parent.Keys ==> q' == q
  {
    parent', level', q' := parent, level, q;
    var j := 0;
    while j < |res[u]|
      invariant 0 <= j <= |res[u]|
      invariant Tree(res, source, parent', level')
      invariant parent.Keys <= parent'.Keys && level.Keys <= level'.Keys
      invariant Elems(q') == Elems(q) + (parent'.Keys - parent.Keys)
      invariant parent'.Keys == parent.Keys ==> q' == q
      invariant forall i :: 0 <= i < j && res[u][i].flow < res[u][i].cap ==> res[u][i].v in level'
    {
      var e := res[u][j];
      if e.v !in parent' && e.flow < e.cap {
        Discovered(res, source, parent', level', u, j);
        assert Elems(q' + [e.v]) == Elems(q') + {e.v};
        parent' := parent'[e.v := (u, j)];
        q' := q' + [e.v];
        if e.v != source {
          level' := level'[e.v := level'[u] + 1];
        }
      }
      j := j + 1;
    }
  }

  /**
   * `haveArgumentedPath(source, sink)`: a breadth-first search from the
   * source over edges with room left, recording in a fresh parent map the
   * edge that first reached each vertex; the answer is whether the sink was
   * reached.  `adj.get(source)` is read without a guard, so the caller
   * checks that the source has a list.
   */
  method Search<T(==,!new)>(res: Residual<T>, source: T, sink: T)
    returns (found: bool, parent: map<T, Loc<T>>, ghost level: map<T, nat>)
    requires Paired(res) && source in res
    ensures Tree(res, source, parent, level) && Complete(res, level)
    ensures found <==> sink in parent
  {
    parent := map[];
    level := map[source := 0];
    var q := [source];
    while q != []
      invariant Tree(res, source, parent, level)
      invariant Elems(q) <= level.Keys
      invariant forall x :: x in level && x !in Elems(q) ==> Expanded(res, level, x)
      decreases res.Keys - parent.Keys, |q|
    {
      var parent', level', q' := Expand(res, source, q[0], parent, level, q[1..]);
      SearchStep(res, source, parent, level, q, parent', level', q');
      parent, level, q := parent', level', q';
    }
    found := sink in parent;
  }

  /** Expanding the head of the queue keeps the search's invariant and shrinks the work left. */
  lemma SearchStep<T(!new)>(res: Residual<T>, source: T, parent: map<T, Loc<T>>, level: map<T, nat>, q: seq<T>,
                            parent': map<T, Loc<T>>, level': map<T, nat>, q': seq<T>)
    requires Tree(res, source, parent, level) && q != [] && Elems(q) <= level.Keys
    requires forall x :: x in level && x !in Elems(q) ==> Expanded(res, level, x)
    requires Tree(res, source, parent', level') && Expanded(res, level', q[0])
    requires parent.Keys <= parent'.Keys && level.Keys <= level'.Keys
    requires Elems(q') == Elems(q[1..]) + (parent'.Keys - parent.Keys)
    requires parent'.Keys == parent.Keys ==> q' == q[1..]
    ensures Elems(q') <= level'.Keys
    ensures forall x :: x in level' && x !in Elems(q') ==> Expanded(res, level', x)
    ensures res.Keys - parent'.Keys < res.Keys - parent.Keys || (parent'.Keys == parent.Keys && |q'| < |q|)
  {
    assert Elems(q) == {q[0]} + Elems(q[1..]);
    forall x | x in level' && x !in Elems(q')
      ensures Expanded(res, level', x)
    {
      if x != q[0] {
        assert x in level && x !in Elems(q);
        assert Expanded(res, level, x);
      }
    }
    if !(parent'.Keys <= parent.Keys) {
      var x :| x in parent'.Keys && x !in parent.Keys;
      assert x in res.Keys - parent.Keys && x !in res.Keys - parent'.Keys;
    }
  }

  /** Every discovered vertex is reachable from the source along edges with room left. */
  lemma {:induction false} TreeReaches<T(!new)>(res: Residual<T>, source: T, parent: map<T, Loc<T>>,
                                                level: map<T, nat>, v: T)
    requires Tree(res, source, parent, level) && v in level
    ensures Reachable(ResidualGraph(res), source, v)
    decreases level[v]
  {
    if v == source {
      ReachableSelf(ResidualGraph(res), source);
    } else {
      assert TreeEdge(res, source, parent, level, v);
      var t, i := parent[v].0, parent[v].1;
      TreeReaches(res, source, parent, level, t);
      assert v in Succ(ResidualGraph(res), t);
      ReachableStep(ResidualGraph(res), source, t, v);
    }
  }

  /** A closed search that did not discover the sink shows that no augmenting path exists. */
  lemma NoPath<T(!new)>(res: Residual<T>, source: T, level: map<T, nat>, sink: T)
    requires source in level && sink !in level && Complete(res, level)
    ensures !Reachable(ResidualGraph(res), source, sink)
  {
    var g := ResidualGraph(res);
    forall y | y in level.Keys
      ensures Succ(g, y) <= level.Keys
    {
      assert Expanded(res, level, y);
    }
    Enclosed(g, source, level.Keys, sink);
  }

  /** The search answers exactly whether the sink is reachable, for a sink other than the source. */
  lemma SearchAnswers<T(!new)>(res: Residual<T>, source: T, sink: T, parent: map<T, Loc<T>>, level: map<T, nat>)
    requires Tree(res, source, parent, level) && Complete(res, level) && sink != source
    ensures sink in parent <==> Reachable(ResidualGraph(res), source, sink)
  {
    if sink in parent {
      TreeReaches(res, source, parent, level, sink);
    } else {
      NoPath(res, source, level, sink);
    }
  }

  // ----- augmenting -------------------------------------------------------

  /** The room left on the edge at `loc`. */
  function Gap<T>(res: Residual<T>, loc: Loc<T>): int
    requires loc.0 in res && loc.1 < |res[loc.0]|
  {
    res[loc.0][loc.1].cap - res[loc.0][loc.1].flow
  }

  /** The parent edges of the vertices in `chain` have room for `f`; their tails are the source or in `chain`. */
  ghost predicate Chain<T(!new)>(res: Residual<T>, source: T, parent: map<T, Loc<T>>, chain: set<T>, f: int)
  {
    chain <= parent.Keys && source !in chain &&
    forall w :: w in chain ==>
      parent[w].0 in res && parent[w].1 < |res[parent[w].0]| && f <= Gap(res, parent[w]) &&
      (parent[w].0 == source || parent[w].0 in chain)
  }

  /** The vertices on the walk from `u` back to the source along parent edges, the source excluded. */
  ghost function WalkFrom<T(!new)>(res: Residual<T>, source: T, parent: map<T, Loc<T>>, level: map<T, nat>, u: T): set<T>
    requires Tree(res, source, parent, level) && u in level
    decreases level[u]
  {
    if u == source then {}
    else
      assert TreeEdge(res, source, parent, level, u);
      {u} + WalkFrom(res, source, parent, level, parent[u].0)
  }

  /**
   * The first loop of `maxFlow`: from the sink back to the source along the
   * parent edges, the least room left, starting from `INF`.  The walk it
   * follows is `chain`; `f` fits every edge of it and is `INF` or the room
   * on one of them.
   */
  method Bottleneck<T(==,!new)>(res: Residual<T>, source: T, sink: T, parent: map<T, Loc<T>>,
                                ghost level: map<T, nat>)
    returns (f: int, ghost chain: set<T>)
    requires Tree(res, source, parent, level) && sink in parent && sink != source
    ensures 0 < f <= INF && sink in chain && Chain(res, source, parent, chain, f)
    ensures sink in level && chain == WalkFrom(res, source, parent, level, sink)
    ensures f == INF || exists w :: w in chain && f == Gap(res, parent[w])
  {
    f := INF;
    chain := {};
    var u := sink;
    while u != source
      invariant u in level && (u == source || u in parent)
      invariant u == sink || sink in chain
      invariant 0 < f <= INF && chain <= parent.Keys && source !in chain
      invariant forall w :: w in chain ==>
        parent[w].0 in res && parent[w].1 < |res[parent[w].0]| && f <= Gap(res, parent[w]) &&
        (parent[w].0 == u || parent[w].0 in chain)
      invariant WalkFrom(res, source, parent, level, sink) == chain + WalkFrom(res, source, parent, level, u)
      invariant f == INF || exists w :: w in chain && f == Gap(res, parent[w])
      decreases level[u]
    {
      assert TreeEdge(res, source, parent, level, u);
      var e := res[parent[u].0][parent[u].1];
      if e.cap - e.flow < f {
        f := e.cap - e.flow;
      }
      chain := chain + {u};
      u := e.u;
    }
  }

  /**
   * Both updates of one step of the second loop of `maxFlow`: the edge at
   * index `i` of `t`'s list gains `f`, and the edge its `rev` names loses `f`.
   */
  function Push<T>(res: Residual<T>, t: T, i: nat, f: int): Residual<T>
    requires t in res && i < |res[t]| && res[t][i].v in res && res[t][i].rev < |res[res[t][i].v]|
  {
    var e := res[t][i];
    var r := res[t := res[t][i := e.(flow := e.flow + f)]];
    var p := r[e.v][e.rev];
    r[e.v := r[e.v][e.rev := p.(flow := p.flow - f)]]
  }

  /** A push along an edge that is not a loop and has room for `f` keeps the pairing. */
  lemma PushKeepsPaired<T(!new)>(res: Residual<T>, t: T, i: nat, f: int)
    requires Paired(res) && t in res && i < |res[t]|
    requires res[t][i].v != t && 0 < f <= res[t][i].cap - res[t][i].flow
    ensures res[t][i].v in res && res[t][i].rev < |res[res[t][i].v]|
    ensures Paired(Push(res, t, i, f))
  {
    assert PairedAt(res, t, i);
    var e := res[t][i];
    var r := Push(res, t, i, f);
    var p := res[e.v][e.rev];
    assert r[t][i] == e.(flow := e.flow + f);
    assert r[e.v][e.rev] == p.(flow := p.flow - f);
    assert PairedAt(res, e.v, e.rev);
    forall k, j | k in r && 0 <= j < |r[k]|
      ensures PairedAt(r, k, j)
    {
      if (k, j) != (t, i) && (k, j) != (e.v, e.rev) {
        assert r[k][j] == res[k][j];
        assert PairedAt(res, k, j);
        var d := res[k][j];
        if d.v != k {
          assert (d.v, d.rev) != (t, i);
          assert (d.v, d.rev) != (e.v, e.rev);
          assert r[d.v][d.rev] == res[d.v][d.rev];
        }
      }
    }
  }

  /** What a push changes: the two lists it touches, each at one place, and nothing else. */
  lemma PushChanges<T(!new)>(res: Residual<T>, t: T, i: nat, f: int)
    requires t in res && i < |res[t]| && res[t][i].v in res && res[t][i].rev < |res[res[t][i].v]|
    requires res[t][i].v != t
    ensures var r, e := Push(res, t, i, f), res[t][i];
      SameShape(res, r) &&
      FlowSum(r[t]) == FlowSum(res[t]) + f && FlowSum(r[e.v]) == FlowSum(res[e.v]) - f &&
      Slack(r[t]) == Slack(res[t]) + Room(r[t][i]) - Room(e) &&
      forall w :: w in res && w != t && w != e.v ==> r[w] == res[w]
  {
    var r, e := Push(res, t, i, f), res[t][i];
    ChangeOne(res[t], i, e.(flow := e.flow + f));
    var p := res[e.v][e.rev];
    ChangeOne(res[e.v], e.rev, p.(flow := p.flow - f));
  }

  /**
   * The state of the second loop of `maxFlow` at `u`: the flows are paired,
   * the lists of vertices discovered before `u` are untouched, the source's
   * free capacity has dropped by `f` once the walk is back at the source,
   * and the balances have moved by `f` at `u` and by `-f` at the sink.
   */
  ghost predicate Augmenting<T(!new)>(res0: Residual<T>, res: Residual<T>, source: T, sink: T,
                                      level: map<T, nat>, f: int, chain: set<T>, u: T)
  {
    u in level && (u == source || u in chain) && source in res0 &&
    Paired(res) && SameShape(res0, res) &&
    (forall w :: w in level && w in res0 && w in res && level[w] < level[u] ==> res[w] == res0[w]) &&
    (forall w :: w in res ==>
      FlowSum(res[w]) == FlowSum(res0[w]) + (if w == u then f else 0) - (if w == sink then f else 0)) &&
    Slack(res[source]) == Slack(res0[source]) - (if u == source then f else 0)
  }

  /** The parent edge of a vertex on the walk lies in an untouched list and has room for `f`. */
  lemma StepEdge<T(!new)>(res0: Residual<T>, res: Residual<T>, source: T, sink: T, parent: map<T, Loc<T>>,
                          level: map<T, nat>, f: int, chain: set<T>, u: T)
    requires Tree(res0, source, parent, level) && 0 < f && Chain(res0, source, parent, chain, f)
    requires Augmenting(res0, res, source, sink, level, f, chain, u) && u != source
    ensures var t, i := parent[u].0, parent[u].1;
      t in res && i < |res[t]| && res[t] == res0[t] && res[t][i].u == t && res[t][i].v == u &&
      t in level && level[t] < level[u] && (t == source || t in chain) &&
      f <= res[t][i].cap - res[t][i].flow
  {
    assert TreeEdge(res0, source, parent, level, u);
  }

  /** One step of the second loop keeps the pairing, the shape and the untouched lists. */
  lemma StepShape<T(!new)>(res0: Residual<T>, res: Residual<T>, source: T, sink: T, parent: map<T, Loc<T>>,
                           level: map<T, nat>, f: int, chain: set<T>, u: T, t: T, i: nat)
    requires Augmenting(res0, res, source, sink, level, f, chain, u) && 0 < f
    requires t in res && i < |res[t]| && res[t][i].v == u && t != u && t in level && level[t] < level[u]
    requires f <= res[t][i].cap - res[t][i].flow
    ensures res[t][i].v in res && res[t][i].rev < |res[res[t][i].v]|
    ensures var r := Push(res, t, i, f);
      Paired(r) && SameShape(res0, r) &&
      forall w :: w in level && w in res0 && w in r && level[w] < level[t] ==> r[w] == res0[w]
  {
    PushKeepsPaired(res, t, i, f);
    PushChanges(res, t, i, f);
  }

  /** One step of the second loop moves the balance `f` from `u` to `t`. */
  lemma StepSums<T(!new)>(res0: Residual<T>, res: Residual<T>, source: T, sink: T,
                          level: map<T, nat>, f: int, chain: set<T>, u: T, t: T, i: nat)
    requires Augmenting(res0, res, source, sink, level, f, chain, u) && 0 < f && u != source
    requires t in res && u in res && i < |res[t]| && res[t][i].v == u && t != u
    requires res[t][i].rev < |res[u]| && f <= res[t][i].cap - res[t][i].flow
    ensures var r := Push(res, t, i, f);
      (forall w :: w in r ==>
        FlowSum(r[w]) == FlowSum(res0[w]) + (if w == t then f else 0) - (if w == sink then f else 0)) &&
      Slack(r[source]) == Slack(res0[source]) - (if t == source then f else 0)
  {
    PushChanges(res, t, i, f);
    var r := Push(res, t, i, f);
    assert r[t][i] == res[t][i].(flow := res[t][i].flow + f);
  }

  /** One step of the second loop moves the walk to the tail of `u`'s parent edge and keeps its state. */
  lemma AugmentStep<T(!new)>(res0: Residual<T>, res: Residual<T>, source: T, sink: T, parent: map<T, Loc<T>>,
                             level: map<T, nat>, f: int, chain: set<T>, u: T)
    requires Tree(res0, source, parent, level) && 0 < f && Chain(res0, source, parent, chain, f)
    requires Augmenting(res0, res, source, sink, level, f, chain, u) && u != source
    ensures var t, i := parent[u].0, parent[u].1;
      t in res && i < |res[t]| && res[t][i].u == t && t in level && level[t] < level[u] &&
      res[t][i].v in res && res[t][i].rev < |res[res[t][i].v]| &&
      Augmenting(res0, Push(res, t, i, f), source, sink, level, f, chain, t)
  {
    StepEdge(res0, res, source, sink, parent, level, f, chain, u);
    var t, i := parent[u].0, parent[u].1;
    StepShape(res0, res, source, sink, parent, level, f, chain, u, t, i);
    StepSums(res0, res, source, sink, level, f, chain, u, t, i);
  }

  /** The places of the parent edges of the vertices in `done`. */
  function PathLocs<T>(parent: map<T, Loc<T>>, done: set<T>): set<Loc<T>>
    requires done <= parent.Keys
  {
    set w | w in done :: parent[w]
  }

  /** The places, in the lists of the vertices in `done`, of the edges paired with their parent edges. */
  function RevLocs<T>(res: Residual<T>, parent: map<T, Loc<T>>, done: set<T>): set<Loc<T>>
    requires done <= parent.Keys && forall w :: w in done ==> parent[w].0 in res && parent[w].1 < |res[parent[w].0]|
  {
    set w | w in done :: (w, res[parent[w].0][parent[w].1].rev)
  }

  /**
   * The flows of `res` are those of `res0` with `f` added on the parent
   * edges of the vertices in `done` and taken off the edges paired with them.
   */
  ghost predicate Pushed<T(!new)>(res0: Residual<T>, res: Residual<T>, parent: map<T, Loc<T>>, done: set<T>, f: int)
  {
    SameShape(res0, res) && done <= parent.Keys &&
    (forall w :: w in done ==> parent[w].0 in res0 && parent[w].1 < |res0[parent[w].0]|) &&
    forall k: T, j: nat :: k in res0 && j < |res0[k]| ==>
      res[k][j].flow == res0[k][j].flow + (if (k, j) in PathLocs(parent, done) then f else 0)
                                        - (if (k, j) in RevLocs(res0, parent, done) then f else 0)
  }

  /** A push along the parent edge of `u`, a vertex not yet walked below every walked one, accounts for `u`. */
  lemma PushedStep<T(!new)>(res0: Residual<T>, res: Residual<T>, source: T, parent: map<T, Loc<T>>,
                            level: map<T, nat>, done: set<T>, f: int, u: T)
    requires Paired(res0) && Tree(res0, source, parent, level) && Pushed(res0, res, parent, done, f)
    requires u in parent && u != source && u !in done && forall w :: w in done ==> w in level && level[u] < level[w]
    ensures var t, i := parent[u].0, parent[u].1;
      t in res && i < |res[t]| && res[t][i].v in res && res[t][i].rev < |res[res[t][i].v]| &&
      Pushed(res0, Push(res, t, i, f), parent, done + {u}, f)
  {
    WalkedApart(res0, source, parent, level, done, u);
    var t, i := parent[u].0, parent[u].1;
    var e := res0[t][i];
    assert res[t][i].(flow := 0) == e.(flow := 0);
    PushFlows(res, t, i, f);
    PushChanges(res, t, i, f);
    PushedAdd(res0, res, Push(res, t, i, f), parent, done, u, f);
  }

  /** Flows moved by `f` on the parent edge of `u` and against it on its pair account for `u` being walked. */
  lemma PushedAdd<T(!new)>(res0: Residual<T>, res: Residual<T>, r: Residual<T>, parent: map<T, Loc<T>>,
                           done: set<T>, u: T, f: int)
    requires Pushed(res0, res, parent, done, f) && SameShape(res, r)
    requires u in parent && parent[u].0 in res0 && parent[u].1 < |res0[parent[u].0]|
    requires var t, i := parent[u].0, parent[u].1;
      var back := (u, res0[t][i].rev);
      (t, i) != back &&
      (t, i) !in PathLocs(parent, done) && (t, i) !in RevLocs(res0, parent, done) &&
      back !in PathLocs(parent, done) && back !in RevLocs(res0, parent, done) &&
      PathLocs(parent, done + {u}) == PathLocs(parent, done) + {(t, i)} &&
      RevLocs(res0, parent, done + {u}) == RevLocs(res0, parent, done) + {back} &&
      forall k: T, j: nat :: k in res && j < |res[k]| ==>
        r[k][j].flow == res[k][j].flow + (if (k, j) == (t, i) then f else 0) - (if (k, j) == back then f else 0)
    ensures Pushed(res0, r, parent, done + {u}, f)
  {
    var done' := done + {u};
    forall k: T, j: nat | k in res0 && j < |res0[k]|
      ensures r[k][j].flow == res0[k][j].flow + (if (k, j) in PathLocs(parent, done') then f else 0)
                                             - (if (k, j) in RevLocs(res0, parent, done') then f else 0)
    {
    }
  }

  /**
   * The parent edge of `u` and the edge paired with it are neither parent
   * edges of vertices walked before `u` nor paired with them, and walking
   * `u` adds exactly those two places.
   */
  lemma WalkedApart<T(!new)>(res0: Residual<T>, source: T, parent: map<T, Loc<T>>,
                             level: map<T, nat>, done: set<T>, u: T)
    requires Paired(res0) && Tree(res0, source, parent, level) && done <= parent.Keys
    requires u in parent && u != source && u !in done && forall w :: w in done ==> w in level && level[u] < level[w]
    ensures var t, i := parent[u].0, parent[u].1;
      t in res0 && i < |res0[t]| && res0[t][i].v == u && u != t && u in res0 && res0[t][i].rev < |res0[u]| &&
      (forall w :: w in done ==> parent[w].0 in res0 && parent[w].1 < |res0[parent[w].0]|) &&
      var back := (u, res0[t][i].rev);
      (t, i) != back &&
      (t, i) !in PathLocs(parent, done) && (t, i) !in RevLocs(res0, parent, done) &&
      back !in PathLocs(parent, done) && back !in RevLocs(res0, parent, done) &&
      PathLocs(parent, done + {u}) == PathLocs(parent, done) + {(t, i)} &&
      RevLocs(res0, parent, done + {u}) == RevLocs(res0, parent, done) + {back}
  {
    assert TreeEdge(res0, source, parent, level, u);
    var t, i := parent[u].0, parent[u].1;
    assert PairedAt(res0, t, i);
    var e := res0[t][i];
    assert res0[u][e.rev].v == t;
    forall w | w in done
      ensures parent[w].0 in res0 && parent[w].1 < |res0[parent[w].0]|
      ensures parent[w] != (t, i) && parent[w] != (u, e.rev)
      ensures (w, res0[parent[w].0][parent[w].1].rev) != (t, i) && w != u
    {
      assert TreeEdge(res0, source, parent, level, w);
    }
  }

  /** The flows after a push along a non-loop edge: `f` more on it, `f` less on its pair, the rest unchanged. */
  lemma PushFlows<T>(res: Residual<T>, t: T, i: nat, f: int)
    requires t in res && i < |res[t]| && res[t][i].v in res && res[t][i].rev < |res[res[t][i].v]|
    requires res[t][i].v != t
    ensures var r, e := Push(res, t, i, f), res[t][i];
      r.Keys == res.Keys && (forall k :: k in res ==> |r[k]| == |res[k]|) &&
      forall k: T, j: nat :: k in res && j < |res[k]| ==>
        r[k][j].flow == res[k][j].flow + (if (k, j) == (t, i) then f else 0) - (if (k, j) == (e.v, e.rev) then f else 0)
  {
  }

  /**
   * The state of the second loop of `maxFlow` at `u`, having walked `done`:
   * `Augmenting`, the flows pushed so far, and `done` being the walk from
   * the sink down to `u`, all of it above `u`.
   */
  ghost predicate Walking<T(!new)>(res0: Residual<T>, res: Residual<T>, source: T, sink: T, parent: map<T, Loc<T>>,
                                   level: map<T, nat>, f: int, chain: set<T>, done: set<T>, u: T)
  {
    Tree(res0, source, parent, level) && sink in level &&
    Augmenting(res0, res, source, sink, level, f, chain, u) &&
    Pushed(res0, res, parent, done, f) && Walked(res0, source, sink, parent, level, done, u)
  }

  /** `done` is the walk from the sink down to `u`, all of it above `u`. */
  ghost predicate Walked<T(!new)>(res: Residual<T>, source: T, sink: T, parent: map<T, Loc<T>>,
                                  level: map<T, nat>, done: set<T>, u: T)
  {
    Tree(res, source, parent, level) && sink in level && u in level && u !in done &&
    (forall w :: w in done ==> w in level && level[u] < level[w]) &&
    WalkFrom(res, source, parent, level, sink) == done + WalkFrom(res, source, parent, level, u)
  }

  /** A walk back at the source has walked all of the walk from the sink. */
  lemma WalkEnds<T(!new)>(res: Residual<T>, source: T, sink: T, parent: map<T, Loc<T>>,
                          level: map<T, nat>, done: set<T>)
    requires Walked(res, source, sink, parent, level, done, source)
    ensures done == WalkFrom(res, source, parent, level, sink)
  {
  }

  /** Walking `u` moves the walk to the tail of its parent edge. */
  lemma WalkOn<T(!new)>(res: Residual<T>, source: T, sink: T, parent: map<T, Loc<T>>,
                        level: map<T, nat>, done: set<T>, u: T)
    requires Walked(res, source, sink, parent, level, done, u) && u != source
    ensures u in parent && parent[u].0 in level && level[parent[u].0] < level[u]
    ensures Walked(res, source, sink, parent, level, done + {u}, parent[u].0)
  {
    assert TreeEdge(res, source, parent, level, u);
  }

  /** One step of the second loop keeps `Walking`, with `u` walked and the walk at its parent edge's tail. */
  lemma WalkingStep<T(!new)>(res0: Residual<T>, res: Residual<T>, source: T, sink: T, parent: map<T, Loc<T>>,
                             level: map<T, nat>, f: int, chain: set<T>, done: set<T>, u: T)
    requires Paired(res0) && 0 < f && Chain(res0, source, parent, chain, f)
    requires Walking(res0, res, source, sink, parent, level, f, chain, done, u) && u != source
    ensures var t, i := parent[u].0, parent[u].1;
      t in res && i < |res[t]| && res[t][i].u == t && t in level && level[t] < level[u] &&
      res[t][i].v in res && res[t][i].rev < |res[res[t][i].v]| &&
      Walking(res0, Push(res, t, i, f), source, sink, parent, level, f, chain, done + {u}, t)
  {
    AugmentStep(res0, res, source, sink, parent, level, f, chain, u);
    PushedStep(res0, res, source, parent, level, done, f, u);
    WalkOn(res0, source, sink, parent, level, done, u);
  }

  /**
   * The second loop of `maxFlow`: from the sink back to the source, every
   * parent edge on the walk gains the bottleneck `f`, the edge its `rev`
   * names loses `f`, and no other flow changes.  The source sends `f` more,
   * the sink receives `f` more, and every other vertex's balance is
   * unchanged.
   */
  method Augment<T(==,!new)>(res0: Residual<T>, source: T, sink: T, parent: map<T, Loc<T>>,
                             ghost level: map<T, nat>, f: int, ghost chain: set<T>)
    returns (res: Residual<T>)
    requires Paired(res0) && Tree(res0, source, parent, level) && sink != source
    requires 0 < f && sink in chain && Chain(res0, source, parent, chain, f)
    ensures Paired(res) && SameShape(res0, res)
    ensures forall w :: w in res ==>
      FlowSum(res[w]) == FlowSum(res0[w]) + (if w == source then f else 0) - (if w == sink then f else 0)
    ensures Slack(res[source]) == Slack(res0[source]) - f
    ensures sink in level && Pushed(res0, res, parent, WalkFrom(res0, source, parent, level, sink), f)
  {
    res := res0;
    var u := sink;
    ghost var done: set<T> := {};
    assert sink in level;
    while u != source
      invariant Walking(res0, res, source, sink, parent, level, f, chain, done, u)
      decreases level[u]
    {
      WalkingStep(res0, res, source, sink, parent, level, f, chain, done, u);
      var t, i := parent[u].0, parent[u].1;
      var e := res[t][i];
      res := Push(res, t, i, f);
      done := done + {u};
      u := e.u;
    }
    WalkEnds(res0, source, sink, parent, level, done);
  }

  /** A maximum flow: paired and conserved, worth `value`, and no augmenting path left. */
  ghost predicate MaximumFlow<T(!new)>(res: Residual<T>, source: T, sink: T, value: int)
  {
    Paired(res) && source in res && value >= 0 &&
    FlowSum(res[source]) == value && (sink in res ==> FlowSum(res[sink]) == -value) &&
    Conserved(res, source, sink) && !Reachable(ResidualGraph(res), source, sink)
  }

  /**
   * `maxFlow(source, sink)` on a freshly built residual graph: `-1` when the
   * source is the sink; `MissingEntry` when the source has no list; otherwise
   * the flow found by augmenting along breadth-first paths until the sink is
   * out of reach.
   */
  method MaxFlowOn<T(==,!new)>(built: Residual<T>, source: T, sink: T)
    returns (r: Outcome<int>, res: Residual<T>)
    requires Paired(built) && Idle(built)
    ensures r == Ok(-1) <==> source == sink
    ensures r == Thrown(MissingEntry) <==> source != sink && source !in built
    ensures r.Ok? && source != sink ==> SameShape(built, res) && MaximumFlow(res, source, sink, r.value)
  {
    res := built;
    if source == sink {
      return Ok(-1), res;
    }
    if source !in res {
      return Thrown(MissingEntry), res;
    }
    forall k | k in res
      ensures FlowSum(res[k]) == 0
    {
      IdleSum(res[k]);
    }
    var total := 0;
    var found, parent, level := Search(res, source, sink);
    while found
      invariant Paired(res) && SameShape(built, res) && source in res && total >= 0
      invariant FlowSum(res[source]) == total && (sink in res ==> FlowSum(res[sink]) == -total)
      invariant Conserved(res, source, sink)
      invariant Tree(res, source, parent, level) && Complete(res, level) && (found <==> sink in parent)
      decreases Slack(res[source])
    {
      var f, chain := Bottleneck(res, source, sink, parent, level);
      res := Augment(res, source, sink, parent, level, f, chain);
      total := total + f;
      found, parent, level := Search(res, source, sink);
    }
    SearchAnswers(res, source, sink, parent, level);
    r := Ok(total);
  }

  /**
   * The trace pins the capacities: in the network with the single pair
   * `0 -> 1` of capacity 5, the source's list holds exactly that forward
   * edge, so no maximum flow over the built graph is worth more than 5.
   */
  lemma SinglePairFlow(built: Residual<int>, origin: map<Loc<int>, Origin<int>>, res: Residual<int>, value: int)
    requires Traced(built, origin, AllPairs(map[0 := {(1, 5)}, 1 := {}]))
    requires SameShape(built, res) && MaximumFlow(res, 0, 1, value)
    ensures |built[0]| == 1 && built[0][0].v == 1 && built[0][0].cap == 5
    ensures value <= 5
  {
    var adj: WAdjacency<int> := map[0 := {(1, 5)}, 1 := {}];
    assert AllPairs(adj) == {(0, (1, 5))};
    assert Origin(0, (1, 5), true) in origin.Values;
    var a: Loc<int> :| a in origin && origin[a] == Origin(0, (1, 5), true);
    assert Matches(built, a, origin[a]);
    assert a.0 == 0 && 0 in res;
    SourceEntryForward(built, origin, a.1);
    if |built[0]| > 1 {
      SourceEntryForward(built, origin, 0);
      SourceEntryForward(built, origin, 1);
      assert false;
    }
    assert built[0][0].cap == res[0][0].cap;
    assert |res[0]| == 1;
    assert res[0][1..] == [];
    FlowBound(res, 0, 1, value);
  }

  /** In the single-pair network every edge in the source's list is the pair's forward edge. */
  lemma SourceEntryForward(built: Residual<int>, origin: map<Loc<int>, Origin<int>>, i: nat)
    requires Traced(built, origin, AllPairs(map[0 := {(1, 5)}, 1 := {}]))
    requires 0 in built && i < |built[0]|
    ensures (0, i) in origin && origin[(0, i)] == Origin(0, (1, 5), true)
    ensures built[0][i].v == 1 && built[0][i].cap == 5
  {
    var adj: WAdjacency<int> := map[0 := {(1, 5)}, 1 := {}];
    assert AllPairs(adj) == {(0, (1, 5))};
    var l: Loc<int> := (0, i);
    assert l in origin;
    assert Matches(built, l, origin[l]);
  }

  /** A maximum flow never exceeds the positive capacities out of the source. */
  lemma FlowBound<T(!new)>(res: Residual<T>, source: T, sink: T, value: int)
    requires MaximumFlow(res, source, sink, value)
    ensures value <= CapSum(res[source])
  {
    forall j | 0 <= j < |res[source]|
      ensures res[source][j].flow <= res[source][j].cap || res[source][j].flow == 0
    {
      assert PairedAt(res, source, j);
    }
    WithinCapacity(res[source]);
  }
}
