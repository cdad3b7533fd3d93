/**
 * `DirectedGraph` (src/DirectedGraph.java): the unweighted graph with
 * directed edges.  Besides the edge operations it offers three-colour cycle
 * detection, a topological sort by depth-first post-order, the transpose
 * and Kosaraju's strongly connected components.
 */
module DirectedGraphs {
  import opened Outcomes
  import opened Sequences
  import opened Edges
  import opened Paths
  import opened Filters
  import opened Traversals
  import opened UnweightedGraphs

  /** A walk with at least one edge that returns to its start. */
  ghost predicate HasCycle<T(!new)>(adj: Adjacency<T>)
  {
    exists p :: IsPath(adj, p) && |p| >= 2 && p[0] == p[|p| - 1]
  }

  /** An edge from `b` back to a vertex `v` that reaches `b` closes a cycle. */
  lemma BackEdgeCycle<T(!new)>(adj: Adjacency<T>, v: T, b: T)
    requires Reachable(adj, v, b) && v in Succ(adj, b)
    ensures HasCycle(adj)
  {
    var p :| PathBetween(adj, p, v, b);
    PathExtend(adj, p, v, b, v);
    assert IsPath(adj, p + [v]) && |p + [v]| >= 2 && (p + [v])[0] == v;
  }

  /**
   * A ranking that falls along every edge out of the ranked vertices, which
   * include every vertex with successors, leaves no room for a cycle.
   */
  lemma RankedAcyclic<T(!new)>(adj: Adjacency<T>, fin: map<T, nat>)
    requires adj.Keys <= fin.Keys
    requires forall b, v :: b in fin && v in Succ(adj, b) ==> v in fin && fin[v] < fin[b]
    ensures !HasCycle(adj)
  {
    if p :| IsPath(adj, p) && |p| >= 2 && p[0] == p[|p| - 1] {
      assert p[1] in Succ(adj, p[0]);
      RankFalls(adj, fin, p, |p| - 1);
    }
  }

  lemma {:induction false} RankFalls<T>(adj: Adjacency<T>, fin: map<T, nat>, p: seq<T>, n: nat)
    requires IsPath(adj, p) && n < |p| && p[0] in fin
    requires forall b, v :: b in fin && v in Succ(adj, b) ==> v in fin && fin[v] < fin[b]
    ensures p[n] in fin && fin[p[n]] + n <= fin[p[0]]
  {
    if n > 0 {
      RankFalls(adj, fin, p, n - 1);
      assert p[n] in Succ(adj, p[n - 1]);
    }
  }

  /** The colours of `isCyclic`: not yet met, under way, finished. */
  datatype Colour = White | Gray | Black

  function Whites<T>(colour: map<T, Colour>): set<T>
  {
    set x | x in colour && colour[x] == White
  }

  function Grays<T>(colour: map<T, Colour>): set<T>
  {
    set x | x in colour && colour[x] == Gray
  }

  /**
   * The three-colour search state: the gray vertices are the chain `stack`
   * under way; the black ones carry a finishing time `fin`, earlier than
   * `time`, and all their successors are black and finished earlier.
   */
  ghost predicate ColourState<T(!new)>(adj: Adjacency<T>, colour: map<T, Colour>, stack: seq<T>,
                                       fin: map<T, nat>, time: nat)
  {
    Nodes(adj) <= colour.Keys && Chain(adj, stack) && Elems(stack) == Grays(colour) &&
    (forall x :: x in fin <==> x in colour && colour[x] == Black) &&
    (forall b :: b in fin ==> fin[b] < time) &&
    (forall b, v :: b in fin && v in Succ(adj, b) ==> v in fin && fin[v] < fin[b])
  }

  /** Painting a white vertex gray puts it under way. */
  lemma GrayEnter<T(!new)>(adj: Adjacency<T>, colour: map<T, Colour>, stack: seq<T>, fin: map<T, nat>, time: nat, u: T)
    requires ColourState(adj, colour, stack, fin, time) && u in colour && colour[u] == White
    requires stack == [] || u in Succ(adj, stack[|stack| - 1])
    ensures ColourState(adj, colour[u := Gray], stack + [u], fin, time)
    ensures Whites(colour[u := Gray]) == Whites(colour) - {u}
  {
    var s := stack + [u];
    assert Elems(s) == Elems(stack) + {u};
    assert Grays(colour[u := Gray]) == Grays(colour) + {u};
    if stack != [] {
      forall k | 0 <= k < |s| - 1
        ensures s[k + 1] in Succ(adj, s[k])
      {
        if k < |stack| - 1 {
          assert s[k] == stack[k] && s[k + 1] == stack[k + 1];
        }
      }
    }
  }

  /** Painting the innermost gray vertex black, once its successors are black, finishes it. */
  lemma BlackLeave<T(!new)>(adj: Adjacency<T>, colour: map<T, Colour>, stack: seq<T>, fin: map<T, nat>, time: nat, u: T)
    requires ColourState(adj, colour, stack + [u], fin, time) && u !in Elems(stack)
    requires Succ(adj, u) <= fin.Keys
    ensures ColourState(adj, colour[u := Black], stack, fin[u := time], time + 1)
    ensures Whites(colour[u := Black]) == Whites(colour)
  {
    var s := stack + [u];
    assert Elems(s) == Elems(stack) + {u};
    assert u in Grays(colour);
    assert Grays(colour[u := Black]) == Grays(colour) - {u};
    if stack != [] {
      forall k | 0 <= k < |stack| - 1
        ensures stack[k + 1] in Succ(adj, stack[k])
      {
        assert stack[k] == s[k] && stack[k + 1] == s[k + 1];
      }
    }
  }

  /**
   * `DFS1` of `isCyclic`: paints `u` gray, searches its white successors and
   * paints it black.  Meeting a gray successor, a back edge, reports a cycle;
   * a successor without a colour (Java's `null`) is passed over.  When no
   * cycle is reported, `u` is black and the search state holds again.
   */
  method CycleSearch<T(!new)>(adj: Adjacency<T>, u: T, colour: map<T, Colour>,
                              ghost stack: seq<T>, ghost fin: map<T, nat>, ghost time: nat)
    returns (cycle: bool, colour': map<T, Colour>, ghost fin': map<T, nat>, ghost time': nat)
    requires ColourState(adj, colour, stack, fin, time) && u in colour && colour[u] == White
    requires stack == [] || u in Succ(adj, stack[|stack| - 1])
    ensures cycle ==> HasCycle(adj)
    ensures !cycle ==>
      ColourState(adj, colour', stack, fin', time') && colour'.Keys == colour.Keys &&
      u in fin' && Whites(colour') <= Whites(colour) - {u}
    decreases |Whites(colour)|, 2
  {
    GrayEnter(adj, colour, stack, fin, time, u);
    colour' := colour[u := Gray];
    cycle, colour', fin', time' := CycleChildren(adj, u, colour', stack + [u], fin, time);
    if cycle {
      return;
    }
    assert u !in Elems(stack);
    BlackLeave(adj, colour', stack, fin', time', u);
    colour' := colour'[u := Black];
    fin' := fin'[u := time'];
    time' := time' + 1;
  }

  /** The loop of `DFS1` over the successors of the gray vertex `u`. */
  method CycleChildren<T(!new)>(adj: Adjacency<T>, u: T, colour: map<T, Colour>,
                                ghost inner: seq<T>, ghost fin: map<T, nat>, ghost time: nat)
    returns (cycle: bool, colour': map<T, Colour>, ghost fin': map<T, nat>, ghost time': nat)
    requires inner != [] && inner[|inner| - 1] == u
    requires ColourState(adj, colour, inner, fin, time)
    ensures cycle ==> HasCycle(adj)
    ensures !cycle ==>
      ColourState(adj, colour', inner, fin', time') && colour'.Keys == colour.Keys &&
      Whites(colour') <= Whites(colour) && Succ(adj, u) <= fin'.Keys
    decreases |Whites(colour)| + 1, 1
  {
    cycle, colour', fin', time' := false, colour, fin, time;
    if u !in adj {
      return;
    }
    var rest := adj[u];
    while rest != {}
      invariant rest <= adj[u] && adj[u] - rest <= fin'.Keys
      invariant ColourState(adj, colour', inner, fin', time') && colour'.Keys == colour.Keys
      invariant Whites(colour') <= Whites(colour)
      decreases rest
    {
      var v :| v in rest;
      rest := rest - {v};
      NoLarger(Whites(colour'), Whites(colour));
      cycle, colour', fin', time' := CycleChild(adj, u, v, colour', inner, fin', time');
      if cycle {
        return;
      }
    }
  }

  /** One successor `v` of the gray vertex `u`: searched if white, a cycle if gray. */
  method CycleChild<T(!new)>(adj: Adjacency<T>, u: T, v: T, colour: map<T, Colour>,
                             ghost inner: seq<T>, ghost fin: map<T, nat>, ghost time: nat)
    returns (cycle: bool, colour': map<T, Colour>, ghost fin': map<T, nat>, ghost time': nat)
    requires inner != [] && inner[|inner| - 1] == u && v in Succ(adj, u)
    requires ColourState(adj, colour, inner, fin, time)
    ensures cycle ==> HasCycle(adj)
    ensures !cycle ==>
      ColourState(adj, colour', inner, fin', time') && colour'.Keys == colour.Keys &&
      Whites(colour') <= Whites(colour) && v in fin' && fin.Keys <= fin'.Keys
    decreases |Whites(colour)|, 3
  {
    cycle, colour', fin', time' := false, colour, fin, time;
    if v in colour && colour[v] == White {
      cycle, colour', fin', time' := CycleSearch(adj, v, colour, inner, fin, time);
      if !cycle {
        assert fin.Keys <= fin'.Keys by {
          forall b | b in fin ensures b in fin' {
            assert b in colour && colour[b] == Black;
            assert b !in Whites(colour) && b !in Grays(colour);
            assert b !in Whites(colour');
          }
        }
      }
    } else if v in colour && colour[v] == Gray {
      assert v in Elems(inner);
      ghost var k :| 0 <= k < |inner| && inner[k] == v;
      ChainReaches(adj, inner, k);
      BackEdgeCycle(adj, v, u);
      cycle := true;
    } else {
      assert v in colour;
    }
  }

  /** A finished vertex stays finished while the chain under way is the same. */
  lemma BlackStays<T(!new)>(adj: Adjacency<T>, colour: map<T, Colour>, colour': map<T, Colour>, stack: seq<T>,
                            fin: map<T, nat>, time: nat, fin': map<T, nat>, time': nat)
    requires ColourState(adj, colour, stack, fin, time) && ColourState(adj, colour', stack, fin', time')
    requires colour'.Keys == colour.Keys && Whites(colour') <= Whites(colour)
    ensures fin.Keys <= fin'.Keys
  {
    forall b | b in fin
      ensures b in fin'
    {
      assert b !in Whites(colour) && b !in Grays(colour);
      assert b !in Whites(colour') && b !in Grays(colour');
    }
  }

  /**
   * `isCyclic()`: every vertex starts white and every white vertex is a
   * search root.  The answer is true exactly when the graph has a cycle.
   */
  method IsCyclicIn<T(!new)>(adj: Adjacency<T>, vertexes: set<T>) returns (cycle: bool)
    requires Nodes(adj) <= vertexes
    ensures cycle <==> HasCycle(adj)
  {
    var colour := map x | x in vertexes :: White;
    ghost var fin: map<T, nat> := map[];
    ghost var time: nat := 0;
    assert Grays(colour) == {};
    assert Elems<T>([]) == {};
    var rest := vertexes;
    while rest != {}
      invariant rest <= vertexes && colour.Keys == vertexes
      invariant ColourState(adj, colour, [], fin, time)
      invariant vertexes - rest <= fin.Keys
      decreases rest
    {
      var x :| x in rest;
      rest := rest - {x};
      if colour[x] == White {
        var found: bool;
        ghost var colour0, fin0, time0 := colour, fin, time;
        found, colour, fin, time := CycleSearch(adj, x, colour, [], fin, time);
        if found {
          return true;
        }
        BlackStays(adj, colour0, colour, [], fin0, time0, fin, time);
      } else {
        assert x !in Grays(colour);
      }
    }
    RankedAcyclic(adj, fin);
    cycle := false;
  }

  /**
   * The first half of `topologicalSort` and of Kosaraju's algorithm: a
   * post-order search from every vertex not yet visited.  The order lists
   * every vertex exactly once.
   */
  method FinishOrder<T(!new)>(adj: Adjacency<T>, vertexes: set<T>) returns (order: seq<T>)
    requires Nodes(adj) <= vertexes
    ensures PostState(adj, vertexes, order, []) && Elems(order) == vertexes
  {
    var visited: set<T> := {};
    order := [];
    assert Elems<T>([]) == {};
    var rest := vertexes;
    while rest != {}
      invariant rest <= vertexes && visited <= vertexes && vertexes - rest <= visited
      invariant PostState(adj, visited, order, [])
      decreases rest
    {
      var x :| x in rest;
      rest := rest - {x};
      if x !in visited {
        visited, order := PostOrder(adj, x, visited, order, [], vertexes);
      }
    }
  }

  /**
   * The property of a finish order that Kosaraju's second pass relies on:
   * when `order[i]` reaches `order[j]` but is not reached back, some vertex
   * of the component of `order[i]` comes after `order[j]`.
   */
  ghost predicate SccOrdered<T(!new)>(adj: Adjacency<T>, order: seq<T>)
  {
    forall i, j :: (0 <= i < |order| && 0 <= j < |order| &&
                    Reachable(adj, order[i], order[j]) && !Reachable(adj, order[j], order[i])) ==>
      exists k :: j < k < |order| && Mutual(adj, order[i], order[k])
  }

  /** A complete post-order search finishes each component after every component it reaches. */
  lemma PostOrderSccOrdered<T(!new)>(adj: Adjacency<T>, visited: set<T>, order: seq<T>)
    requires PostState(adj, visited, order, [])
    ensures SccOrdered(adj, order)
  {
    forall i, j | 0 <= i < |order| && 0 <= j < |order| &&
      Reachable(adj, order[i], order[j]) && !Reachable(adj, order[j], order[i])
      ensures exists k :: j < k < |order| && Mutual(adj, order[i], order[k])
    {
      ReachableSelf(adj, order[i]);
      if j < i {
        assert Mutual(adj, order[i], order[i]);
      }
    }
  }

  /** In an acyclic graph a post-order lists every successor before its predecessor. */
  lemma PostOrderRespectsEdges<T(!new)>(adj: Adjacency<T>, visited: set<T>, order: seq<T>)
    requires PostState(adj, visited, order, []) && !HasCycle(adj)
    ensures forall i, j :: 0 <= i < |order| && 0 <= j < |order| && order[j] in Succ(adj, order[i]) ==> j < i
  {
    forall i, j | 0 <= i < |order| && 0 <= j < |order| && order[j] in Succ(adj, order[i])
      ensures j < i
    {
      var v := order[j];
      if v !in order[..i] {
        BackEdgeCycle(adj, v, order[i]);
      }
      var k :| 0 <= k < i && order[..i][k] == v;
      assert order[k] == v;
    }
  }

  /**
   * `topologicalSort()`: null (`None`) exactly for a cyclic graph; otherwise
   * the reversed post-order, which lists every vertex exactly once and puts
   * the start of every edge before its end.
   */
  method TopologicalOrder<T(!new)>(adj: Adjacency<T>, vertexes: set<T>) returns (r: Option<seq<T>>)
    requires Nodes(adj) <= vertexes
    ensures r.None? <==> HasCycle(adj)
    ensures r.Some? ==>
      Distinct(r.value) && Elems(r.value) == vertexes &&
      forall i, j :: 0 <= i < |r.value| && 0 <= j < |r.value| && r.value[j] in Succ(adj, r.value[i]) ==> i < j
  {
    var cyclic := IsCyclicIn(adj, vertexes);
    if cyclic {
      return None;
    }
    var order := FinishOrder(adj, vertexes);
    PostOrderRespectsEdges(adj, vertexes, order);
    ReversedElems(order);
    var sorted := Reversed(order);
    forall i, j | 0 <= i < |sorted| && 0 <= j < |sorted| && sorted[j] in Succ(adj, sorted[i])
      ensures i < j
    {
      assert sorted[i] == order[|order| - 1 - i] && sorted[j] == order[|order| - 1 - j];
    }
    r := Some(sorted);
  }

  /**
   * The second half of Kosaraju's algorithm: vertices leave the stack from
   * its top, and each one not yet visited roots a pre-order search of the
   * transposed adjacency `tadj`.  For a stack in finish order each search
   * meets exactly the strongly connected component of its root in `adj`.
   */
  method Components<T(!new)>(tadj: Adjacency<T>, ghost adj: Adjacency<T>, stack: seq<T>) returns (sccs: seq<seq<T>>)
    requires Nodes(tadj) <= Elems(stack)
    requires Nodes(adj) <= Elems(stack) && IsTranspose(tadj, adj, Elems(stack)) && SccOrdered(adj, stack)
    ensures Distinct(Flatten(sccs)) && Elems(Flatten(sccs)) == Elems(stack)
    ensures forall k :: 0 <= k < |sccs| ==> sccs[k] != [] && forall x :: x in sccs[k] ==> Reachable(tadj, sccs[k][0], x)
    ensures forall k, x :: 0 <= k < |sccs| ==> (x in sccs[k] <==> Mutual(adj, sccs[k][0], x))
  {
    var visited: set<T> := {};
    var remaining := stack;
    sccs := [];
    while remaining != []
      invariant |remaining| <= |stack| && remaining == stack[..|remaining|]
      invariant SecondPass(tadj, adj, stack, |remaining|, visited, sccs)
      decreases |remaining|
    {
      remaining := remaining[..|remaining| - 1];
      visited, sccs := Pop(tadj, adj, stack, |remaining|, visited, sccs);
    }
    assert stack[..0] == [];
  }

  /**
   * One iteration of the second pass: pop `stack[n]` and, unless it is
   * already visited, search the transpose from it for a new component.
   */
  method Pop<T(!new)>(tadj: Adjacency<T>, ghost adj: Adjacency<T>, stack: seq<T>, n: nat,
                      visited: set<T>, sccs: seq<seq<T>>) returns (visited': set<T>, sccs': seq<seq<T>>)
    requires Nodes(tadj) <= Elems(stack)
    requires Nodes(adj) <= Elems(stack) && IsTranspose(tadj, adj, Elems(stack)) && SccOrdered(adj, stack)
    requires n < |stack| && SecondPass(tadj, adj, stack, n + 1, visited, sccs)
    ensures SecondPass(tadj, adj, stack, n, visited', sccs')
  {
    var vertex := stack[n];
    if vertex in visited {
      SkipVisited(tadj, adj, stack, n, visited, sccs);
      visited', sccs' := visited, sccs;
    } else {
      var scc: seq<T>;
      visited', scc := PreOrder(tadj, vertex, visited, [], {}, Elems(stack));
      assert scc[0..] == scc;
      AddComponent(tadj, adj, stack, n, visited, visited', sccs, scc);
      sccs' := sccs + [scc];
    }
  }

  /**
   * The state of the second pass with the stack popped down to its first `n`
   * vertices: the components found so far partition the visited vertices,
   * every popped vertex is visited, the visited set is closed under the
   * transpose and under mutual reachability, and each component is exactly
   * what mutually reaches its first vertex.
   */
  ghost predicate SecondPass<T(!new)>(tadj: Adjacency<T>, adj: Adjacency<T>, stack: seq<T>, n: nat,
                                      visited: set<T>, sccs: seq<seq<T>>)
  {
    n <= |stack| && Partitioned(stack, n, visited, sccs) && PreState(tadj, visited, {}) &&
    (forall a, b :: a in visited && Mutual(adj, a, b) ==> b in visited) &&
    Found(tadj, adj, sccs)
  }

  /** The components partition the visited vertices, which hold every popped vertex. */
  ghost predicate Partitioned<T>(stack: seq<T>, n: nat, visited: set<T>, sccs: seq<seq<T>>)
  {
    Distinct(Flatten(sccs)) && Elems(Flatten(sccs)) == visited &&
    visited <= Elems(stack) && n <= |stack| && Elems(stack) <= visited + Elems(stack[..n]) &&
    forall j :: n <= j < |stack| ==> stack[j] in visited
  }

  /** Each component found is reached from its first vertex in the transpose and is its component. */
  ghost predicate Found<T(!new)>(tadj: Adjacency<T>, adj: Adjacency<T>, sccs: seq<seq<T>>)
  {
    (forall k :: 0 <= k < |sccs| ==> sccs[k] != [] && forall x :: x in sccs[k] ==> Reachable(tadj, sccs[k][0], x)) &&
    (forall k, x :: 0 <= k < |sccs| ==> (x in sccs[k] <==> Mutual(adj, sccs[k][0], x)))
  }

  /** Popping a vertex already visited changes nothing else. */
  lemma SkipVisited<T(!new)>(tadj: Adjacency<T>, adj: Adjacency<T>, stack: seq<T>, n: nat,
                             visited: set<T>, sccs: seq<seq<T>>)
    requires SecondPass(tadj, adj, stack, n + 1, visited, sccs) && stack[n] in visited
    ensures SecondPass(tadj, adj, stack, n, visited, sccs)
  {
    assert stack[..n + 1] == stack[..n] + [stack[n]];
  }

  /** Popping an unvisited vertex and searching the transpose from it adds its component. */
  lemma AddComponent<T(!new)>(tadj: Adjacency<T>, adj: Adjacency<T>, stack: seq<T>, n: nat,
                              visited: set<T>, visited': set<T>, sccs: seq<seq<T>>, scc: seq<T>)
    requires Nodes(adj) <= Elems(stack) && IsTranspose(tadj, adj, Elems(stack)) && SccOrdered(adj, stack)
    requires SecondPass(tadj, adj, stack, n + 1, visited, sccs) && n < |stack| && stack[n] !in visited
    requires PreState(tadj, visited', {}) && visited + {stack[n]} <= visited' <= Elems(stack)
    requires scc != [] && scc[0] == stack[n] && Distinct(scc) && Elems(scc) == visited' - visited
    requires forall x :: x in visited' - visited ==> Reachable(tadj, stack[n], x)
    ensures SecondPass(tadj, adj, stack, n, visited', sccs + [scc])
  {
    ComponentIsScc(tadj, adj, stack, n, visited, visited', scc);
    PartitionGrows(stack, n, visited, visited', sccs, scc);
    FoundGrows(tadj, adj, sccs, scc);
  }

  /** The new component's vertices are the newly visited ones. */
  lemma PartitionGrows<T>(stack: seq<T>, n: nat, visited: set<T>, visited': set<T>, sccs: seq<seq<T>>, scc: seq<T>)
    requires Partitioned(stack, n + 1, visited, sccs) && n < |stack|
    requires visited + {stack[n]} <= visited' <= Elems(stack)
    requires Distinct(scc) && Elems(scc) == visited' - visited
    ensures Partitioned(stack, n, visited', sccs + [scc])
  {
    assert stack[..n + 1] == stack[..n] + [stack[n]];
    FlattenAppend(sccs, scc);
    DistinctAppend(Flatten(sccs), scc);
  }

  /** Appending a component that is exactly the root's component keeps every component found. */
  lemma FoundGrows<T(!new)>(tadj: Adjacency<T>, adj: Adjacency<T>, sccs: seq<seq<T>>, scc: seq<T>)
    requires Found(tadj, adj, sccs) && scc != []
    requires forall x :: x in Elems(scc) ==> Reachable(tadj, scc[0], x)
    requires forall x :: x in scc <==> Mutual(adj, scc[0], x)
    ensures Found(tadj, adj, sccs + [scc])
  {
    var sccs' := sccs + [scc];
    forall k | 0 <= k < |sccs'|
      ensures sccs'[k] != [] && forall x :: x in sccs'[k] ==> Reachable(tadj, sccs'[k][0], x)
      ensures forall x :: x in sccs'[k] <==> Mutual(adj, sccs'[k][0], x)
    {
      if k < |sccs| {
        assert sccs'[k] == sccs[k];
      } else {
        assert sccs'[k] == scc;
        forall x | x in scc
          ensures Reachable(tadj, scc[0], x)
        {
          assert x in Elems(scc);
        }
      }
    }
  }

  /**
   * One search of Kosaraju's second pass.  The visited set is closed under
   * the transpose and a union of components, and it holds every vertex
   * above `stack[n]`.  A search from the unvisited `stack[n]` that met only
   * vertices it reaches in the transpose then met exactly its component,
   * and the visited set stays a union of components.
   */
  lemma ComponentIsScc<T(!new)>(tadj: Adjacency<T>, adj: Adjacency<T>, stack: seq<T>, n: nat,
                                visited: set<T>, visited': set<T>, scc: seq<T>)
    requires Nodes(adj) <= Elems(stack) && IsTranspose(tadj, adj, Elems(stack)) && SccOrdered(adj, stack)
    requires n < |stack| && stack[n] !in visited && visited <= visited' <= Elems(stack)
    requires forall j :: n < j < |stack| ==> stack[j] in visited
    requires forall a, b :: a in visited && Mutual(adj, a, b) ==> b in visited
    requires PreState(tadj, visited', {}) && stack[n] in visited'
    requires scc != [] && scc[0] == stack[n] && Elems(scc) == visited' - visited
    requires forall x :: x in visited' - visited ==> Reachable(tadj, stack[n], x)
    ensures forall x :: x in scc <==> Mutual(adj, stack[n], x)
    ensures forall a, b :: a in visited' && Mutual(adj, a, b) ==> b in visited'
  {
    forall x
      ensures x in scc <==> Mutual(adj, stack[n], x)
    {
      if x in scc {
        assert x in Elems(scc);
        MetIsMutual(tadj, adj, stack, n, visited, x);
      }
      if Mutual(adj, stack[n], x) {
        MutualIsMet(tadj, adj, Elems(stack), stack[n], visited, visited', x);
      }
    }
    forall a, b | a in visited' && Mutual(adj, a, b)
      ensures b in visited'
    {
      if a !in visited {
        assert a in Elems(scc);
        MutualThrough(adj, stack[n], a, b);
        MutualIsMet(tadj, adj, Elems(stack), stack[n], visited, visited', b);
      }
    }
  }

  /** A vertex the search met, and so reaching the root, is also reached from it. */
  lemma MetIsMutual<T(!new)>(tadj: Adjacency<T>, adj: Adjacency<T>, stack: seq<T>, n: nat, visited: set<T>, x: T)
    requires IsTranspose(tadj, adj, Elems(stack)) && SccOrdered(adj, stack)
    requires n < |stack| && x in Elems(stack) && x !in visited
    requires forall j :: n < j < |stack| ==> stack[j] in visited
    requires forall a, b :: a in visited && Mutual(adj, a, b) ==> b in visited
    requires Reachable(tadj, stack[n], x)
    ensures Mutual(adj, stack[n], x)
  {
    TransposedReach(tadj, adj, Elems(stack), stack[n], x);
    if !Reachable(adj, stack[n], x) {
      var i :| 0 <= i < |stack| && stack[i] == x;
      var k :| n < k < |stack| && Mutual(adj, stack[i], stack[k]);
      assert Mutual(adj, stack[k], x);
      assert false;
    }
  }

  /** A vertex of the root's component is met by the search from the root. */
  lemma MutualIsMet<T(!new)>(tadj: Adjacency<T>, adj: Adjacency<T>, vertexes: set<T>, r: T,
                             visited: set<T>, visited': set<T>, x: T)
    requires Nodes(adj) <= vertexes && IsTranspose(tadj, adj, vertexes)
    requires r !in visited && forall a, b :: a in visited && Mutual(adj, a, b) ==> b in visited
    requires PreState(tadj, visited', {}) && r in visited' && visited <= visited'
    requires Mutual(adj, r, x)
    ensures x in visited' - visited
  {
    TransposeBack(tadj, adj, vertexes, x, r);
    if x !in visited' {
      Enclosed(tadj, r, visited', x);
    }
    if x in visited {
      assert Mutual(adj, x, r);
      assert false;
    }
  }

  /** Mutual reachability is transitive. */
  lemma MutualThrough<T(!new)>(adj: Adjacency<T>, a: T, b: T, c: T)
    requires Mutual(adj, a, b) && Mutual(adj, b, c)
    ensures Mutual(adj, a, c)
  {
    ReachableTrans(adj, a, b, c);
    ReachableTrans(adj, c, b, a);
  }

  /** Every edge `u -> v` out of a vertex of `vertexes`, reversed. */
  function ReversedPairs<T(==)>(adj: Adjacency<T>, vertexes: set<T>): set<(T, T)>
  {
    set u, v | u in vertexes && u in adj && v in adj[u] :: (v, u)
  }

  /** The first components of the given pairs. */
  function Firsts<T(==)>(pairs: set<(T, T)>): set<T>
  {
    set p | p in pairs :: p.0
  }

  /** The endpoints of the given pairs. */
  function Ends<T(==)>(pairs: set<(T, T)>): set<T>
  {
    Firsts(pairs) + set p | p in pairs :: p.1
  }

  /** The edges of the given pairs. */
  function PairEdges<T(==)>(pairs: set<(T, T)>): set<Edge<T>>
  {
    set p | p in pairs :: Edge(p.0, p.1)
  }

  /** `t` is the transpose of `adj` over `vertexes`: `v -> u` exactly for each edge `u -> v` out of a vertex. */
  ghost predicate IsTranspose<T(!new)>(t: Adjacency<T>, adj: Adjacency<T>, vertexes: set<T>)
  {
    forall a, b :: b in Succ(t, a) <==> b in vertexes && a in Succ(adj, b)
  }

  /** A walk in the transpose is a walk in the graph read backwards. */
  lemma TransposedReach<T(!new)>(t: Adjacency<T>, adj: Adjacency<T>, vertexes: set<T>, a: T, b: T)
    requires IsTranspose(t, adj, vertexes) && Reachable(t, a, b)
    ensures Reachable(adj, b, a)
  {
    var p :| PathBetween(t, p, a, b);
    var r := Reversed(p);
    var n := |p|;
    forall i | 0 <= i < n - 1
      ensures r[i + 1] in Succ(adj, r[i])
    {
      var k := n - 2 - i;
      assert r[i] == p[k + 1] && r[i + 1] == p[k];
      assert p[k + 1] in Succ(t, p[k]);
    }
    assert PathBetween(adj, r, b, a);
  }

  /** A walk in the graph between vertices is a walk in the transpose read backwards. */
  lemma TransposeBack<T(!new)>(t: Adjacency<T>, adj: Adjacency<T>, vertexes: set<T>, a: T, b: T)
    requires IsTranspose(t, adj, vertexes) && Nodes(adj) <= vertexes && Reachable(adj, a, b)
    ensures Reachable(t, b, a)
  {
    var p :| PathBetween(adj, p, a, b);
    var r := Reversed(p);
    var n := |p|;
    forall i | 0 <= i < n - 1
      ensures r[i + 1] in Succ(t, r[i])
    {
      var k := n - 2 - i;
      assert r[i] == p[k + 1] && r[i + 1] == p[k];
      assert p[k + 1] in Succ(adj, p[k]);
      if k > 0 {
        PathInNodes(adj, p, k);
      } else {
        assert p[0] in adj;
      }
    }
    assert PathBetween(t, r, b, a);
  }

  /** The reversed edges run between vertices of the graph. */
  lemma ReversedEnds<T>(adj: Adjacency<T>, vertexes: set<T>)
    requires Nodes(adj) <= vertexes
    ensures Ends(ReversedPairs(adj, vertexes)) <= vertexes
  {
    forall p | p in ReversedPairs(adj, vertexes)
      ensures p.0 in vertexes && p.1 in vertexes
    {
      var u, v :| u in vertexes && u in adj && v in adj[u] && p == (v, u);
    }
  }

  /**
   * The shape every `DirectedGraph` keeps: the adjacency mentions only
   * vertices, no edge is listed twice and every listed edge is in the
   * adjacency (`removeEdge` may leave adjacency entries with no listed edge).
   */
  ghost predicate Digraph<T>(adj: Adjacency<T>, vertexes: set<T>, edges: seq<Edge<T>>)
  {
    Nodes(adj) <= vertexes && Distinct(edges) && forall e :: e in edges ==> e.v in Succ(adj, e.u)
  }

  /** `addVertex` and `removeVertex` of the shared graph model keep that shape. */
  lemma VertexOperationsKeepDigraph<T>(adj: Adjacency<T>, vertexes: set<T>, edges: seq<Edge<T>>, x: T)
    requires Digraph(adj, vertexes, edges)
    ensures Digraph(adj, vertexes + {x}, edges)
    ensures Digraph(AdjacencyAvoiding(adj, x), vertexes - {x}, EdgesAvoiding(edges, x))
  {
    var a := AdjacencyAvoiding(adj, x);
    RemovalPurges(adj, edges, x, edges, []);
    FilterDistinct(edges, (e: Edge<T>) => e.u != x && e.v != x);
    forall k, y | k in a && y in a[k]
      ensures k in vertexes - {x} && y in vertexes - {x}
    {
      assert y in adj[k];
    }
  }

  /** The state of a graph built by `addEdge` from exactly the given pairs, starting empty. */
  ghost predicate BuiltFrom<T(!new)>(adj: Adjacency<T>, vertexes: set<T>, edges: seq<Edge<T>>, pairs: set<(T, T)>)
  {
    adj.Keys == Firsts(pairs) && (forall a, b :: b in Succ(adj, a) <==> (a, b) in pairs) &&
    vertexes == Ends(pairs) && Distinct(edges) && Elems(edges) == PairEdges(pairs)
  }

  /** One more `addEdge(a, b)` builds from one more pair. */
  lemma BuildStep<T(!new)>(adj: Adjacency<T>, vertexes: set<T>, edges: seq<Edge<T>>, pairs: set<(T, T)>, a: T, b: T)
    requires BuiltFrom(adj, vertexes, edges, pairs) && Edge(a, b) !in edges
    ensures BuiltFrom(adj[a := Succ(adj, a) + {b}], vertexes + {a, b}, edges + [Edge(a, b)], pairs + {(a, b)})
  {
    var q := pairs + {(a, b)};
    assert Firsts(q) == Firsts(pairs) + {a};
    DistinctAppend(edges, [Edge(a, b)]);
    assert PairEdges(q) == PairEdges(pairs) + {Edge(a, b)};
    assert Ends(q) == vertexes + {a, b};
  }

  /** A graph built from pairs has the `DirectedGraph` shape. */
  lemma BuiltIsDigraph<T(!new)>(adj: Adjacency<T>, vertexes: set<T>, edges: seq<Edge<T>>, pairs: set<(T, T)>)
    requires BuiltFrom(adj, vertexes, edges, pairs)
    ensures Digraph(adj, vertexes, edges)
  {
    forall a, b | a in adj && b in adj[a]
      ensures a in vertexes && b in vertexes
    {
      assert b in Succ(adj, a);
    }
    forall e | e in edges
      ensures e.v in Succ(adj, e.u)
    {
      assert e in PairEdges(pairs);
      var p :| p in pairs && e == Edge(p.0, p.1);
    }
  }

  /** The pairs `(v, u)` for every `v` of `vs`. */
  function Incoming<T(==)>(vs: set<T>, u: T): set<(T, T)>
  {
    set v | v in vs :: (v, u)
  }

  /** The bookkeeping of one step of the inner loop of `transpose()`. */
  lemma IncomingMove<T>(pairs: set<(T, T)>, pairs': set<(T, T)>, succ: set<T>, left: set<T>, met: set<T>, v: T, u: T)
    requires left + met == succ && left !! met && v in left
    requires pairs' == pairs + Incoming(met, u)
    requires forall x :: x in succ ==> (x, u) !in pairs
    ensures (left - {v}) + (met + {v}) == succ && (left - {v}) !! (met + {v})
    ensures pairs' + {(v, u)} == pairs + Incoming(met + {v}, u)
    ensures (v, u) !in pairs'
  {
    assert Incoming(met + {v}, u) == Incoming(met, u) + {(v, u)};
  }

  /** Processing one more vertex adds the reversed edges out of it. */
  lemma ReversedPairsAdd<T>(adj: Adjacency<T>, done: set<T>, u: T)
    ensures ReversedPairs(adj, done + {u}) == ReversedPairs(adj, done) + Incoming(Succ(adj, u), u)
    ensures u !in done ==> forall v :: (v, u) in ReversedPairs(adj, done) ==> u in done
  {
    forall p | p in ReversedPairs(adj, done + {u})
      ensures p in ReversedPairs(adj, done) + Incoming(Succ(adj, u), u)
    {
      var x, y :| x in done + {u} && x in adj && y in adj[x] && p == (y, x);
    }
  }

  /** The reversed pairs of a transpose give the transpose's successors. */
  lemma BuiltTranspose<T(!new)>(t: Adjacency<T>, vertexes': set<T>, edges': seq<Edge<T>>, adj: Adjacency<T>, vertexes: set<T>)
    requires BuiltFrom(t, vertexes', edges', ReversedPairs(adj, vertexes))
    ensures IsTranspose(t, adj, vertexes)
  {
    forall a, b
      ensures b in Succ(t, a) <==> b in vertexes && a in Succ(adj, b)
    {
      if b in vertexes && a in Succ(adj, b) {
        assert (a, b) in ReversedPairs(adj, vertexes);
      }
    }
  }

  /** In a graph built from pairs, an edge is listed exactly when its pair was added. */
  lemma BuiltHas<T(!new)>(adj: Adjacency<T>, vertexes: set<T>, edges: seq<Edge<T>>, pairs: set<(T, T)>, a: T, b: T)
    requires BuiltFrom(adj, vertexes, edges, pairs)
    ensures Edge(a, b) in edges <==> (a, b) in pairs
  {
    if (a, b) in pairs {
      assert Edge(a, b) in PairEdges(pairs);
    }
    if Edge(a, b) in edges {
      assert Edge(a, b) in PairEdges(pairs);
      var p :| p in pairs && Edge(a, b) == Edge(p.0, p.1);
    }
  }

  /**
   * A directed graph: the shared graph state of `AbstractGraph`, whose
   * vertex operations and `shortestPath` it inherits, with directed edges.
   */
  class DirectedGraph<T(==,!new)> {
    const graph: AbstractGraph<T>

    ghost predicate Valid()
      reads this, graph
    {
      Digraph(graph.adj, graph.vertexes, graph.edges)
    }

    /** A new graph has no vertices and no edges. */
    constructor ()
      ensures Valid() && fresh(graph)
      ensures graph.adj == map[] && graph.vertexes == {} && graph.edges == []
    {
      graph := new AbstractGraph();
    }

    /** `addVertex` of the shared graph keeps the directed shape. */
    method AddVertex(x: T)
      requires Valid()
      modifies graph
      ensures Valid()
      ensures graph.vertexes == old(graph.vertexes) + {x}
      ensures graph.adj == old(graph.adj) && graph.edges == old(graph.edges)
    {
      VertexOperationsKeepDigraph(graph.adj, graph.vertexes, graph.edges, x);
      graph.AddVertex(x);
    }

    /** `removeVertex` of the shared graph keeps the directed shape. */
    method RemoveVertex(x: T) returns (s: Status)
      requires Valid()
      modifies graph
      ensures Valid()
      ensures x !in old(graph.vertexes) ==> s == Raised(VertexNotFound) && unchanged(graph)
      ensures x in old(graph.vertexes) ==>
        s == Done &&
        graph.vertexes == old(graph.vertexes) - {x} &&
        graph.edges == EdgesAvoiding(old(graph.edges), x) &&
        graph.adj == AdjacencyAvoiding(old(graph.adj), x)
    {
      VertexOperationsKeepDigraph(graph.adj, graph.vertexes, graph.edges, x);
      s := graph.RemoveVertex(x);
    }

    /**
     * `addEdge(u, v)`: an edge already listed changes nothing; otherwise it
     * is listed last, both ends become vertices and `v` joins the
     * successors of `u`.
     */
    method AddEdge(u: T, v: T)
      requires Valid()
      modifies graph
      ensures Valid()
      ensures Edge(u, v) in old(graph.edges) ==> unchanged(graph)
      ensures Edge(u, v) !in old(graph.edges) ==>
        graph.edges == old(graph.edges) + [Edge(u, v)] &&
        graph.vertexes == old(graph.vertexes) + {u, v} &&
        graph.adj == old(graph.adj)[u := Succ(old(graph.adj), u) + {v}]
    {
      if Edge(u, v) in graph.edges {
        return;
      }
      DistinctAppend(graph.edges, [Edge(u, v)]);
      graph.edges := graph.edges + [Edge(u, v)];
      graph.vertexes := graph.vertexes + {u, v};
      graph.adj := graph.adj[u := Succ(graph.adj, u) + {v}];
    }

    /**
     * `removeEdge(u, v)`: the edge leaves the list, all others keep their
     * order; the adjacency map and the vertices stay as they were.
     */
    method RemoveEdge(u: T, v: T)
      requires Valid()
      modifies graph
      ensures Valid()
      ensures graph.edges == Filter(old(graph.edges), (e: Edge<T>) => e != Edge(u, v))
      ensures Elems(graph.edges) == Elems(old(graph.edges)) - {Edge(u, v)}
      ensures graph.adj == old(graph.adj) && graph.vertexes == old(graph.vertexes)
    {
      FilterDistinct(graph.edges, (e: Edge<T>) => e != Edge(u, v));
      graph.edges := Filter(graph.edges, (e: Edge<T>) => e != Edge(u, v));
    }

    /** `edgeCount()`: the length of the edge list, which counts every listed edge once. */
    function EdgeCount(): (n: nat)
      requires Valid()
      reads this, graph
      ensures n == |graph.edges| && n == |Elems(graph.edges)|
    {
      DistinctElems(graph.edges);
      |graph.edges|
    }

    /** `isCyclic()`: whether some walk returns to its start. */
    method IsCyclic() returns (cycle: bool)
      requires Valid()
      ensures cycle <==> HasCycle(graph.adj)
    {
      cycle := IsCyclicIn(graph.adj, graph.vertexes);
    }

    /**
     * `topologicalSort()`: `null` exactly when the graph has a cycle;
     * otherwise every vertex once, each before all its successors.
     */
    method TopologicalSort() returns (r: Option<seq<T>>)
      requires Valid()
      ensures r.None? <==> HasCycle(graph.adj)
      ensures r.Some? ==>
        Distinct(r.value) && Elems(r.value) == graph.vertexes &&
        forall i, j :: 0 <= i < |r.value| && 0 <= j < |r.value| && r.value[j] in Succ(graph.adj, r.value[i]) ==> i < j
    {
      r := TopologicalOrder(graph.adj, graph.vertexes);
    }

    /**
     * `transpose()`: a new graph built by `addEdge(v, u)` for every edge
     * `u -> v` out of a vertex, so its successors are the predecessors here.
     */
    method Transpose() returns (t: DirectedGraph<T>)
      requires Valid()
      ensures fresh(t) && fresh(t.graph) && t.Valid()
      ensures BuiltFrom(t.graph.adj, t.graph.vertexes, t.graph.edges, ReversedPairs(graph.adj, graph.vertexes))
      ensures IsTranspose(t.graph.adj, graph.adj, graph.vertexes)
    {
      t := new DirectedGraph();
      ghost var pairs: set<(T, T)> := {};
      var left := graph.vertexes;
      ghost var done: set<T> := {};
      assert Firsts(pairs) == {} && Ends(pairs) == {} && PairEdges(pairs) == {};
      while left != {}
        invariant fresh(t) && fresh(t.graph)
        invariant left + done == graph.vertexes && left !! done
        invariant pairs == ReversedPairs(graph.adj, done)
        invariant BuiltFrom(t.graph.adj, t.graph.vertexes, t.graph.edges, pairs)
        decreases left
      {
        var u :| u in left;
        left := left - {u};
        pairs := ReverseOut(t, u, done, pairs);
        done := done + {u};
      }
      BuiltIsDigraph(t.graph.adj, t.graph.vertexes, t.graph.edges, pairs);
      BuiltTranspose(t.graph.adj, t.graph.vertexes, t.graph.edges, graph.adj, graph.vertexes);
    }

    /** One round of `transpose()`: `t.addEdge(v, u)` for every successor `v` of `u`. */
    method ReverseOut(t: DirectedGraph<T>, u: T, ghost done: set<T>, ghost pairs: set<(T, T)>)
      returns (ghost pairs': set<(T, T)>)
      requires t.graph != graph && u !in done
      requires pairs == ReversedPairs(graph.adj, done)
      requires BuiltFrom(t.graph.adj, t.graph.vertexes, t.graph.edges, pairs)
      modifies t.graph
      ensures pairs' == ReversedPairs(graph.adj, done + {u})
      ensures BuiltFrom(t.graph.adj, t.graph.vertexes, t.graph.edges, pairs')
    {
      ReversedPairsAdd(graph.adj, done, u);
      if u in graph.adj {
        pairs' := AddAllReversed(t, u, graph.adj[u], pairs);
      } else {
        pairs' := pairs;
      }
    }

    /** The inner loop of `transpose()`: `t.addEdge(v, u)` for every `v` of `succ`. */
    static method AddAllReversed(t: DirectedGraph<T>, u: T, succ: set<T>, ghost pairs: set<(T, T)>)
      returns (ghost pairs': set<(T, T)>)
      requires BuiltFrom(t.graph.adj, t.graph.vertexes, t.graph.edges, pairs)
      requires forall v :: v in succ ==> (v, u) !in pairs
      modifies t.graph
      ensures pairs' == pairs + Incoming(succ, u)
      ensures BuiltFrom(t.graph.adj, t.graph.vertexes, t.graph.edges, pairs')
    {
      pairs' := pairs;
      var left := succ;
      ghost var met: set<T> := {};
      while left != {}
        invariant left + met == succ && left !! met
        invariant pairs' == pairs + Incoming(met, u)
        invariant BuiltFrom(t.graph.adj, t.graph.vertexes, t.graph.edges, pairs')
        decreases left
      {
        var v :| v in left;
        IncomingMove(pairs, pairs', succ, left, met, v, u);
        AddReversed(t, v, u, pairs');
        pairs' := pairs' + {(v, u)};
        left := left - {v};
        met := met + {v};
      }
    }

    /** One `t.addEdge(v, u)` of `transpose()`, on a graph built from pairs without `(v, u)`. */
    static method AddReversed(t: DirectedGraph<T>, v: T, u: T, ghost pairs: set<(T, T)>)
      requires BuiltFrom(t.graph.adj, t.graph.vertexes, t.graph.edges, pairs) && (v, u) !in pairs
      modifies t.graph
      ensures BuiltFrom(t.graph.adj, t.graph.vertexes, t.graph.edges, pairs + {(v, u)})
    {
      BuiltHas(t.graph.adj, t.graph.vertexes, t.graph.edges, pairs, v, u);
      BuildStep(t.graph.adj, t.graph.vertexes, t.graph.edges, pairs, v, u);
      BuiltIsDigraph(t.graph.adj, t.graph.vertexes, t.graph.edges, pairs);
      t.AddEdge(v, u);
    }

    /**
     * Kosaraju's `sccs()`: the vertices in the order their depth-first
     * searches finish, then pre-order searches of the transpose from the
     * last finished vertex still unvisited.  Every vertex lands in exactly
     * one non-empty component, and the members of a component are exactly
     * the vertices that reach its first vertex and are reached from it.
     */
    method StronglyConnectedComponents() returns (sccs: seq<seq<T>>)
      requires Valid()
      ensures Distinct(Flatten(sccs)) && Elems(Flatten(sccs)) == graph.vertexes
      ensures forall k :: 0 <= k < |sccs| ==> sccs[k] != [] && forall x :: x in sccs[k] ==> Reachable(graph.adj, x, sccs[k][0])
      ensures forall k, x :: 0 <= k < |sccs| ==>
        (x in sccs[k] <==> Reachable(graph.adj, x, sccs[k][0]) && Reachable(graph.adj, sccs[k][0], x))
      ensures forall k, x, y :: 0 <= k < |sccs| && x in sccs[k] && Reachable(graph.adj, x, y) && Reachable(graph.adj, y, x) ==> y in sccs[k]
    {
      var order := FinishOrder(graph.adj, graph.vertexes);
      PostOrderSccOrdered(graph.adj, graph.vertexes, order);
      var t := Transpose();
      ReversedEnds(graph.adj, graph.vertexes);
      sccs := Components(t.graph.adj, graph.adj, order);
      forall k, x | 0 <= k < |sccs| && x in sccs[k]
        ensures Reachable(graph.adj, x, sccs[k][0])
      {
        TransposedReach(t.graph.adj, graph.adj, graph.vertexes, sccs[k][0], x);
      }
      forall k, x, y | 0 <= k < |sccs| && x in sccs[k] && Reachable(graph.adj, x, y) && Reachable(graph.adj, y, x)
        ensures y in sccs[k]
      {
        assert Mutual(graph.adj, sccs[k][0], x);
        ReachableTrans(graph.adj, sccs[k][0], x, y);
        ReachableTrans(graph.adj, y, x, sccs[k][0]);
        assert Mutual(graph.adj, sccs[k][0], y);
      }
    }
  }
}
