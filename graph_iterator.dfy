/**
 * `GraphIterator` (src/GraphIterator.java): a breadth-first or depth-first
 * walk over the vertices reachable from a source.  The frontier `Q` is a
 * deque: the next vertex always leaves its front, and newly discovered
 * vertices join its back (breadth first) or its front (depth first).
 */
module GraphIterators {
  import opened Outcomes
  import opened Sequences
  import opened Paths
  import opened UnweightedGraphs

  /**
   * The loop of `next()` over the successors `succ` of the vertex just
   * taken: each successor not yet marked is marked and pushed.  `found`
   * lists the newly marked successors in the order they were met.
   */
  method Spread<T>(succ: set<T>, marked: set<T>, rest: seq<T>, depthFirst: bool)
    returns (marked': set<T>, q: seq<T>, ghost found: seq<T>)
    ensures marked' == marked + succ
    ensures Distinct(found) && Elems(found) == succ - marked
    ensures q == if depthFirst then Reversed(found) + rest else rest + found
  {
    marked', q, found := marked, rest, [];
    var left := succ;
    while left != {}
      invariant left <= succ && marked' == marked + (succ - left)
      invariant Distinct(found) && Elems(found) == (succ - left) - marked
      invariant q == if depthFirst then Reversed(found) + rest else rest + found
      decreases left
    {
      var v :| v in left;
      left := left - {v};
      if v !in marked' {
        marked' := marked' + {v};
        DistinctAppend(found, [v]);
        found := found + [v];
        if depthFirst {
          q := [v] + q;
        } else {
          q := q + [v];
        }
      }
    }
  }

  class GraphIterator<T(==,!new)> {
    /** The frontier: vertices marked but not yet returned. */
    var Q: seq<T>
    /** The adjacency the walk follows, taken from the graph when the iterator is made. */
    var adj: Adjacency<T>
    var marked: set<T>
    var depthFirst: bool
    const source: T
    /** The vertices that have left the frontier. */
    ghost var popped: set<T>

    /**
     * The walk's invariant: the frontier has no duplicates; every marked
     * vertex has either left it or is in it, and is reachable from the
     * source; every vertex that left it has all its successors marked.
     */
    ghost predicate Valid()
      reads this
    {
      Distinct(Q) && marked == popped + Elems(Q) && popped !! Elems(Q) &&
      source in marked && marked <= Nodes(adj) + {source} &&
      (forall x :: x in marked ==> Reachable(adj, source, x)) &&
      (forall x :: x in popped ==> Succ(adj, x) <= marked)
    }

    /** The state after construction: the frontier and the marked set hold the source alone. */
    constructor (adj: Adjacency<T>, source: T, depthFirst: bool)
      ensures Valid()
      ensures this.adj == adj && this.source == source && this.depthFirst == depthFirst
      ensures Q == [source] && marked == {source} && popped == {}
    {
      this.adj := adj;
      this.source := source;
      this.depthFirst := depthFirst;
      Q := [source];
      marked := {source};
      popped := {};
      new;
      assert Elems(Q) == {source};
      ReachableSelf(adj, source);
    }

    /** `hasNext()`: there is more to explore exactly while the frontier is non-empty. */
    function HasNext(): (b: bool)
      reads this
      ensures b <==> |Q| > 0
    {
      Q != []
    }

    /**
     * `next()`: an empty frontier is refused and nothing changes.  Otherwise
     * the front vertex `u` leaves the frontier; Java then reads `adj.get(u)`
     * without a guard, so a `u` with no entry ends in `MissingEntry`.  With an
     * entry, every unmarked successor of `u` is marked and pushed, and `u` is
     * returned; it had never been returned before.
     */
    method Next() returns (r: Outcome<T>, ghost found: seq<T>)
      requires Valid()
      modifies this
      ensures Valid()
      ensures adj == old(adj) && depthFirst == old(depthFirst)
      ensures old(Q) == [] ==> r == Thrown(NothingLeft) && unchanged(this)
      ensures old(Q) != [] ==> old(Q[0]) !in old(popped) && popped == old(popped) + {old(Q[0])}
      ensures old(Q) != [] && old(Q[0]) !in adj ==>
        r == Thrown(MissingEntry) && Q == old(Q[1..]) && marked == old(marked)
      ensures old(Q) != [] && old(Q[0]) in adj ==>
        r == Ok(old(Q[0])) &&
        marked == old(marked) + adj[old(Q[0])] &&
        Distinct(found) && Elems(found) == adj[old(Q[0])] - old(marked) &&
        Q == if depthFirst then Reversed(found) + old(Q[1..]) else old(Q[1..]) + found
    {
      found := [];
      if Q == [] {
        return Thrown(NothingLeft), found;
      }
      var u := Q[0];
      assert Q == [u] + Q[1..];
      Q := Q[1..];
      ghost var before := marked;
      popped := popped + {u};
      if u !in adj {
        return Thrown(MissingEntry), found;
      }
      marked, Q, found := Spread(adj[u], marked, Q, depthFirst);
      StepKeepsWalk(adj, source, u, before, popped - {u}, old(Q), found, marked, Q, depthFirst);
      r := Ok(u);
    }
  }

  /** The frontier update of `next()` keeps the walk's invariant. */
  lemma StepKeepsWalk<T(!new)>(adj: Adjacency<T>, source: T, u: T, marked: set<T>, popped: set<T>,
                                q: seq<T>, found: seq<T>, marked': set<T>, q': seq<T>, depthFirst: bool)
    requires q != [] && u == q[0] && u in adj
    requires Distinct(q) && marked == popped + Elems(q) && popped !! Elems(q)
    requires marked <= Nodes(adj) + {source}
    requires forall x :: x in marked ==> Reachable(adj, source, x)
    requires forall x :: x in popped ==> Succ(adj, x) <= marked
    requires marked' == marked + adj[u]
    requires Distinct(found) && Elems(found) == adj[u] - marked
    requires q' == if depthFirst then Reversed(found) + q[1..] else q[1..] + found
    ensures Distinct(q') && marked' == (popped + {u}) + Elems(q') && (popped + {u}) !! Elems(q')
    ensures marked' <= Nodes(adj) + {source}
    ensures forall x :: x in marked' ==> Reachable(adj, source, x)
    ensures forall x :: x in popped + {u} ==> Succ(adj, x) <= marked'
  {
    var rest := q[1..];
    assert q == [u] + rest;
    assert Elems(q) == {u} + Elems(rest);
    assert Distinct(rest);
    assert u !in Elems(rest);
    ReversedElems(found);
    if depthFirst {
      DistinctAppend(Reversed(found), rest);
    } else {
      DistinctAppend(rest, found);
    }
    SuccInNodes(adj, u);
    forall x | x in marked'
      ensures Reachable(adj, source, x)
    {
      if x !in marked {
        ReachableStep(adj, source, u, x);
      }
    }
  }

  /**
   * The graph's `breadthFirstIterator(source)` and `depthFirstIterator(source)`:
   * a source outside the vertex set is refused; otherwise a fresh iterator
   * over the graph's adjacency starts at the source.
   */
  method NewIterator<T(==,!new)>(graph: AbstractGraph<T>, source: T, depthFirst: bool)
    returns (r: Outcome<GraphIterator<T>>)
    ensures source !in graph.vertexes <==> r == Thrown(SourceNotFound)
    ensures r.Ok? ==>
      fresh(r.value) && r.value.Valid() && r.value.adj == graph.adj &&
      r.value.source == source && r.value.depthFirst == depthFirst &&
      r.value.Q == [source] && r.value.marked == {source}
  {
    if !graph.Contains(source) {
      return Thrown(SourceNotFound);
    }
    var it := new GraphIterator(graph.adj, source, depthFirst);
    r := Ok(it);
  }

  /**
   * Once the frontier is empty, the vertices returned (or taken off with
   * `MissingEntry`) are exactly those reachable from the source.
   */
  lemma Exhausted<T(!new)>(it: GraphIterator<T>)
    requires it.Valid() && it.Q == []
    ensures forall x :: x in it.popped <==> Reachable(it.adj, it.source, x)
  {
    assert it.marked == it.popped;
    forall x | Reachable(it.adj, it.source, x)
      ensures x in it.popped
    {
      if x !in it.popped {
        Enclosed(it.adj, it.source, it.popped, x);
      }
    }
  }

  /**
   * Iteration ends: the vertices that have left the frontier are distinct
   * nodes of the graph or the source, so at most that many calls of
   * `next()` find a non-empty frontier.
   */
  lemma Bounded<T(!new)>(it: GraphIterator<T>)
    requires it.Valid()
    ensures |it.popped| + |it.Q| <= |Nodes(it.adj) + {it.source}|
  {
    DistinctElems(it.Q);
    NoLarger(it.marked, Nodes(it.adj) + {it.source});
  }
}
