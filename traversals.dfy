/**
 * The recursive depth-first searches of the library, over an adjacency map.
 * `PostOrder` appends a vertex once all its successors are done; it is the
 * `DFS2` of `DirectedGraph.topologicalSort` and the `DFS1` of Kosaraju's
 * algorithm, which push to a list and to a stack in the same order.
 * `PreOrder` appends a vertex when it is first met; it is Kosaraju's `DFS2`
 * and `Forest.DFS`.  Every one of them marks a vertex visited on entry and
 * skips a vertex without an adjacency entry.
 */
module Traversals {
  import opened Sequences
  import opened Paths

  /** The vertices whose exploration is under way, outermost first: each a successor of the one before. */
  predicate Chain<T(==)>(adj: Adjacency<T>, stack: seq<T>)
  {
    stack == [] || IsPath(adj, stack)
  }

  /** A vertex on a chain reaches the chain's innermost vertex. */
  lemma ChainReaches<T(!new)>(adj: Adjacency<T>, stack: seq<T>, i: nat)
    requires IsPath(adj, stack) && i < |stack|
    ensures Reachable(adj, stack[i], stack[|stack| - 1])
  {
    var p := stack[i..];
    forall k | 0 <= k < |p| - 1
      ensures p[k + 1] in Succ(adj, p[k])
    {
      assert p[k] == stack[i + k] && p[k + 1] == stack[i + k + 1];
    }
    assert PathBetween(adj, p, stack[i], stack[|stack| - 1]);
  }

  /**
   * The post-order search state: `order` lists the finished vertices and
   * `stack` the ones under way; together they are the visited ones.  A
   * finished vertex has all its successors visited, and each successor was
   * finished before it or reaches it (it was under way when the edge was met).
   */
  ghost predicate PostState<T(!new)>(adj: Adjacency<T>, visited: set<T>, order: seq<T>, stack: seq<T>)
  {
    Distinct(order) && visited == Elems(order) + Elems(stack) && Elems(order) !! Elems(stack) &&
    Chain(adj, stack) &&
    (forall i :: 0 <= i < |order| ==> Succ(adj, order[i]) <= visited) &&
    (forall i, v :: 0 <= i < |order| && v in Succ(adj, order[i]) ==>
      v in order[..i] || Reachable(adj, v, order[i])) &&
    Escapes(adj, order, stack) && FinishedLater(adj, order, stack)
  }

  /**
   * A finished vertex reaches an unfinished one only through a vertex under
   * way that it lies in one component with.
   */
  ghost predicate Escapes<T(!new)>(adj: Adjacency<T>, order: seq<T>, stack: seq<T>)
  {
    forall i, b :: 0 <= i < |order| && b !in order && Reachable(adj, order[i], b) ==>
      exists m :: 0 <= m < |stack| && Mutual(adj, order[i], stack[m])
  }

  /**
   * When a vertex finished before a vertex it reaches but that does not
   * reach it back, its component has a vertex that finished later still,
   * or one still under way.
   */
  ghost predicate FinishedLater<T(!new)>(adj: Adjacency<T>, order: seq<T>, stack: seq<T>)
  {
    forall i, j :: 0 <= i < j < |order| && Reachable(adj, order[i], order[j]) && !Reachable(adj, order[j], order[i]) ==>
      (exists k :: j < k < |order| && Mutual(adj, order[i], order[k])) ||
      (exists m :: 0 <= m < |stack| && Mutual(adj, order[i], stack[m]))
  }

  /** Entering `u` puts it under way. */
  lemma PostEnter<T(!new)>(adj: Adjacency<T>, visited: set<T>, order: seq<T>, stack: seq<T>, u: T)
    requires PostState(adj, visited, order, stack) && u !in visited
    requires stack == [] || u in Succ(adj, stack[|stack| - 1])
    ensures PostState(adj, visited + {u}, order, stack + [u])
  {
    assert Elems(stack + [u]) == Elems(stack) + {u};
    var s := stack + [u];
    if stack != [] {
      forall k | 0 <= k < |s| - 1
        ensures s[k + 1] in Succ(adj, s[k])
      {
        if k < |stack| - 1 {
          assert s[k] == stack[k] && s[k + 1] == stack[k + 1];
        }
      }
    }
    StackGrows(adj, order, stack, u);
  }

  /** Putting another vertex under way keeps every witness under way. */
  lemma StackGrows<T(!new)>(adj: Adjacency<T>, order: seq<T>, stack: seq<T>, u: T)
    requires Escapes(adj, order, stack) && FinishedLater(adj, order, stack)
    ensures Escapes(adj, order, stack + [u]) && FinishedLater(adj, order, stack + [u])
  {
    var s := stack + [u];
    forall i, b | 0 <= i < |order| && b !in order && Reachable(adj, order[i], b)
      ensures exists m :: 0 <= m < |s| && Mutual(adj, order[i], s[m])
    {
      var m :| 0 <= m < |stack| && Mutual(adj, order[i], stack[m]);
      assert s[m] == stack[m];
    }
    forall i, j | 0 <= i < j < |order| && Reachable(adj, order[i], order[j]) && !Reachable(adj, order[j], order[i])
      ensures (exists k :: j < k < |order| && Mutual(adj, order[i], order[k])) ||
              (exists m :: 0 <= m < |s| && Mutual(adj, order[i], s[m]))
    {
      if m :| 0 <= m < |stack| && Mutual(adj, order[i], stack[m]) {
        assert s[m] == stack[m];
      }
    }
  }

  /** Leaving `u`, once its successors are visited, finishes it. */
  lemma PostLeave<T(!new)>(adj: Adjacency<T>, visited: set<T>, order: seq<T>, stack: seq<T>, u: T)
    requires PostState(adj, visited, order, stack + [u]) && u !in Elems(stack)
    requires Succ(adj, u) <= visited
    ensures PostState(adj, visited, order + [u], stack)
  {
    var s := stack + [u];
    var o := order + [u];
    assert Elems(s) == Elems(stack) + {u};
    assert Elems(o) == Elems(order) + {u};
    DistinctAppend(order, [u]);
    if stack != [] {
      forall k | 0 <= k < |stack| - 1
        ensures stack[k + 1] in Succ(adj, stack[k])
      {
        assert stack[k] == s[k] && stack[k + 1] == s[k + 1];
      }
    }
    forall i, v | 0 <= i < |o| && v in Succ(adj, o[i])
      ensures v in o[..i] || Reachable(adj, v, o[i])
    {
      if i < |order| {
        assert o[..i] == order[..i] && o[i] == order[i];
      } else {
        assert o[..i] == order;
        if v !in order {
          var k :| 0 <= k < |s| && s[k] == v;
          ChainReaches(adj, s, k);
        }
      }
    }
    LeaveEscapes(adj, visited, order, stack, u);
    LeaveFinishedLater(adj, visited, order, stack, u);
  }

  /**
   * A vertex that has just finished and reaches an unfinished one lies in
   * one component with a vertex still under way: the walk leaves the
   * finished vertices at a visited, hence unfinished, successor, and every
   * vertex under way reaches the one that just finished.
   */
  lemma ReachesUnderWay<T(!new)>(adj: Adjacency<T>, visited: set<T>, order: seq<T>, stack: seq<T>, u: T, b: T)
    requires PostState(adj, visited, order, stack + [u]) && u !in Elems(stack) && Succ(adj, u) <= visited
    requires b !in order && b != u && Reachable(adj, u, b)
    ensures exists m :: 0 <= m < |stack| && Mutual(adj, u, stack[m])
  {
    var s := stack + [u];
    var o := order + [u];
    assert Elems(o) == Elems(order) + {u};
    assert Elems(s) == Elems(stack) + {u};
    var p :| PathBetween(adj, p, u, b);
    var i := LeavesSet(adj, p, Elems(o));
    var g := p[i + 1];
    if p[i] != u {
      var k :| 0 <= k < |order| && order[k] == p[i];
    }
    var m :| 0 <= m < |stack| && stack[m] == g;
    var q := p[..i + 2];
    assert PathBetween(adj, q, u, g);
    assert s[m] == g;
    ChainReaches(adj, s, m);
  }

  /** Finishing the innermost vertex keeps `Escapes`. */
  lemma LeaveEscapes<T(!new)>(adj: Adjacency<T>, visited: set<T>, order: seq<T>, stack: seq<T>, u: T)
    requires PostState(adj, visited, order, stack + [u]) && u !in Elems(stack) && Succ(adj, u) <= visited
    ensures Escapes(adj, order + [u], stack)
  {
    var s := stack + [u];
    var o := order + [u];
    forall i, b | 0 <= i < |o| && b !in o && Reachable(adj, o[i], b)
      ensures exists m :: 0 <= m < |stack| && Mutual(adj, o[i], stack[m])
    {
      if i == |order| {
        ReachesUnderWay(adj, visited, order, stack, u, b);
      } else {
        assert o[i] == order[i];
        var m :| 0 <= m < |s| && Mutual(adj, order[i], s[m]);
        if m == |stack| {
          assert s[m] == u;
          ReachableTrans(adj, u, order[i], b);
          ReachesUnderWay(adj, visited, order, stack, u, b);
          var n :| 0 <= n < |stack| && Mutual(adj, u, stack[n]);
          ReachableTrans(adj, order[i], u, stack[n]);
          ReachableTrans(adj, stack[n], u, order[i]);
        } else {
          assert s[m] == stack[m];
        }
      }
    }
  }

  /** Finishing the innermost vertex keeps `FinishedLater`. */
  lemma LeaveFinishedLater<T(!new)>(adj: Adjacency<T>, visited: set<T>, order: seq<T>, stack: seq<T>, u: T)
    requires PostState(adj, visited, order, stack + [u]) && u !in Elems(stack)
    ensures FinishedLater(adj, order + [u], stack)
  {
    var s := stack + [u];
    var o := order + [u];
    forall i, j | 0 <= i < j < |o| && Reachable(adj, o[i], o[j]) && !Reachable(adj, o[j], o[i])
      ensures (exists k :: j < k < |o| && Mutual(adj, o[i], o[k])) ||
              (exists m :: 0 <= m < |stack| && Mutual(adj, o[i], stack[m]))
    {
      assert o[i] == order[i];
      if j == |order| {
        assert u in Elems(s) && o[j] == u;
        assert u !in Elems(order);
        var m :| 0 <= m < |s| && Mutual(adj, order[i], s[m]);
        assert s[m] == stack[m];
      } else {
        assert o[j] == order[j];
        if k :| j < k < |order| && Mutual(adj, order[i], order[k]) {
          assert o[k] == order[k];
        } else {
          var m :| 0 <= m < |s| && Mutual(adj, order[i], s[m]);
          if m == |stack| {
            assert o[|order|] == u;
          } else {
            assert s[m] == stack[m];
          }
        }
      }
    }
  }

  /** A vertex reached from a successor `v` of `u` is reached from `u`. */
  lemma ReachThrough<T(!new)>(adj: Adjacency<T>, u: T, v: T, x: T)
    requires v in Succ(adj, u) && Reachable(adj, v, x)
    ensures Reachable(adj, u, x)
  {
    ReachableSelf(adj, u);
    ReachableStep(adj, u, u, v);
    ReachableTrans(adj, u, v, x);
  }

  /**
   * Depth-first search from the unvisited `u`, appending each vertex once
   * its successors are done.  Everything it visits is reachable from `u`,
   * and `u` itself is appended last.
   */
  method PostOrder<T(!new)>(adj: Adjacency<T>, u: T, visited: set<T>, order: seq<T>,
                            ghost stack: seq<T>, ghost universe: set<T>)
    returns (visited': set<T>, order': seq<T>)
    requires PostState(adj, visited, order, stack) && u !in visited
    requires stack == [] || u in Succ(adj, stack[|stack| - 1])
    requires visited + {u} + Nodes(adj) <= universe
    ensures PostState(adj, visited', order', stack)
    ensures visited + {u} <= visited' <= universe
    ensures |order| < |order'| && order'[..|order|] == order && order'[|order'| - 1] == u
    ensures forall x :: x in visited' - visited ==> Reachable(adj, u, x)
    decreases |universe - visited|, 2
  {
    PostEnter(adj, visited, order, stack, u);
    ReachableSelf(adj, u);
    visited', order' := PostChildren(adj, u, visited, order, stack + [u], universe);
    assert u !in Elems(stack);
    PostLeave(adj, visited', order', stack, u);
    ghost var before := order';
    order' := order' + [u];
    assert order'[..|order|] == before[..|order|];
  }

  /** The loop of `PostOrder` over the successors of `u`, which is under way. */
  method PostChildren<T(!new)>(adj: Adjacency<T>, u: T, visited: set<T>, order: seq<T>,
                               ghost inner: seq<T>, ghost universe: set<T>)
    returns (visited': set<T>, order': seq<T>)
    requires inner != [] && inner[|inner| - 1] == u
    requires PostState(adj, visited + {u}, order, inner) && u !in visited
    requires visited + {u} + Nodes(adj) <= universe
    requires Reachable(adj, u, u)
    ensures PostState(adj, visited', order', inner)
    ensures visited + {u} <= visited' <= universe && Succ(adj, u) <= visited'
    ensures |order| <= |order'| && order'[..|order|] == order
    ensures forall x :: x in visited' - visited ==> Reachable(adj, u, x)
    decreases |universe - visited|, 1
  {
    visited', order' := visited + {u}, order;
    if u in adj {
      var rest := adj[u];
      while rest != {}
        invariant rest <= adj[u] && adj[u] - rest <= visited'
        invariant PostState(adj, visited', order', inner)
        invariant visited + {u} <= visited' <= universe
        invariant |order| <= |order'| && order'[..|order|] == order
        invariant forall x :: x in visited' - visited ==> Reachable(adj, u, x)
        decreases rest
      {
        var v :| v in rest;
        rest := rest - {v};
        GrowsStrictly(universe - visited', universe - visited);
        visited', order' := PostChild(adj, u, v, visited, order, visited', order', inner, universe);
      }
    }
  }

  /** One successor `v` of `u` in `PostOrder`: searched from unless already visited. */
  method PostChild<T(!new)>(adj: Adjacency<T>, u: T, v: T, visited0: set<T>, order0: seq<T>,
                            visited: set<T>, order: seq<T>, ghost inner: seq<T>, ghost universe: set<T>)
    returns (visited': set<T>, order': seq<T>)
    requires inner != [] && inner[|inner| - 1] == u && v in Succ(adj, u)
    requires PostState(adj, visited, order, inner)
    requires visited0 + {u} <= visited <= universe && Nodes(adj) <= universe
    requires |order0| <= |order| && order[..|order0|] == order0
    requires forall x :: x in visited - visited0 ==> Reachable(adj, u, x)
    ensures PostState(adj, visited', order', inner)
    ensures visited + {v} <= visited' <= universe
    ensures |order0| <= |order'| && order'[..|order0|] == order0
    ensures forall x :: x in visited' - visited0 ==> Reachable(adj, u, x)
    decreases |universe - visited|, 3
  {
    visited', order' := visited, order;
    if v !in visited {
      visited', order' := PostOrder(adj, v, visited, order, inner, universe);
      assert order'[..|order0|] == order0 by {
        assert order'[..|order|][..|order0|] == order[..|order0|];
      }
      forall x | x in visited' - visited
        ensures Reachable(adj, u, x)
      {
        ReachThrough(adj, u, v, x);
      }
    }
  }

  /**
   * The pre-order search state: `open` holds the vertices whose exploration
   * is under way; every other visited vertex has all its successors visited.
   */
  ghost predicate PreState<T>(adj: Adjacency<T>, visited: set<T>, open: set<T>)
  {
    open <= visited && forall x :: x in visited && x !in open ==> Succ(adj, x) <= visited
  }

  /**
   * Depth-first search from the unvisited `u`, appending each vertex when it
   * is first met: `u` comes first, and the vertices appended are exactly the
   * newly visited ones, each reachable from `u`.
   */
  method PreOrder<T(!new)>(adj: Adjacency<T>, u: T, visited: set<T>, list: seq<T>,
                           ghost open: set<T>, ghost universe: set<T>)
    returns (visited': set<T>, list': seq<T>)
    requires PreState(adj, visited, open) && u !in visited
    requires visited + {u} + Nodes(adj) <= universe
    ensures PreState(adj, visited', open)
    ensures visited + {u} <= visited' <= universe
    ensures |list| < |list'| && list'[..|list|] == list && list'[|list|] == u
    ensures Distinct(list'[|list|..]) && Elems(list'[|list|..]) == visited' - visited
    ensures forall x :: x in visited' - visited ==> Reachable(adj, u, x)
    decreases |universe - visited|
  {
    ReachableSelf(adj, u);
    visited', list' := visited + {u}, list + [u];
    assert list'[|list|..] == [u];
    if u in adj {
      var rest := adj[u];
      while rest != {}
        invariant rest <= adj[u] && adj[u] - rest <= visited'
        invariant PreState(adj, visited', open + {u})
        invariant visited + {u} <= visited' <= universe
        invariant |list| < |list'| && list'[..|list|] == list && list'[|list|] == u
        invariant Distinct(list'[|list|..]) && Elems(list'[|list|..]) == visited' - visited
        invariant forall x :: x in visited' - visited ==> Reachable(adj, u, x)
        decreases rest
      {
        var v :| v in rest;
        rest := rest - {v};
        if v !in visited' {
          GrowsStrictly(universe - visited', universe - visited);
          ghost var mid, before := visited', list';
          visited', list' := PreOrder(adj, v, visited', list', open + {u}, universe);
          PreOrderExtends(list, before, list', visited, mid, visited');
          forall x | x in visited' - mid
            ensures Reachable(adj, u, x)
          {
            ReachThrough(adj, u, v, x);
          }
        }
      }
    }
  }

  /** The bookkeeping for one recursive call of `PreOrder`: it only appends, and appends new vertices. */
  lemma PreOrderExtends<T>(list: seq<T>, before: seq<T>, after: seq<T>, visited: set<T>, mid: set<T>, visited': set<T>)
    requires |list| < |before| && before[..|list|] == list
    requires Distinct(before[|list|..]) && Elems(before[|list|..]) == mid - visited
    requires |before| < |after| && after[..|before|] == before
    requires Distinct(after[|before|..]) && Elems(after[|before|..]) == visited' - mid
    requires visited <= mid <= visited'
    ensures after[..|list|] == list && after[|list|] == before[|list|]
    ensures Distinct(after[|list|..]) && Elems(after[|list|..]) == visited' - visited
  {
    assert after[..|before|][..|list|] == before[..|list|];
    assert after[|list|] == after[..|before|][|list|];
    assert after[|list|..] == before[|list|..] + after[|before|..];
    DistinctAppend(before[|list|..], after[|before|..]);
  }
}
