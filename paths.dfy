/**
 * Paths in an unweighted adjacency map, the `Map<T, Set<T>>` the graphs
 * keep.  A vertex without an entry has no successors, which is how every
 * traversal that guards `adj.get(..) != null` treats it.
 */
module Paths {
  import opened Sequences

  type Adjacency<T> = map<T, set<T>>

  /** The successors of `x`. */
  function Succ<T(==)>(adj: Adjacency<T>, x: T): set<T>
  {
    if x in adj then adj[x] else {}
  }

  /** Every vertex that has an entry or is some entry's successor. */
  function Nodes<T(==)>(adj: Adjacency<T>): set<T>
  {
    adj.Keys + set x, y | x in adj && y in adj[x] :: y
  }

  lemma SuccInNodes<T>(adj: Adjacency<T>, x: T)
    ensures Succ(adj, x) <= Nodes(adj)
  {
  }

  /** A non-empty walk along adjacency edges. */
  predicate IsPath<T(==)>(adj: Adjacency<T>, p: seq<T>)
  {
    |p| >= 1 && forall i :: 0 <= i < |p| - 1 ==> p[i + 1] in Succ(adj, p[i])
  }

  /** A walk from `a` to `b`. */
  predicate PathBetween<T(==)>(adj: Adjacency<T>, p: seq<T>, a: T, b: T)
  {
    IsPath(adj, p) && p[0] == a && p[|p| - 1] == b
  }

  /** `b` can be reached from `a` (every vertex reaches itself). */
  ghost predicate Reachable<T(!new)>(adj: Adjacency<T>, a: T, b: T)
  {
    exists p :: PathBetween(adj, p, a, b)
  }

  /** `a` and `b` reach each other: they lie in one strongly connected component. */
  ghost predicate Mutual<T(!new)>(adj: Adjacency<T>, a: T, b: T)
  {
    Reachable(adj, a, b) && Reachable(adj, b, a)
  }

  /** Some walk from `a` to `b` has exactly `n` edges. */
  ghost predicate WalkOfLength<T(!new)>(adj: Adjacency<T>, a: T, b: T, n: nat)
  {
    exists p :: PathBetween(adj, p, a, b) && |p| == n + 1
  }

  /** `n` is the fewest edges of any walk from `a` to `b`. */
  ghost predicate IsDistance<T(!new)>(adj: Adjacency<T>, a: T, b: T, n: nat)
  {
    WalkOfLength(adj, a, b, n) && forall p :: PathBetween(adj, p, a, b) ==> |p| >= n + 1
  }

  lemma PathExtend<T>(adj: Adjacency<T>, p: seq<T>, a: T, b: T, c: T)
    requires PathBetween(adj, p, a, b) && c in Succ(adj, b)
    ensures PathBetween(adj, p + [c], a, c)
  {
  }

  lemma PathJoin<T>(adj: Adjacency<T>, p: seq<T>, q: seq<T>, a: T, b: T, c: T)
    requires PathBetween(adj, p, a, b) && PathBetween(adj, q, b, c)
    ensures PathBetween(adj, p + q[1..], a, c)
  {
    var r := p + q[1..];
    forall i | 0 <= i < |r| - 1
      ensures r[i + 1] in Succ(adj, r[i])
    {
      if i < |p| - 1 {
        assert r[i] == p[i] && r[i + 1] == p[i + 1];
      } else {
        assert r[i] == q[i - |p| + 1] && r[i + 1] == q[i - |p| + 2];
      }
    }
  }

  lemma ReachableTrans<T(!new)>(adj: Adjacency<T>, a: T, b: T, c: T)
    requires Reachable(adj, a, b) && Reachable(adj, b, c)
    ensures Reachable(adj, a, c)
  {
    var p :| PathBetween(adj, p, a, b);
    var q :| PathBetween(adj, q, b, c);
    PathJoin(adj, p, q, a, b, c);
  }

  lemma ReachableStep<T(!new)>(adj: Adjacency<T>, a: T, b: T, c: T)
    requires Reachable(adj, a, b) && c in Succ(adj, b)
    ensures Reachable(adj, a, c)
  {
    var p :| PathBetween(adj, p, a, b);
    PathExtend(adj, p, a, b, c);
  }

  lemma ReachableSelf<T(!new)>(adj: Adjacency<T>, a: T)
    ensures Reachable(adj, a, a)
  {
    assert PathBetween(adj, [a], a, a);
  }

  /**
   * A walk that leaves a set `S` must cross its boundary: some vertex of `S`
   * on the walk has a successor on the walk outside `S`.
   */
  lemma {:induction false} LeavesSet<T>(adj: Adjacency<T>, p: seq<T>, S: set<T>) returns (i: nat)
    requires IsPath(adj, p) && p[0] in S && p[|p| - 1] !in S
    ensures i < |p| - 1 && p[i] in S && p[i + 1] !in S && p[i + 1] in Succ(adj, p[i])
    decreases |p|
  {
    if p[1] !in S {
      i := 0;
    } else {
      var j := LeavesSet(adj, p[1..], S);
      i := j + 1;
    }
  }

  /** Every vertex reached from a vertex of `Nodes` (or from itself) is the start or a node. */
  lemma PathInNodes<T>(adj: Adjacency<T>, p: seq<T>, i: nat)
    requires IsPath(adj, p) && 0 < i < |p|
    ensures p[i] in Nodes(adj)
  {
    assert p[i] in Succ(adj, p[i - 1]);
  }
}
