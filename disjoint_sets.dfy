/**
 * The union-find structure used by Forest and by Kruskal's spanning tree.
 *
 * The structure is a `parent` map and a `rank` map.  The code as written
 * differs from the textbook structure its documentation describes: `find`
 * never compresses and returns the direct parent, not the root, and `union`
 * links the two parents it got from `find`.  This module models that code
 * (`Find`, `FindUtil`, `Union`, specified by `UnionAsWritten`), shows where it
 * goes wrong, and defines the union by true roots (`UnionByRoot`) that the
 * rest of the model uses.
 */
module DisjointSets {

  /** A snapshot of the two maps. */
  datatype Sets<T> = Sets(parent: map<T, T>, rank: map<T, nat>)

  /** Both maps have the same keys and every parent is itself an element. */
  predicate WellFormed<T(==)>(s: Sets<T>) {
    s.rank.Keys == s.parent.Keys && s.parent.Values <= s.parent.Keys
  }

  // ---------------------------------------------------------------------
  // Parent chains
  // ---------------------------------------------------------------------

  /** The element reached from `x` after following `n` parent links. */
  function Ancestor<T(==)>(p: map<T, T>, x: T, n: nat): (a: T)
    requires x in p && p.Values <= p.Keys
    ensures a in p
    decreases n
  {
    if n == 0 then x else Ancestor(p, p[x], n - 1)
  }

  /** Following at most `n` parent links from `x` ends at a root. */
  predicate RootWithin<T(==)>(p: map<T, T>, x: T, n: nat)
    requires p.Values <= p.Keys
    decreases n
  {
    x in p && (p[x] == x || (n > 0 && RootWithin(p, p[x], n - 1)))
  }

  /** The parent chain from `x` is finite: `find(x)` returns. */
  ghost predicate ReachesRoot<T>(p: map<T, T>, x: T)
    requires p.Values <= p.Keys
  {
    exists n: nat :: RootWithin(p, x, n)
  }

  /** The root at the end of the chain from `x`. */
  function RootOf<T(==)>(p: map<T, T>, x: T, n: nat): (r: T)
    requires p.Values <= p.Keys && RootWithin(p, x, n)
    ensures r in p && p[r] == r
    decreases n
  {
    if p[x] == x then x else RootOf(p, p[x], n - 1)
  }

  /** The number of links from `x` to its root. */
  function Links<T(==)>(p: map<T, T>, x: T, n: nat): (l: nat)
    requires p.Values <= p.Keys && RootWithin(p, x, n)
    ensures l <= n
    decreases n
  {
    if p[x] == x then 0 else 1 + Links(p, p[x], n - 1)
  }

  /** The length of the chain from `x`; what the recursion of `find` consumes. */
  ghost function Depth<T>(p: map<T, T>, x: T): nat
    requires p.Values <= p.Keys && ReachesRoot(p, x)
  {
    var n: nat :| RootWithin(p, x, n); Links(p, x, n)
  }

  /** `a` and `b` have a common ancestor: they are in one set. */
  ghost predicate Joined<T>(p: map<T, T>, a: T, b: T)
    requires p.Values <= p.Keys && a in p && b in p
  {
    exists i: nat, j: nat :: Ancestor(p, a, i) == Ancestor(p, b, j)
  }

  lemma {:induction false} RootWithinMore<T>(p: map<T, T>, x: T, n: nat, m: nat)
    requires p.Values <= p.Keys && RootWithin(p, x, n) && n <= m
    ensures RootWithin(p, x, m)
    ensures RootOf(p, x, m) == RootOf(p, x, n) && Links(p, x, m) == Links(p, x, n)
    decreases n
  {
    if p[x] != x {
      RootWithinMore(p, p[x], n - 1, m - 1);
    }
  }

  /** The root and the chain length do not depend on the bound used to reach them. */
  lemma RootOfUnique<T>(p: map<T, T>, x: T, n: nat, m: nat)
    requires p.Values <= p.Keys && RootWithin(p, x, n) && RootWithin(p, x, m)
    ensures RootOf(p, x, n) == RootOf(p, x, m) && Links(p, x, n) == Links(p, x, m)
  {
    if n <= m { RootWithinMore(p, x, n, m); } else { RootWithinMore(p, x, m, n); }
  }

  /** The root is where the chain ends, `Links` steps up. */
  lemma {:induction false} RootIsAncestor<T>(p: map<T, T>, x: T, n: nat)
    requires p.Values <= p.Keys && RootWithin(p, x, n)
    ensures Ancestor(p, x, Links(p, x, n)) == RootOf(p, x, n)
    decreases n
  {
    if p[x] != x {
      RootIsAncestor(p, p[x], n - 1);
    }
  }

  /** Past the root the chain stays at the root. */
  lemma {:induction false} AncestorPastRoot<T>(p: map<T, T>, x: T, n: nat, k: nat)
    requires p.Values <= p.Keys && RootWithin(p, x, n) && Links(p, x, n) <= k
    ensures Ancestor(p, x, k) == RootOf(p, x, n)
    decreases n
  {
    if p[x] == x {
      AncestorAtRoot(p, x, k);
    } else {
      AncestorPastRoot(p, p[x], n - 1, k - 1);
    }
  }

  lemma {:induction false} AncestorAtRoot<T>(p: map<T, T>, r: T, k: nat)
    requires p.Values <= p.Keys && r in p && p[r] == r
    ensures Ancestor(p, r, k) == r
    decreases k
  {
    if k > 0 { AncestorAtRoot(p, r, k - 1); }
  }

  /** Every ancestor of `x` has the same root as `x`. */
  lemma {:induction false} AncestorSameRoot<T>(p: map<T, T>, x: T, n: nat, i: nat)
    requires p.Values <= p.Keys && RootWithin(p, x, n)
    ensures RootWithin(p, Ancestor(p, x, i), n)
    ensures RootOf(p, Ancestor(p, x, i), n) == RootOf(p, x, n)
    decreases i
  {
    if i > 0 {
      if p[x] == x {
        AncestorSameRoot(p, x, n, i - 1);
      } else {
        RootWithinMore(p, p[x], n - 1, n);
        AncestorSameRoot(p, p[x], n, i - 1);
      }
    }
  }

  /** Whenever both chains end, "one set" means "one root". */
  lemma JoinedIffSameRoot<T>(p: map<T, T>, a: T, b: T, n: nat, m: nat)
    requires p.Values <= p.Keys && RootWithin(p, a, n) && RootWithin(p, b, m)
    ensures Joined(p, a, b) <==> RootOf(p, a, n) == RootOf(p, b, m)
  {
    if Joined(p, a, b) {
      var i: nat, j: nat :| Ancestor(p, a, i) == Ancestor(p, b, j);
      var k := n + m;
      RootWithinMore(p, a, n, k);
      RootWithinMore(p, b, m, k);
      AncestorSameRoot(p, a, k, i);
      AncestorSameRoot(p, b, k, j);
    }
    if RootOf(p, a, n) == RootOf(p, b, m) {
      RootIsAncestor(p, a, n);
      RootIsAncestor(p, b, m);
      assert Ancestor(p, a, Links(p, a, n)) == Ancestor(p, b, Links(p, b, m));
    }
  }

  /** One step up the chain shortens it by one link. */
  lemma DepthStep<T>(p: map<T, T>, x: T)
    requires p.Values <= p.Keys && x in p && ReachesRoot(p, x) && p[x] != x
    ensures ReachesRoot(p, p[x]) && Depth(p, p[x]) < Depth(p, x)
  {
    var n: nat :| RootWithin(p, x, n);
    DepthIs(p, x, n);
    DepthIs(p, p[x], n - 1);
  }

  /** `Depth` is the chain length whatever bound shows the chain ends. */
  lemma DepthIs<T>(p: map<T, T>, x: T, n: nat)
    requires p.Values <= p.Keys && RootWithin(p, x, n)
    ensures ReachesRoot(p, x) && Depth(p, x) == Links(p, x, n)
  {
    var m: nat :| RootWithin(p, x, m) && Depth(p, x) == Links(p, x, m);
    RootOfUnique(p, x, n, m);
  }

  /** A new singleton lies on no existing chain. */
  lemma {:induction false} SingletonKeepsChains<T>(p: map<T, T>, x: T, y: T, n: nat)
    requires p.Values <= p.Keys && RootWithin(p, x, n) && y !in p
    ensures RootWithin(p[y := y], x, n)
    ensures RootOf(p[y := y], x, n) == RootOf(p, x, n)
    decreases n
  {
    if p[x] != x {
      SingletonKeepsChains(p, p[x], y, n - 1);
    }
  }

  // ---------------------------------------------------------------------
  // The operations as written (src/DisjointSetUnion.java)
  // ---------------------------------------------------------------------

  /** `makeSet(x)`: `x` becomes its own parent with rank 0, overwriting any entry. */
  function Singleton<T(==)>(s: Sets<T>, x: T): Sets<T>
  {
    Sets(s.parent[x := x], s.rank[x := 0])
  }

  /** What `find` and `union` do first: `makeSet` only for an unseen element. */
  function Registered<T(==)>(s: Sets<T>, x: T): Sets<T>
  {
    if x in s.parent then s else Singleton(s, x)
  }

  /**
   * `union(x, y)` as written: both elements are registered, `find` turns each
   * into its parent, the parents' parents are compared, and the parent with
   * the lower rank is linked under the other (on a tie the first under the
   * second, whose rank grows).
   */
  function UnionAsWritten<T(==)>(s: Sets<T>, x: T, y: T): (r: (bool, Sets<T>))
    requires WellFormed(s)
    ensures WellFormed(r.1)
    ensures r.1.parent.Keys == s.parent.Keys + {x, y}
  {
    var t := Registered(Registered(s, x), y);
    var fx := t.parent[x];
    var fy := t.parent[y];
    if t.parent[fx] == t.parent[fy] then (false, t)
    else if t.rank[fx] > t.rank[fy] then (true, Sets(t.parent[fy := fx], t.rank))
    else if t.rank[fx] < t.rank[fy] then (true, Sets(t.parent[fx := fy], t.rank))
    else (true, Sets(t.parent[fx := fy], t.rank[fy := t.rank[fy] + 1]))
  }

  /** Registration keeps the maps well formed and adds exactly the new element. */
  lemma RegisteredWellFormed<T>(s: Sets<T>, x: T)
    requires WellFormed(s)
    ensures WellFormed(Registered(s, x)) && x in Registered(s, x).parent
    ensures Registered(s, x).parent.Keys == s.parent.Keys + {x}
  {
  }

  /** Every element is at most two links from its root. */
  predicate WithinTwoLinks<T(==)>(p: map<T, T>)
    requires p.Values <= p.Keys
  {
    forall z :: z in p ==> RootWithin(p, z, 2)
  }

  /**
   * The documented promise, "succeeds iff the elements are in different
   * sets", holds for the code as written while every element is within two
   * links of its root: then the grandparents that `union` compares are the
   * roots.
   */
  lemma UnionWithinTwoLinks<T>(s: Sets<T>, x: T, y: T)
    requires WellFormed(s) && WithinTwoLinks(s.parent)
    ensures var t := Registered(Registered(s, x), y);
      UnionAsWritten(s, x, y).0 <==> !Joined(t.parent, x, y)
  {
    var t := Registered(Registered(s, x), y);
    RegisteredWellFormed(s, x);
    RegisteredWellFormed(Registered(s, x), y);
    var p := t.parent;
    assert RootWithin(p, x, 2) by { RegisteredKeepsChain(s, x, y, x, 2); }
    assert RootWithin(p, y, 2) by { RegisteredKeepsChain(s, x, y, y, 2); }
    AncestorPastRoot(p, x, 2, 2);
    AncestorPastRoot(p, y, 2, 2);
    JoinedIffSameRoot(p, x, y, 2, 2);
  }

  /** Registering two elements keeps every chain bound of `s` and adds roots. */
  lemma RegisteredKeepsChain<T>(s: Sets<T>, x: T, y: T, z: T, n: nat)
    requires WellFormed(s) && (z in s.parent ==> RootWithin(s.parent, z, n))
    requires z == x || z == y || z in s.parent
    ensures var t := Registered(Registered(s, x), y);
      WellFormed(t) && RootWithin(t.parent, z, n)
  {
    var s1 := Registered(s, x);
    RegisteredWellFormed(s, x);
    RegisteredWellFormed(s1, y);
    if z in s.parent && x !in s.parent {
      SingletonKeepsChains(s.parent, z, x, n);
    }
    if z in s1.parent && y !in s1.parent {
      SingletonKeepsChains(s1.parent, z, y, n);
    }
  }

  /**
   * Ranks never decrease, and they change only when the two parents compared
   * had equal rank (src/DisjointSetUnion.java:94-101).
   */
  lemma UnionAsWrittenRanks<T>(s: Sets<T>, x: T, y: T)
    requires WellFormed(s)
    ensures var t := Registered(Registered(s, x), y);
      var r := UnionAsWritten(s, x, y);
      (forall k :: k in t.rank ==> k in r.1.rank && r.1.rank[k] >= t.rank[k]) &&
      (r.1.rank != t.rank ==> r.0 && t.rank[t.parent[x]] == t.rank[t.parent[y]])
  {
  }

  /**
   * A refused union only registers the two elements; an accepted one changes
   * the parent of exactly one element, a parent returned by `find`, and
   * points it to the other parent, of no lower rank.  Ranks stay as they
   * were unless the two ranks tie; then the first goes under the second,
   * whose rank grows by one (src/DisjointSetUnion.java:88-101).
   */
  lemma UnionAsWrittenLinksOne<T>(s: Sets<T>, x: T, y: T)
    requires WellFormed(s)
    ensures var t := Registered(Registered(s, x), y);
      var r := UnionAsWritten(s, x, y);
      var fx, fy := t.parent[x], t.parent[y];
      (!r.0 <==> t.parent[fx] == t.parent[fy]) &&
      (!r.0 ==> r.1 == t) &&
      (r.0 ==> exists lo, hi ::
         {lo, hi} == {fx, fy} && t.rank[lo] <= t.rank[hi] &&
         r.1.parent == t.parent[lo := hi]) &&
      (r.0 && t.rank[fx] != t.rank[fy] ==> r.1.rank == t.rank) &&
      (r.0 && t.rank[fx] == t.rank[fy] ==>
         r.1.parent == t.parent[fx := fy] && r.1.rank == t.rank[fy := t.rank[fy] + 1])
  {
    var t := Registered(Registered(s, x), y);
    RegisteredWellFormed(s, x);
    RegisteredWellFormed(Registered(s, x), y);
    var fx, fy := t.parent[x], t.parent[y];
    var r := UnionAsWritten(s, x, y);
    if r.0 {
      if t.rank[fx] > t.rank[fy] {
        assert {fy, fx} == {fx, fy} && r.1.parent == t.parent[fy := fx];
      } else {
        assert r.1.parent == t.parent[fx := fy];
      }
    }
  }

  /** After the union (0,1). */
  const JoinedOne: Sets<int> := Sets(map[0 := 1, 1 := 1],
    map[0 := 0, 1 := 1])

  /** After the unions (0,1), (2,3). */
  const JoinedTwo: Sets<int> := Sets(map[0 := 1, 1 := 1, 2 := 3, 3 := 3],
    map[0 := 0, 1 := 1, 2 := 0, 3 := 1])

  /** After the unions (0,1), (2,3), (0,2): 0, 1, 2, 3 form one set. */
  const JoinedThree: Sets<int> := Sets(map[0 := 1, 1 := 3, 2 := 3, 3 := 3],
    map[0 := 0, 1 := 1, 2 := 0, 3 := 2])

  /** After a further union (4,5). */
  const JoinedFour: Sets<int> := Sets(map[0 := 1, 1 := 3, 2 := 3, 3 := 3, 4 := 5, 5 := 5],
    map[0 := 0, 1 := 1, 2 := 0, 3 := 2, 4 := 0, 5 := 1])

  /** After a further union (0,4): 1 has moved from under 3 to under 5. */
  const Separated: Sets<int> := Sets(map[0 := 1, 1 := 5, 2 := 3, 3 := 3, 4 := 5, 5 := 5],
    map[0 := 0, 1 := 1, 2 := 0, 3 := 2, 4 := 0, 5 := 2])

  /** After the unions (0,1), (2,3), (0,2), (4,5), (4,0). */
  const CycleFive: Sets<int> := Sets(map[0 := 1, 1 := 3, 2 := 3, 3 := 3, 4 := 5, 5 := 1],
    map[0 := 0, 1 := 2, 2 := 0, 3 := 2, 4 := 0, 5 := 1])

  /** After a further union (6,7). */
  const CycleSix: Sets<int> := Sets(map[0 := 1, 1 := 3, 2 := 3, 3 := 3, 4 := 5, 5 := 1, 6 := 7, 7 := 7],
    map[0 := 0, 1 := 2, 2 := 0, 3 := 2, 4 := 0, 5 := 1, 6 := 0, 7 := 1])

  /** After a further union (6,4). */
  const CycleSeven: Sets<int> := Sets(map[0 := 1, 1 := 3, 2 := 3, 3 := 3, 4 := 5, 5 := 1, 6 := 7, 7 := 5],
    map[0 := 0, 1 := 2, 2 := 0, 3 := 2, 4 := 0, 5 := 2, 6 := 0, 7 := 1])

  /** After a further union (0,4): 1 and 5 are each other's parent. */
  const CycleEight: Sets<int> := Sets(map[0 := 1, 1 := 5, 2 := 3, 3 := 3, 4 := 5, 5 := 1, 6 := 7, 7 := 5],
    map[0 := 0, 1 := 2, 2 := 0, 3 := 2, 4 := 0, 5 := 3, 6 := 0, 7 := 1])

  /** The union (0,1) from the empty structure. */
  lemma JoinStep1()
    ensures UnionAsWritten(Sets(map[], map[]), 0, 1) == (true, JoinedOne)
  {
    var t := Registered(Registered(Sets(map[], map[]), 0), 1);
    assert t == Sets(map[0 := 0, 1 := 1], map[0 := 0, 1 := 0]);
    assert t.parent[0 := 1] == map[0 := 1, 1 := 1];
    assert t.rank[1 := 1] == map[0 := 0, 1 := 1];
  }

  /** The union (2,3). */
  lemma JoinStep2()
    ensures UnionAsWritten(JoinedOne, 2, 3) == (true, JoinedTwo)
  {
    var t := Registered(Registered(JoinedOne, 2), 3);
    assert t == Sets(map[0 := 1, 1 := 1, 2 := 2, 3 := 3], map[0 := 0, 1 := 1, 2 := 0, 3 := 0]);
    assert t.parent[2 := 3] == map[0 := 1, 1 := 1, 2 := 3, 3 := 3];
    assert t.rank[3 := 1] == map[0 := 0, 1 := 1, 2 := 0, 3 := 1];
  }

  /** The union (0,2). */
  lemma JoinStep3()
    ensures UnionAsWritten(JoinedTwo, 0, 2) == (true, JoinedThree)
  {
    var t := Registered(Registered(JoinedTwo, 0), 2);
    assert t == Sets(map[0 := 1, 1 := 1, 2 := 3, 3 := 3], map[0 := 0, 1 := 1, 2 := 0, 3 := 1]);
    assert t.parent[1 := 3] == map[0 := 1, 1 := 3, 2 := 3, 3 := 3];
    assert t.rank[3 := 2] == map[0 := 0, 1 := 1, 2 := 0, 3 := 2];
  }

  /** The union (4,5). */
  lemma JoinStep4()
    ensures UnionAsWritten(JoinedThree, 4, 5) == (true, JoinedFour)
  {
    var t := Registered(Registered(JoinedThree, 4), 5);
    assert t == Sets(map[0 := 1, 1 := 3, 2 := 3, 3 := 3, 4 := 4, 5 := 5], map[0 := 0, 1 := 1, 2 := 0, 3 := 2, 4 := 0, 5 := 0]);
    assert t.parent[4 := 5] == map[0 := 1, 1 := 3, 2 := 3, 3 := 3, 4 := 5, 5 := 5];
    assert t.rank[5 := 1] == map[0 := 0, 1 := 1, 2 := 0, 3 := 2, 4 := 0, 5 := 1];
  }

  /** The union (0,4) that separates 0 from 2. */
  lemma SeparateStep()
    ensures UnionAsWritten(JoinedFour, 0, 4) == (true, Separated)
  {
    var t := Registered(Registered(JoinedFour, 0), 4);
    assert t == Sets(map[0 := 1, 1 := 3, 2 := 3, 3 := 3, 4 := 5, 5 := 5], map[0 := 0, 1 := 1, 2 := 0, 3 := 2, 4 := 0, 5 := 1]);
    assert t.parent[1 := 5] == map[0 := 1, 1 := 5, 2 := 3, 3 := 3, 4 := 5, 5 := 5];
    assert t.rank[5 := 2] == map[0 := 0, 1 := 1, 2 := 0, 3 := 2, 4 := 0, 5 := 2];
  }

  /** The union (0,3) succeeds. */
  lemma CloseStep()
    ensures UnionAsWritten(Separated, 0, 3).0
  {
    var t := Registered(Registered(Separated, 0), 3);
    assert t == Sets(map[0 := 1, 1 := 5, 2 := 3, 3 := 3, 4 := 5, 5 := 5], map[0 := 0, 1 := 1, 2 := 0, 3 := 2, 4 := 0, 5 := 2]);
  }

  /** The union (4,0). */
  lemma CycleStep5()
    ensures UnionAsWritten(JoinedFour, 4, 0) == (true, CycleFive)
  {
    var t := Registered(Registered(JoinedFour, 4), 0);
    assert t == Sets(map[0 := 1, 1 := 3, 2 := 3, 3 := 3, 4 := 5, 5 := 5], map[0 := 0, 1 := 1, 2 := 0, 3 := 2, 4 := 0, 5 := 1]);
    assert t.parent[5 := 1] == map[0 := 1, 1 := 3, 2 := 3, 3 := 3, 4 := 5, 5 := 1];
    assert t.rank[1 := 2] == map[0 := 0, 1 := 2, 2 := 0, 3 := 2, 4 := 0, 5 := 1];
  }

  /** The union (6,7). */
  lemma CycleStep6()
    ensures UnionAsWritten(CycleFive, 6, 7) == (true, CycleSix)
  {
    var t := Registered(Registered(CycleFive, 6), 7);
    assert t == Sets(map[0 := 1, 1 := 3, 2 := 3, 3 := 3, 4 := 5, 5 := 1, 6 := 6, 7 := 7], map[0 := 0, 1 := 2, 2 := 0, 3 := 2, 4 := 0, 5 := 1, 6 := 0, 7 := 0]);
    assert t.parent[6 := 7] == map[0 := 1, 1 := 3, 2 := 3, 3 := 3, 4 := 5, 5 := 1, 6 := 7, 7 := 7];
    assert t.rank[7 := 1] == map[0 := 0, 1 := 2, 2 := 0, 3 := 2, 4 := 0, 5 := 1, 6 := 0, 7 := 1];
  }

  /** The union (6,4). */
  lemma CycleStep7()
    ensures UnionAsWritten(CycleSix, 6, 4) == (true, CycleSeven)
  {
    var t := Registered(Registered(CycleSix, 6), 4);
    assert t == Sets(map[0 := 1, 1 := 3, 2 := 3, 3 := 3, 4 := 5, 5 := 1, 6 := 7, 7 := 7], map[0 := 0, 1 := 2, 2 := 0, 3 := 2, 4 := 0, 5 := 1, 6 := 0, 7 := 1]);
    assert t.parent[7 := 5] == map[0 := 1, 1 := 3, 2 := 3, 3 := 3, 4 := 5, 5 := 1, 6 := 7, 7 := 5];
    assert t.rank[5 := 2] == map[0 := 0, 1 := 2, 2 := 0, 3 := 2, 4 := 0, 5 := 2, 6 := 0, 7 := 1];
  }

  /** The union (0,4) that closes the cycle. */
  lemma CycleStep8()
    ensures UnionAsWritten(CycleSeven, 0, 4) == (true, CycleEight)
  {
    var t := Registered(Registered(CycleSeven, 0), 4);
    assert t == Sets(map[0 := 1, 1 := 3, 2 := 3, 3 := 3, 4 := 5, 5 := 1, 6 := 7, 7 := 5], map[0 := 0, 1 := 2, 2 := 0, 3 := 2, 4 := 0, 5 := 2, 6 := 0, 7 := 1]);
    assert t.parent[1 := 5] == map[0 := 1, 1 := 5, 2 := 3, 3 := 3, 4 := 5, 5 := 1, 6 := 7, 7 := 5];
    assert t.rank[5 := 3] == map[0 := 0, 1 := 2, 2 := 0, 3 := 2, 4 := 0, 5 := 3, 6 := 0, 7 := 1];
  }


  /**
   * `union` can separate elements it has already joined.  After the unions
   * (0,1), (2,3), (0,2) from the empty structure the elements 0 and 2 are in
   * one set; after the further unions (4,5) and (0,4) they are not, since
   * `find(0)` returned 1, not the root 3, and 1 was moved under 5.  A
   * following `union(0, 3)` then succeeds, which is how `Forest.addEdge(0, 3)`
   * accepts an edge that closes the cycle 0-2-3.
   */
  lemma UnionAsWrittenSeparates()
    ensures UnionAsWritten(Sets(map[], map[]), 0, 1).1 == JoinedOne
    ensures UnionAsWritten(JoinedOne, 2, 3).1 == JoinedTwo
    ensures UnionAsWritten(JoinedTwo, 0, 2).1 == JoinedThree
    ensures Joined(JoinedThree.parent, 0, 2)
    ensures UnionAsWritten(JoinedThree, 4, 5).1 == JoinedFour
    ensures UnionAsWritten(JoinedFour, 0, 4).1 == Separated
    ensures !Joined(Separated.parent, 0, 2)
    ensures UnionAsWritten(Separated, 0, 3).0
  {
    JoinStep1();
    JoinStep2();
    JoinStep3();
    JoinedAfterThree();
    JoinStep4();
    SeparateStep();
    ApartAfterFive();
    CloseStep();
  }

  lemma JoinedAfterThree()
    ensures Joined(JoinedThree.parent, 0, 2)
  {
    var p := JoinedThree.parent;
    assert RootWithin(p, 0, 2) && RootWithin(p, 2, 2);
    JoinedIffSameRoot(p, 0, 2, 2, 2);
  }

  lemma ApartAfterFive()
    ensures !Joined(Separated.parent, 0, 2)
  {
    var p := Separated.parent;
    assert RootWithin(p, 0, 2) && RootWithin(p, 2, 2);
    JoinedIffSameRoot(p, 0, 2, 2, 2);
  }

  /** The chain from 1 through 5 and back never ends. */
  lemma {:induction false} NoRootOnTwoCycle(p: map<int, int>, n: nat)
    requires p.Values <= p.Keys && 1 in p && 5 in p && p[1] == 5 && p[5] == 1
    ensures !RootWithin(p, 1, n)
    decreases n
  {
    if n >= 2 {
      NoRootOnTwoCycle(p, n - 2);
    }
  }

  /**
   * `union` can close a cycle of parent links, after which `find` never
   * returns: after the unions (0,1), (2,3), (0,2), (4,5), (4,0), (6,7), (6,4),
   * (0,4) from the empty structure, 1 and 5 are each other's parent, on the
   * chain of 0.
   */
  lemma UnionAsWrittenMakesCycle()
    ensures UnionAsWritten(JoinedFour, 4, 0).1 == CycleFive
    ensures UnionAsWritten(CycleFive, 6, 7).1 == CycleSix
    ensures UnionAsWritten(CycleSix, 6, 4).1 == CycleSeven
    ensures UnionAsWritten(CycleSeven, 0, 4).1 == CycleEight
    ensures 0 in CycleEight.parent && !ReachesRoot(CycleEight.parent, 0)
  {
    CycleStep5();
    CycleStep6();
    CycleStep7();
    CycleStep8();
    NoRootAfterCycle();
  }

  lemma NoRootAfterCycle()
    ensures 0 in CycleEight.parent && !ReachesRoot(CycleEight.parent, 0)
  {
    var p := CycleEight.parent;
    if ReachesRoot(p, 0) {
      var n: nat :| RootWithin(p, 0, n);
      NoRootOnTwoCycle(p, n - 1);
    }
  }

  // ---------------------------------------------------------------------
  // The union by true roots that the documentation promises
  // ---------------------------------------------------------------------

  /** Every non-root has a parent of strictly higher rank (union by rank). */
  predicate RankOrdered<T(==)>(s: Sets<T>)
    requires WellFormed(s)
  {
    forall z :: z in s.parent && s.parent[z] != z ==> s.rank[s.parent[z]] > s.rank[z]
  }

  /** The elements of higher rank than `x`; shrinks along a rank-ordered chain. */
  ghost function Above<T>(s: Sets<T>, x: T): set<T>
    requires WellFormed(s) && x in s.rank
  {
    set z | z in s.rank && s.rank[z] > s.rank[x]
  }

  lemma AboveShrinks<T>(s: Sets<T>, x: T)
    requires WellFormed(s) && RankOrdered(s) && x in s.parent && s.parent[x] != x
    ensures |Above(s, s.parent[x])| < |Above(s, x)|
  {
    var px := s.parent[x];
    var hi, lo := Above(s, x), Above(s, px);
    assert px in hi - lo;
    assert lo <= hi;
    assert hi == lo + (hi - lo);
    assert |hi - lo| >= 1 by { assert {px} <= hi - lo; }
  }

  /** The root of `x`, found by following parent links. */
  function Representative<T(==)>(s: Sets<T>, x: T): (r: T)
    requires WellFormed(s) && RankOrdered(s) && x in s.parent
    ensures RootWithin(s.parent, x, |Above(s, x)|)
    ensures r == RootOf(s.parent, x, |Above(s, x)|)
    decreases |Above(s, x)|
  {
    if s.parent[x] == x then x
    else
      AboveShrinks(s, x);
      var r := Representative(s, s.parent[x]);
      RootWithinMore(s.parent, s.parent[x], |Above(s, s.parent[x])|, |Above(s, x)| - 1);
      r
  }

  /** Under union by rank every chain ends: the corrected `find` returns. */
  lemma RankOrderedReachesRoot<T>(s: Sets<T>, x: T)
    requires WellFormed(s) && RankOrdered(s) && x in s.parent
    ensures ReachesRoot(s.parent, x)
  {
    var r := Representative(s, x);
  }

  lemma RegisteredOrdered<T>(s: Sets<T>, x: T)
    requires WellFormed(s) && RankOrdered(s)
    ensures WellFormed(Registered(s, x)) && RankOrdered(Registered(s, x))
  {
  }

  /** Follows parent links from `x` until an element is its own parent. */
  method ClimbToRoot<T(==)>(s: Sets<T>, x: T) returns (r: T)
    requires WellFormed(s) && RankOrdered(s) && x in s.parent
    ensures r == Representative(s, x)
    ensures r in s.parent && s.parent[r] == r && Joined(s.parent, x, r)
  {
    r := x;
    while s.parent[r] != r
      invariant r in s.parent
      invariant Representative(s, r) == Representative(s, x)
      decreases |Above(s, r)|
    {
      AboveShrinks(s, r);
      r := s.parent[r];
    }
    var n := |Above(s, x)|;
    RootIsAncestor(s.parent, x, n);
    assert Ancestor(s.parent, r, 0) == r;
  }

  /** Registering another element moves no existing element to a different root. */
  lemma RegisteredKeepsRepresentative<T>(s: Sets<T>, y: T, x: T)
    requires WellFormed(s) && RankOrdered(s) && x in s.parent
    ensures WellFormed(Registered(s, y)) && RankOrdered(Registered(s, y))
    ensures Representative(Registered(s, y), x) == Representative(s, x)
  {
    RegisteredOrdered(s, y);
    if y !in s.parent {
      var t := Registered(s, y);
      var n, m := |Above(s, x)|, |Above(t, x)|;
      var r, q := Representative(s, x), Representative(t, x);
      SingletonKeepsChains(s.parent, x, y, n);
      RootOfUnique(t.parent, x, n, m);
    }
  }

  /**
   * `union(x, y)` as documented: both elements are registered, their roots
   * are compared, and for different roots the root of lower rank is linked
   * under the other (on a tie the first under the second, whose rank grows).
   */
  function UnionOfRoots<T(==)>(s: Sets<T>, x: T, y: T): (r: (bool, Sets<T>))
    requires WellFormed(s) && RankOrdered(s)
    ensures WellFormed(r.1) && RankOrdered(r.1)
    ensures r.1.parent.Keys == s.parent.Keys + {x, y}
  {
    RegisteredOrdered(s, x);
    RegisteredOrdered(Registered(s, x), y);
    var t := Registered(Registered(s, x), y);
    var rx := Representative(t, x);
    var ry := Representative(t, y);
    if rx == ry then (false, t) else (true, LinkRoots(t, rx, ry))
  }

  /**
   * Links one of two different roots under the other: the root of lower rank
   * goes under the other, and on a tie `rx` goes under `ry`, whose rank grows.
   */
  function LinkRoots<T(==)>(t: Sets<T>, rx: T, ry: T): (u: Sets<T>)
    requires WellFormed(t) && RankOrdered(t) && rx in t.parent && ry in t.parent
    requires t.parent[rx] == rx && t.parent[ry] == ry && rx != ry
    ensures WellFormed(u) && RankOrdered(u) && u.parent.Keys == t.parent.Keys
  {
    var lo := if t.rank[rx] > t.rank[ry] then ry else rx;
    var hi := if t.rank[rx] > t.rank[ry] then rx else ry;
    LinkKeepsOrder(t, lo, hi);
    Sets(t.parent[lo := hi], if t.rank[rx] == t.rank[ry] then t.rank[hi := t.rank[hi] + 1] else t.rank)
  }

  /** Linking a root under a root of higher rank, or of equal rank that grows, keeps ranks ordered. */
  lemma LinkKeepsOrder<T>(t: Sets<T>, lo: T, hi: T)
    requires WellFormed(t) && RankOrdered(t) && lo in t.parent && hi in t.parent
    requires t.parent[lo] == lo && t.parent[hi] == hi && lo != hi
    ensures t.rank[lo] < t.rank[hi] ==>
      WellFormed(Sets(t.parent[lo := hi], t.rank)) && RankOrdered(Sets(t.parent[lo := hi], t.rank))
    ensures t.rank[lo] == t.rank[hi] ==>
      var u := Sets(t.parent[lo := hi], t.rank[hi := t.rank[hi] + 1]);
      WellFormed(u) && RankOrdered(u)
  {
    var u := Sets(t.parent[lo := hi], t.rank[hi := t.rank[hi] + 1]);
    if t.rank[lo] == t.rank[hi] {
      forall z | z in u.parent && u.parent[z] != z
        ensures u.rank[u.parent[z]] > u.rank[z]
      {
        if z != lo {
          assert z != hi && u.parent[z] == t.parent[z];
        }
      }
    }
  }

  /** The corrected union registers both elements and links one root directly under the other. */
  lemma UnionOfRootsLinks<T>(s: Sets<T>, x: T, y: T)
    requires WellFormed(s) && RankOrdered(s)
    ensures var t := Registered(Registered(s, x), y);
      WellFormed(t) && RankOrdered(t) && x in t.parent && y in t.parent &&
      var rx, ry, u := Representative(t, x), Representative(t, y), UnionOfRoots(s, x, y).1;
      (UnionOfRoots(s, x, y).0 <==> rx != ry) &&
      (rx == ry ==> u == t) &&
      (rx != ry ==> u.parent == t.parent[ry := rx] || u.parent == t.parent[rx := ry])
  {
    RegisteredOrdered(s, x);
    RegisteredOrdered(Registered(s, x), y);
    var t := Registered(Registered(s, x), y);
    var rx, ry := Representative(t, x), Representative(t, y);
    var r := UnionOfRoots(s, x, y);
    if rx != ry {
      assert r.1.parent == t.parent[if t.rank[rx] > t.rank[ry] then ry else rx := if t.rank[rx] > t.rank[ry] then rx else ry];
    }
  }

  /** The corrected union succeeds iff the two elements were in different sets. */
  lemma UnionOfRootsSucceedsIffApart<T>(s: Sets<T>, x: T, y: T)
    requires WellFormed(s) && RankOrdered(s)
    ensures var t := Registered(Registered(s, x), y);
      WellFormed(t) && x in t.parent && y in t.parent &&
      (UnionOfRoots(s, x, y).0 <==> !Joined(t.parent, x, y))
  {
    UnionOfRootsLinks(s, x, y);
    var t := Registered(Registered(s, x), y);
    JoinedIffSameRoot(t.parent, x, y, |Above(t, x)|, |Above(t, y)|);
  }

  /** Linking root `lo` under root `hi` sends every chain ending at `lo` on to `hi`. */
  lemma {:induction false} LinkRedirects<T>(p: map<T, T>, lo: T, hi: T, z: T, n: nat)
    requires p.Values <= p.Keys && lo in p && hi in p && p[lo] == lo && p[hi] == hi && lo != hi
    requires RootWithin(p, z, n)
    ensures p[lo := hi].Values <= p[lo := hi].Keys
    ensures RootWithin(p[lo := hi], z, n + 1)
    ensures RootOf(p[lo := hi], z, n + 1) == if RootOf(p, z, n) == lo then hi else RootOf(p, z, n)
    decreases n
  {
    var q := p[lo := hi];
    if p[z] == z {
      if z == lo {
        assert q[z] == hi && q[hi] == hi;
        assert RootWithin(q, hi, n);
      }
    } else {
      LinkRedirects(p, lo, hi, p[z], n - 1);
    }
  }

  /**
   * After a successful corrected union, two elements are in one set iff they
   * were before, or one was with `x` and the other with `y`.
   */
  lemma UnionOfRootsMerges<T>(s: Sets<T>, x: T, y: T, a: T, b: T)
    requires WellFormed(s) && RankOrdered(s)
    requires a in s.parent && b in s.parent && UnionOfRoots(s, x, y).0
    ensures var t := Registered(Registered(s, x), y);
      var u := UnionOfRoots(s, x, y).1;
      WellFormed(t) && x in t.parent && y in t.parent && a in t.parent && b in t.parent &&
      (Joined(u.parent, a, b) <==>
        Joined(t.parent, a, b) ||
        (Joined(t.parent, a, x) && Joined(t.parent, b, y)) ||
        (Joined(t.parent, a, y) && Joined(t.parent, b, x)))
  {
    UnionOfRootsLinks(s, x, y);
    var t := Registered(Registered(s, x), y);
    var p := t.parent;
    var u := UnionOfRoots(s, x, y).1;
    var nx, ny, na, nb := |Above(t, x)|, |Above(t, y)|, |Above(t, a)|, |Above(t, b)|;
    var rx, ry := Representative(t, x), Representative(t, y);
    var ra, rb := Representative(t, a), Representative(t, b);
    JoinedIffSameRoot(p, a, b, na, nb);
    JoinedIffSameRoot(p, a, x, na, nx);
    JoinedIffSameRoot(p, b, y, nb, ny);
    JoinedIffSameRoot(p, a, y, na, ny);
    JoinedIffSameRoot(p, b, x, nb, nx);
    if u.parent == p[ry := rx] {
      LinkMerges(p, ry, rx, a, b, na, nb);
    } else {
      LinkMerges(p, rx, ry, a, b, na, nb);
    }
  }

  /** After linking root `lo` under root `hi`, two chains meet iff their roots were equal or were `lo` and `hi`. */
  lemma LinkMerges<T>(p: map<T, T>, lo: T, hi: T, a: T, b: T, na: nat, nb: nat)
    requires p.Values <= p.Keys && lo in p && hi in p && p[lo] == lo && p[hi] == hi && lo != hi
    requires RootWithin(p, a, na) && RootWithin(p, b, nb)
    ensures var ra, rb := RootOf(p, a, na), RootOf(p, b, nb);
      Joined(p[lo := hi], a, b) <==> ra == rb || (ra == lo && rb == hi) || (ra == hi && rb == lo)
  {
    LinkRedirects(p, lo, hi, a, na);
    LinkRedirects(p, lo, hi, b, nb);
    JoinedIffSameRoot(p[lo := hi], a, b, na + 1, nb + 1);
  }

  /**
   * The corrected union in terms of roots: afterwards two registered
   * elements share a root iff they did before, or one shared the root of `x`
   * and the other that of `y`.  A refused union changes no root.
   */
  lemma UnionOfRootsRepresentatives<T>(s: Sets<T>, x: T, y: T, a: T, b: T)
    requires WellFormed(s) && RankOrdered(s)
    requires a in s.parent.Keys + {x, y} && b in s.parent.Keys + {x, y}
    ensures var t := Registered(Registered(s, x), y);
      var u := UnionOfRoots(s, x, y).1;
      WellFormed(t) && RankOrdered(t) && t.parent.Keys == s.parent.Keys + {x, y} &&
      var ra, rb, rx, ry := Representative(t, a), Representative(t, b), Representative(t, x), Representative(t, y);
      (Representative(u, a) == Representative(u, b) <==> ra == rb || (ra == rx && rb == ry) || (ra == ry && rb == rx))
  {
    UnionOfRootsLinks(s, x, y);
    var t := Registered(Registered(s, x), y);
    var p := t.parent;
    var u := UnionOfRoots(s, x, y).1;
    var rx, ry := Representative(t, x), Representative(t, y);
    if rx != ry {
      var na, nb := |Above(t, a)|, |Above(t, b)|;
      var ra, rb := Representative(t, a), Representative(t, b);
      assert RootWithin(p, a, na) && RootOf(p, a, na) == ra;
      assert RootWithin(p, b, nb) && RootOf(p, b, nb) == rb;
      SameRootIsJoined(u, a, b);
      if u.parent == p[ry := rx] {
        LinkMerges(p, ry, rx, a, b, na, nb);
      } else {
        LinkMerges(p, rx, ry, a, b, na, nb);
      }
    }
  }

  /** Under union by rank, two elements are in one set iff they have one representative. */
  lemma SameRootIsJoined<T>(s: Sets<T>, a: T, b: T)
    requires WellFormed(s) && RankOrdered(s) && a in s.parent && b in s.parent
    ensures Joined(s.parent, a, b) <==> Representative(s, a) == Representative(s, b)
  {
    var ra, rb := Representative(s, a), Representative(s, b);
    JoinedIffSameRoot(s.parent, a, b, |Above(s, a)|, |Above(s, b)|);
  }

  class DisjointSetUnion<T(==)> {
    var parent: map<T, T>
    var rank: map<T, nat>

    ghost predicate Valid()
      reads this
    {
      WellFormed(Sets(parent, rank))
    }

    function State(): Sets<T>
      reads this
    {
      Sets(parent, rank)
    }

    /** A structure without any sets. */
    constructor ()
      ensures Valid() && parent == map[] && rank == map[]
    {
      parent := map[];
      rank := map[];
    }

    /** `makeSet(x)` (src/DisjointSetUnion.java:40-45). */
    method MakeSet(x: T)
      requires Valid()
      modifies this
      ensures Valid()
      ensures State() == Singleton(old(State()), x)
    {
      parent := parent[x := x];
      rank := rank[x := 0];
    }

    /**
     * `find(x)` (src/DisjointSetUnion.java:55-60): registers an unseen `x`,
     * then returns `parent[x]`, which need not be the root.  The chain from
     * `x` must end at a root; in Java the recursion otherwise overflows the
     * stack.
     */
    method Find(x: T) returns (r: T)
      requires Valid()
      requires x in parent ==> ReachesRoot(parent, x)
      modifies this
      ensures Valid()
      ensures State() == Registered(old(State()), x)
      ensures r == parent[x]
      ensures x !in old(parent) ==> r == x
      decreases if x in parent then Depth(parent, x) else 0, 1
    {
      if x !in parent {
        MakeSet(x);
        assert RootWithin(parent, x, 0);
      }
      r := FindUtil(x);
    }

    /**
     * `findUtil(x)` (src/DisjointSetUnion.java:62-67): for a non-root `x` it
     * stores `find(parent[x])` under the key `parent[x]`, which is the value
     * already there, and returns `parent[x]`.
     */
    method FindUtil(x: T) returns (r: T)
      requires Valid() && x in parent && ReachesRoot(parent, x)
      modifies this
      ensures Valid() && parent == old(parent) && rank == old(rank)
      ensures r == parent[x]
      decreases Depth(parent, x), 0
    {
      if x != parent[x] {
        DepthStep(parent, x);
        var px := parent[x];
        var up := Find(px);
        parent := parent[px := up];
        assert parent == old(parent);
      }
      r := parent[x];
    }

    /**
     * The `find` the documentation describes: follows parent links from `x`
     * up to its root, registering an unseen `x` first.  Path compression
     * changes no root and is not modelled.
     */
    method FindRoot(x: T) returns (r: T)
      requires Valid() && RankOrdered(State())
      modifies this
      ensures Valid() && RankOrdered(State())
      ensures State() == Registered(old(State()), x)
      ensures r == Representative(State(), x)
    {
      RegisteredOrdered(State(), x);
      if x !in parent {
        MakeSet(x);
      }
      r := ClimbToRoot(State(), x);
    }

    /**
     * The `union(x, y)` the documentation describes: it links the root of
     * lower rank under the other root, so two elements end in one set iff
     * they were joined before or sat with `x` and `y`
     * (`UnionOfRootsMerges`).
     */
    method UnionByRoot(x: T, y: T) returns (ok: bool)
      requires Valid() && RankOrdered(State())
      modifies this
      ensures Valid() && RankOrdered(State())
      ensures (ok, State()) == UnionOfRoots(old(State()), x, y)
    {
      ghost var s := State();
      var rx := FindRoot(x);
      RegisteredKeepsRepresentative(State(), y, x);
      var ry := FindRoot(y);
      ghost var t := State();
      assert t == Registered(Registered(s, x), y);
      assert rx == Representative(t, x) && ry == Representative(t, y);
      if rx == ry {
        return false;
      }
      Link(rx, ry);
      ok := true;
    }

    /** Links the root of lower rank under the other root; see the function `LinkRoots`. */
    method Link(rx: T, ry: T)
      requires Valid() && RankOrdered(State()) && rx in parent && ry in parent
      requires parent[rx] == rx && parent[ry] == ry && rx != ry
      modifies this
      ensures Valid() && RankOrdered(State())
      ensures State() == LinkRoots(old(State()), rx, ry)
    {
      if rank[rx] > rank[ry] {
        parent := parent[ry := rx];
      } else if rank[rx] < rank[ry] {
        parent := parent[rx := ry];
      } else {
        parent := parent[rx := ry];
        rank := rank[ry := rank[ry] + 1];
      }
    }

    /**
     * `union(x, y)` (src/DisjointSetUnion.java:81-104).  Both chains must end
     * at a root, as `Find` needs.
     */
    method Union(x: T, y: T) returns (ok: bool)
      requires Valid()
      requires x in parent ==> ReachesRoot(parent, x)
      requires y in parent ==> ReachesRoot(parent, y)
      modifies this
      ensures Valid()
      ensures (ok, State()) == UnionAsWritten(old(State()), x, y)
    {
      if x !in parent {
        if y in parent {
          ghost var n: nat :| RootWithin(parent, y, n);
          SingletonKeepsChains(parent, y, x, n);
        }
        MakeSet(x);
        assert RootWithin(parent, x, 0);
      }
      if y !in parent {
        ghost var n: nat :| RootWithin(parent, x, n);
        SingletonKeepsChains(parent, x, y, n);
        MakeSet(y);
        assert RootWithin(parent, y, 0);
      }
      var fx := Find(x);
      var fy := Find(y);
      if parent[fx] == parent[fy] {
        return false;
      }
      if rank[fx] > rank[fy] {
        parent := parent[fy := fx];
      } else if rank[fx] < rank[fy] {
        parent := parent[fx := fy];
      } else {
        parent := parent[fx := fy];
        rank := rank[fy := rank[fy] + 1];
      }
      ok := true;
    }
  }
}
