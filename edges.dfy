/**
 * The edge value types of the library: `Edge` (src/Edge.java) and
 * `WeightedEdge` (src/WeightedEdge.java).
 *
 * Java's `equals` on these classes is structural, so the graphs' duplicate
 * checks and filters are modelled with Dafny's `==` on the datatypes below;
 * `Equals` is the Java method, and its contract says that it is exactly `==`.
 */
module Edges {
  /** An ordered pair of vertices: `from` and `to` in Java (`getU`, `getV`). */
  datatype Edge<T> = Edge(u: T, v: T)

  /** Endpoints plus an integer weight. */
  datatype WeightedEdge<T> = WeightedEdge(u: T, v: T, weight: int)

  /** An edge object as `equals` sees it: its runtime class and its fields. */
  datatype AnyEdge<T> = Plain(edge: Edge<T>) | Weighted(weighted: WeightedEdge<T>)

  /** The `Edge` part of a weighted edge, what `super.equals` and `super.hashCode` look at. */
  function Base<T>(w: WeightedEdge<T>): (e: Edge<T>)
    ensures e.u == w.u && e.v == w.v
  {
    Edge(w.u, w.v)
  }

  /**
   * `equals` of both classes: objects of different runtime classes are never
   * equal; otherwise the endpoints, and for weighted edges the weight, are
   * compared.  The comparator a weighted edge carries plays no part.
   */
  function Equals<T(==)>(a: AnyEdge<T>, b: AnyEdge<T>): (r: bool)
    ensures r <==> a == b
    ensures a.Plain? != b.Plain? ==> !r
  {
    match (a, b)
    case (Plain(x), Plain(y)) => x.u == y.u && x.v == y.v
    case (Weighted(x), Weighted(y)) => Base(x) == Base(y) && x.weight == y.weight
    case _ => false
  }

  /** An edge and its reverse differ unless it is a loop. */
  lemma ReverseDiffers<T>(u: T, v: T)
    ensures Equals(Plain(Edge(u, v)), Plain(Edge(v, u))) <==> u == v
  {
  }

  /** A plain edge never equals a weighted edge, even with the same endpoints. */
  lemma PlainIsNotWeighted<T>(u: T, v: T, w: int)
    ensures !Equals(Plain(Edge(u, v)), Weighted(WeightedEdge(u, v, w)))
    ensures !Equals(Weighted(WeightedEdge(u, v, w)), Plain(Edge(u, v)))
  {
  }

  /** The 32 bits of a Java `int` (two's complement) for a value in range. */
  function IntBits(w: int): bv32
    requires -0x8000_0000 <= w < 0x8000_0000
  {
    (w % 0x1_0000_0000) as bv32
  }

  /**
   * `Edge.hashCode`: the exclusive or of the endpoints' hash codes, `h`
   * standing for `T.hashCode`.  Either endpoint's hash recovers the other's,
   * and a loop hashes to zero.
   */
  function EdgeHash<T>(h: T -> bv32, e: Edge<T>): (r: bv32)
    ensures r ^ h(e.u) == h(e.v) && r ^ h(e.v) == h(e.u)
    ensures e.u == e.v ==> r == 0
  {
    XorCancels(h(e.u), h(e.v));
    h(e.u) ^ h(e.v)
  }

  /** Exclusive or with either operand undoes itself. */
  lemma XorCancels(a: bv32, b: bv32)
    ensures (a ^ b) ^ a == b && (a ^ b) ^ b == a
    ensures a == b ==> a ^ b == 0
  {
  }

  /**
   * `WeightedEdge.hashCode`: the endpoints' hash combined with the weight's
   * bits; removing those bits gives back the plain edge's hash, and a zero
   * weight leaves it unchanged.
   */
  function WeightedHash<T>(h: T -> bv32, e: WeightedEdge<T>): (r: bv32)
    requires -0x8000_0000 <= e.weight < 0x8000_0000
    ensures r ^ IntBits(e.weight) == EdgeHash(h, Base(e))
    ensures e.weight == 0 ==> r == EdgeHash(h, Base(e))
  {
    EdgeHash(h, Base(e)) ^ IntBits(e.weight)
  }

  /** The hash code of either class of edge: each class uses its own `hashCode`. */
  function Hash<T>(h: T -> bv32, a: AnyEdge<T>): (r: bv32)
    requires a.Weighted? ==> -0x8000_0000 <= a.weighted.weight < 0x8000_0000
    ensures a.Plain? ==> r ^ h(a.edge.u) == h(a.edge.v)
    ensures a.Weighted? ==> r ^ IntBits(a.weighted.weight) == EdgeHash(h, Base(a.weighted))
  {
    match a
    case Plain(e) => EdgeHash(h, e)
    case Weighted(w) => WeightedHash(h, w)
  }

  /** Equal edges have equal hash codes. */
  lemma EqualEdgesHashEqually<T>(h: T -> bv32, a: AnyEdge<T>, b: AnyEdge<T>)
    requires a.Weighted? ==> -0x8000_0000 <= a.weighted.weight < 0x8000_0000
    requires Equals(a, b)
    ensures b.Weighted? ==> -0x8000_0000 <= b.weighted.weight < 0x8000_0000
    ensures Hash(h, a) == Hash(h, b)
  {
  }

  /** The hash ignores direction: an edge and its reverse collide. */
  lemma ReverseHashesEqually<T>(h: T -> bv32, u: T, v: T)
    ensures EdgeHash(h, Edge(u, v)) == EdgeHash(h, Edge(v, u))
  {
  }

  /**
   * The order `compareTo` consults: negative, zero or positive as `a` sorts
   * before, with or after `b`.  `compareTo` itself only applies the
   * receiver's comparator, so the model applies the comparator directly.
   */
  type Comparator<!T> = (WeightedEdge<T>, WeightedEdge<T>) -> int

  /**
   * The comparator every weighted edge starts with, `a.weight - b.weight`:
   * negative, zero or positive exactly as the first weight is below, equal
   * to or above the second, and antisymmetric.
   */
  function ByWeight<T(!new)>(): (r: Comparator<T>)
    ensures forall a, b :: (r(a, b) < 0 <==> a.weight < b.weight) && (r(a, b) == 0 <==> a.weight == b.weight)
    ensures forall a, b :: r(a, b) == -r(b, a)
  {
    (a: WeightedEdge<T>, b: WeightedEdge<T>) => a.weight - b.weight
  }

  /** `setWeight`: a copy with the new weight and the same endpoints. */
  function SetWeight<T>(e: WeightedEdge<T>, weight: int): (r: WeightedEdge<T>)
    ensures Base(r) == Base(e) && r.weight == weight
    ensures r == e <==> e.weight == weight
  {
    e.(weight := weight)
  }
}
