/**
  The directed weighted edge of the shortest-path algorithms: a source vertex, a
  destination vertex and an integer weight, fixed at construction.
*/
module DirectedEdge {

  datatype WeightedEdge = WeightedEdge(v: nat, w: nat, weight: int)

  /** `from_edge`: the source vertex. */
  function From(e: WeightedEdge): nat
  {
    e.v
  }

  /** `to_edge`: the destination vertex. */
  function To(e: WeightedEdge): nat
  {
    e.w
  }

  /** `__lt__`: edges are ordered by weight alone. */
  predicate Less(a: WeightedEdge, b: WeightedEdge)
  {
    a.weight < b.weight
  }

  /** `__eq__`: edges are equal when their weights are, whatever their endpoints. */
  predicate Same(a: WeightedEdge, b: WeightedEdge)
  {
    a.weight == b.weight
  }

  /** The comparison is a strict weak order whose equivalence is `Same`: exactly one of
      `a < b`, `a == b`, `b < a` holds, and `==` does not look at the endpoints. */
  lemma EdgeOrder(a: WeightedEdge, b: WeightedEdge, c: WeightedEdge)
    ensures !Less(a, a)
    ensures Less(a, b) && Less(b, c) ==> Less(a, c)
    ensures Same(a, b) && Same(b, c) ==> Same(a, c)
    ensures Same(a, b) <==> !Less(a, b) && !Less(b, a)
    ensures Same(a, WeightedEdge(c.v, c.w, a.weight))
  {
  }
}
