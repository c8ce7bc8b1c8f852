/**
  The undirected weighted edge of the minimum-spanning-tree algorithms: two endpoints
  and a weight, fixed at construction. Edges compare by weight alone.
*/
module WeightedEdges {

  /** An edge between `v` and `w` (`vertex_v`, `vertex_w`) with its weight. */
  datatype Edge = Edge(v: nat, w: nat, weight: int)

  /** x is one of the edge's endpoints. */
  predicate EndOf(e: Edge, x: nat)
  {
    x == e.v || x == e.w
  }

  /** `either()`: the endpoint given first. */
  function Either(e: Edge): (r: nat)
    ensures EndOf(e, r)
  {
    e.v
  }

  /** `other(vertex)`: the opposite endpoint of an endpoint; any other argument gets the
      first endpoint back, without an error. */
  function Other(e: Edge, x: nat): (r: nat)
    ensures EndOf(e, r)
    ensures EndOf(e, x) ==> (x == e.v && r == e.w) || (x == e.w && r == e.v)
    ensures !EndOf(e, x) ==> r == Either(e)
  {
    if x == e.v then e.w else e.v
  }

  /** Going to the other end twice comes back to the endpoint one started from. */
  lemma OtherOther(e: Edge, x: nat)
    requires EndOf(e, x)
    ensures Other(e, Other(e, x)) == x
  {
  }

  /** `__lt__`: a lighter edge. */
  predicate Less(a: Edge, b: Edge)
  {
    a.weight < b.weight
  }

  /** `__eq__`: the same weight, whatever the endpoints. */
  predicate Same(a: Edge, b: Edge)
  {
    a.weight == b.weight
  }

  /** `<` is a strict order; `==` is an equivalence that holds exactly when neither edge is
      lighter, and it ignores the endpoints. */
  lemma EdgeCompare(a: Edge, b: Edge, c: Edge)
    ensures !Less(a, a) && (Less(a, b) && Less(b, c) ==> Less(a, c))
    ensures Less(a, b) ==> !Less(b, a)
    ensures Same(a, a) && (Same(a, b) ==> Same(b, a)) && (Same(a, b) && Same(b, c) ==> Same(a, c))
    ensures Same(a, b) <==> !Less(a, b) && !Less(b, a)
    ensures Same(a, Edge(c.v, c.w, a.weight))
  {
  }
}
