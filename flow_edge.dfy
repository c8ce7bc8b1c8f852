/**
  `FlowEdge`: an edge from `v` to `w` with a capacity and one mutable flow value, which
  stands for flow in both directions. The residual capacity toward `w` is what the
  capacity leaves over the flow, and toward `v` it is the flow itself, which can be
  pushed back. Each operation raises `ValueError` for a vertex that is not an endpoint.

  The fixed part of an edge is the value `Arc`; the functions on arcs and flow values
  define the residual capacities and the augmentation once, and the class reads them on
  its own fields.
*/
module FlowEdges {
  import opened Common

  /** `ValueError("Illegal endpoint")`. */
  datatype EdgeError = IllegalEndpoint

  /** The endpoints and the capacity of a flow edge, which never change. */
  datatype Arc = Arc(v: nat, w: nat, capacity: int)

  /** x is one of the arc's endpoints. */
  predicate EndOf(a: Arc, x: nat)
  {
    x == a.v || x == a.w
  }

  /** A flow the arc can carry: at least 0 and at most its capacity. */
  predicate InBounds(a: Arc, f: int)
  {
    0 <= f <= a.capacity
  }

  /** `other(x)`: the far end of an endpoint; an error for any other vertex. */
  function OtherEnd(a: Arc, x: nat): (r: Result<nat, EdgeError>)
    ensures r.Ok? <==> EndOf(a, x)
    ensures r.Ok? ==> EndOf(a, r.value) && (a.v != a.w ==> r.value != x)
  {
    if x == a.v then Ok(a.w)
    else if x == a.w then Ok(a.v)
    else Err(IllegalEndpoint)
  }

  /** `residual_capacity_to(x)` under the flow f: f toward `v`, the capacity left over
      toward `w`; an error for any other vertex. */
  function Residual(a: Arc, f: int, x: nat): (r: Result<int, EdgeError>)
    ensures r.Ok? <==> EndOf(a, x)
    ensures r.Ok? && InBounds(a, f) ==> 0 <= r.value <= a.capacity
  {
    if x == a.v then Ok(f)
    else if x == a.w then Ok(a.capacity - f)
    else Err(IllegalEndpoint)
  }

  /** `add_residual_flow_to(x, d)`: the flow afterwards, one less d toward `v` and one
      more d toward `w`; an error, with the flow unchanged, for any other vertex. */
  function Shift(a: Arc, f: int, x: nat, d: int): (r: Result<int, EdgeError>)
    ensures r.Ok? <==> EndOf(a, x)
  {
    if x == a.v then Ok(f - d)
    else if x == a.w then Ok(f + d)
    else Err(IllegalEndpoint)
  }

  /** Pushing no more than the residual capacity toward an endpoint keeps the flow
      within bounds. */
  lemma ShiftBounds(a: Arc, f: int, x: nat, d: int)
    requires EndOf(a, x) && InBounds(a, f) && 0 <= d <= Residual(a, f, x).value
    ensures InBounds(a, Shift(a, f, x, d).value)
  {
  }

  /** On an edge that is not a loop, pushing d toward x lowers the residual capacity
      toward x by d and raises it toward the other end by d. */
  lemma ShiftResiduals(a: Arc, f: int, x: nat, d: int)
    requires EndOf(a, x) && a.v != a.w
    ensures var f' := Shift(a, f, x, d).value; var y := OtherEnd(a, x).value;
            Residual(a, f', x).value == Residual(a, f, x).value - d
            && Residual(a, f', y).value == Residual(a, f, y).value + d
  {
  }

  /** Pushing d toward x and then d toward the other end gives the flow back. */
  lemma ShiftBack(a: Arc, f: int, x: nat, d: int)
    requires EndOf(a, x) && a.v != a.w
    ensures Shift(a, Shift(a, f, x, d).value, OtherEnd(a, x).value, d) == Ok(f)
  {
  }

  /** The other end of the other end is the endpoint one started from. */
  lemma OtherOther(a: Arc, x: nat)
    requires EndOf(a, x)
    ensures OtherEnd(a, OtherEnd(a, x).value) == Ok(x)
  {
  }

  class FlowEdge {
    const v: nat
    const w: nat
    const capacity: int
    var flow: int

    /** The fixed part of this edge. */
    function AsArc(): (a: Arc)
      ensures a.v == v && a.w == w && a.capacity == capacity
    {
      Arc(v, w, capacity)
    }

    /** A new edge carries no flow. */
    constructor (v: nat, w: nat, capacity: int)
      ensures this.v == v && this.w == w && this.capacity == capacity && flow == 0
    {
      this.v := v;
      this.w := w;
      this.capacity := capacity;
      flow := 0;
    }

    /** `other(vertex)`. */
    function Other(x: nat): (r: Result<nat, EdgeError>)
      ensures r.Ok? <==> x == v || x == w
      ensures x == v ==> r == Ok(w)
      ensures x != v && x == w ==> r == Ok(v)
    {
      OtherEnd(AsArc(), x)
    }

    /** `residual_capacity_to(vertex)`. */
    function ResidualCapacityTo(x: nat): (r: Result<int, EdgeError>)
      reads this
      ensures r.Ok? <==> x == v || x == w
      ensures x == v ==> r == Ok(flow)
      ensures x != v && x == w ==> r == Ok(capacity - flow)
    {
      Residual(AsArc(), flow, x)
    }

    /** `add_residual_flow_to(vertex, delta)`: the flow moves by delta toward the vertex;
        for a vertex that is not an endpoint, an error and no change. */
    method AddResidualFlowTo(x: nat, delta: int) returns (r: Outcome<EdgeError>)
      modifies this
      ensures r.Pass? <==> x == v || x == w
      ensures r.Pass? ==> Shift(AsArc(), old(flow), x, delta) == Ok(flow)
      ensures r.Fail? ==> flow == old(flow)
    {
      if x == v {
        flow := flow - delta;
      } else if x == w {
        flow := flow + delta;
      } else {
        return Fail(IllegalEndpoint);
      }
      return Pass;
    }
  }
}
