/**
  Sums over the edges of a flow network, with the edges given as arcs and their flows as
  a sequence of the same length: the net flow into a vertex, the residual capacity
  leaving the source, the net flow into one side of a cut, and the cut's capacity. With
  them: a flow that saturates every edge leaving the marked side of a cut has the cut's
  capacity as its value, and no flow within bounds has a larger value.
*/
module FlowValues {
  import opened FlowEdges

  /** What a sum over the edges adds up, edge by edge. */
  datatype Tally =
    | NetInto(x: nat)
    | Slack(s: nat)
    | IntoSide(marked: seq<bool>, k: nat)
    | CutCapacity(marked: seq<bool>)

  function Max0(x: int): int
  {
    if x < 0 then 0 else x
  }

  /** x is one of the first k vertices and is unmarked. */
  predicate Outside(marked: seq<bool>, k: nat, x: nat)
  {
    x < k && x < |marked| && !marked[x]
  }

  /** The contribution of one arc with flow f:
      - `NetInto(x)`: its flow into x less its flow out of x;
      - `Slack(s)`: the residual capacity it offers away from s, when s is one end only;
      - `IntoSide(m, k)`: its flow into the unmarked vertices below k less its flow out of them;
      - `CutCapacity(m)`: its capacity when it leads from a marked to an unmarked vertex. */
  function Term(t: Tally, a: Arc, f: int): int
  {
    match t
    case NetInto(x) => (if a.w == x then f else 0) - (if a.v == x then f else 0)
    case Slack(s) =>
      if a.v == s && a.w != s then Max0(a.capacity - f)
      else if a.w == s && a.v != s then Max0(f)
      else 0
    case IntoSide(m, k) => (if Outside(m, k, a.w) then f else 0) - (if Outside(m, k, a.v) then f else 0)
    case CutCapacity(m) => if a.v < |m| && a.w < |m| && m[a.v] && !m[a.w] then a.capacity else 0
  }

  /** The tally over all arcs. */
  function Sum(t: Tally, arcs: seq<Arc>, f: seq<int>): int
    requires |f| == |arcs|
    decreases |arcs|
  {
    if arcs == [] then 0
    else Sum(t, arcs[..|arcs| - 1], f[..|f| - 1]) + Term(t, arcs[|arcs| - 1], f[|f| - 1])
  }

  /** The net flow into x: what its incoming edges carry less what its outgoing ones do. */
  function Net(arcs: seq<Arc>, f: seq<int>, x: nat): int
    requires |f| == |arcs|
  {
    Sum(NetInto(x), arcs, f)
  }

  /** The net flow into the unmarked vertices below k, vertex by vertex. */
  function SideNet(arcs: seq<Arc>, f: seq<int>, marked: seq<bool>, k: nat): int
    requires |f| == |arcs| && k <= |marked|
  {
    if k == 0 then 0
    else SideNet(arcs, f, marked, k - 1) + (if marked[k - 1] then 0 else Net(arcs, f, k - 1))
  }

  /** Changing the flow of one arc changes the tally by the change in that arc's term. */
  lemma {:induction false} SumUpdate(t: Tally, arcs: seq<Arc>, f: seq<int>, i: nat, y: int)
    requires |f| == |arcs| && i < |arcs|
    ensures Sum(t, arcs, f[i := y]) == Sum(t, arcs, f) - Term(t, arcs[i], f[i]) + Term(t, arcs[i], y)
    decreases |arcs|
  {
    var n := |arcs|;
    var g := f[i := y];
    if i < n - 1 {
      assert g[..n - 1] == f[..n - 1][i := y];
      SumUpdate(t, arcs[..n - 1], f[..n - 1], i, y);
    } else {
      assert g[..n - 1] == f[..n - 1];
    }
  }

  /** A tally whose terms add those of two others, the second one only when b holds. */
  lemma {:induction false} SumSplit(t: Tally, t1: Tally, t2: Tally, b: bool, arcs: seq<Arc>, f: seq<int>)
    requires |f| == |arcs|
    requires forall i :: 0 <= i < |arcs| ==>
      Term(t, arcs[i], f[i]) == Term(t1, arcs[i], f[i]) + (if b then Term(t2, arcs[i], f[i]) else 0)
    ensures Sum(t, arcs, f) == Sum(t1, arcs, f) + (if b then Sum(t2, arcs, f) else 0)
    decreases |arcs|
  {
    if arcs != [] {
      var n := |arcs|;
      SumSplit(t, t1, t2, b, arcs[..n - 1], f[..n - 1]);
    }
  }

  /** A tally whose terms are no larger than another's sums to no more. */
  lemma {:induction false} SumLe(t1: Tally, t2: Tally, arcs: seq<Arc>, f: seq<int>)
    requires |f| == |arcs|
    requires forall i :: 0 <= i < |arcs| ==> Term(t1, arcs[i], f[i]) <= Term(t2, arcs[i], f[i])
    ensures Sum(t1, arcs, f) <= Sum(t2, arcs, f)
    decreases |arcs|
  {
    if arcs != [] {
      var n := |arcs|;
      SumLe(t1, t2, arcs[..n - 1], f[..n - 1]);
    }
  }

  /** The residual capacity leaving the source is never negative. */
  lemma {:induction false} SlackNonNegative(s: nat, arcs: seq<Arc>, f: seq<int>)
    requires |f| == |arcs|
    ensures Sum(Slack(s), arcs, f) >= 0
    decreases |arcs|
  {
    if arcs != [] {
      var n := |arcs|;
      SlackNonNegative(s, arcs[..n - 1], f[..n - 1]);
    }
  }

  /** Summing the edges' flows into and out of a set of vertices is summing the net flow
      of each vertex of the set: the edges inside the set cancel. */
  lemma {:induction false} SideSum(arcs: seq<Arc>, f: seq<int>, marked: seq<bool>, k: nat)
    requires |f| == |arcs| && k <= |marked|
    ensures Sum(IntoSide(marked, k), arcs, f) == SideNet(arcs, f, marked, k)
  {
    if k == 0 {
      ZeroTally(arcs, f, marked);
    } else {
      SideSum(arcs, f, marked, k - 1);
      forall i | 0 <= i < |arcs|
        ensures Term(IntoSide(marked, k), arcs[i], f[i]) ==
                Term(IntoSide(marked, k - 1), arcs[i], f[i]) + (if !marked[k - 1] then Term(NetInto(k - 1), arcs[i], f[i]) else 0)
      {
      }
      SumSplit(IntoSide(marked, k), IntoSide(marked, k - 1), NetInto(k - 1), !marked[k - 1], arcs, f);
    }
  }

  /** No vertex lies below 0, so that side receives nothing. */
  lemma {:induction false} ZeroTally(arcs: seq<Arc>, f: seq<int>, marked: seq<bool>)
    requires |f| == |arcs|
    ensures Sum(IntoSide(marked, 0), arcs, f) == 0
    decreases |arcs|
  {
    if arcs != [] {
      var n := |arcs|;
      ZeroTally(arcs[..n - 1], f[..n - 1], marked);
    }
  }

  /** When every unmarked vertex but t is balanced, the side of the unmarked vertices
      receives exactly what t receives. */
  lemma {:induction false} SideIsTarget(arcs: seq<Arc>, f: seq<int>, marked: seq<bool>, t: nat, k: nat)
    requires |f| == |arcs| && k <= |marked| && t < |marked| && !marked[t]
    requires forall u: nat :: u < |marked| && u != t && !marked[u] ==> Net(arcs, f, u) == 0
    ensures SideNet(arcs, f, marked, k) == if t < k then Net(arcs, f, t) else 0
  {
    if k > 0 {
      SideIsTarget(arcs, f, marked, t, k - 1);
    }
  }

  /** Every arc has its ends among the n vertices. */
  ghost predicate Within(arcs: seq<Arc>, n: nat)
  {
    forall i :: 0 <= i < |arcs| ==> arcs[i].v < n && arcs[i].w < n
  }

  /** Every arc from a marked to an unmarked vertex is full, and every arc back is empty. */
  ghost predicate Saturated(arcs: seq<Arc>, f: seq<int>, marked: seq<bool>)
    requires |f| == |arcs|
  {
    forall i :: 0 <= i < |arcs| && arcs[i].v < |marked| && arcs[i].w < |marked| ==>
      (marked[arcs[i].v] && !marked[arcs[i].w] ==> f[i] == arcs[i].capacity)
      && (!marked[arcs[i].v] && marked[arcs[i].w] ==> f[i] == 0)
  }

  /** A balanced flow that saturates the cut between the marked vertices, the source
      among them, and the unmarked ones, the target among them, has the cut's capacity
      as its value. */
  lemma ValueIsCut(arcs: seq<Arc>, f: seq<int>, marked: seq<bool>, t: nat)
    requires |f| == |arcs| && Within(arcs, |marked|) && t < |marked| && !marked[t]
    requires forall u: nat :: u < |marked| && u != t && !marked[u] ==> Net(arcs, f, u) == 0
    requires Saturated(arcs, f, marked)
    ensures Net(arcs, f, t) == Sum(CutCapacity(marked), arcs, f)
  {
    var n := |marked|;
    SideSum(arcs, f, marked, n);
    SideIsTarget(arcs, f, marked, t, n);
    forall i | 0 <= i < |arcs|
      ensures Term(IntoSide(marked, n), arcs[i], f[i]) == Term(CutCapacity(marked), arcs[i], f[i]) + 0
    {
    }
    SumSplit(IntoSide(marked, n), CutCapacity(marked), NetInto(0), false, arcs, f);
  }

  /** No balanced flow within bounds carries more into the target than the capacity of a
      cut that separates it from the source. */
  lemma CutBoundsValue(arcs: seq<Arc>, g: seq<int>, marked: seq<bool>, t: nat)
    requires |g| == |arcs| && Within(arcs, |marked|) && t < |marked| && !marked[t]
    requires forall u: nat :: u < |marked| && u != t && !marked[u] ==> Net(arcs, g, u) == 0
    requires forall i :: 0 <= i < |arcs| ==> InBounds(arcs[i], g[i])
    ensures Net(arcs, g, t) <= Sum(CutCapacity(marked), arcs, g)
  {
    var n := |marked|;
    SideSum(arcs, g, marked, n);
    SideIsTarget(arcs, g, marked, t, n);
    SumLe(IntoSide(marked, n), CutCapacity(marked), arcs, g);
  }

  /** The capacity of a cut does not depend on the flow. */
  lemma {:induction false} CutCapacityFixed(arcs: seq<Arc>, f: seq<int>, g: seq<int>, marked: seq<bool>)
    requires |f| == |arcs| && |g| == |arcs|
    ensures Sum(CutCapacity(marked), arcs, f) == Sum(CutCapacity(marked), arcs, g)
    decreases |arcs|
  {
    if arcs != [] {
      var n := |arcs|;
      CutCapacityFixed(arcs[..n - 1], f[..n - 1], g[..n - 1], marked);
    }
  }
}
