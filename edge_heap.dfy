/**
  Python's `heapq` over edges, as used by Kruskal's and the lazy Prim algorithm. The list
  is modelled by the multiset of its items: `heappush` adds one, and `heappop` removes one
  of least weight (which of several equally light edges comes first is left open).
*/
module EdgeHeap {
  import opened WeightedEdges

  /** A non-empty bag of edges has a lightest one. */
  lemma {:induction false} MinimumExists(m: multiset<Edge>) returns (e: Edge)
    requires m != multiset{}
    ensures e in m && forall f :: f in m ==> e.weight <= f.weight
    decreases |m|
  {
    var x :| x in m;
    var rest := m - multiset{x};
    if rest == multiset{} {
      e := x;
      assert m == rest + multiset{x};
    } else {
      var y := MinimumExists(rest);
      e := if x.weight <= y.weight then x else y;
      forall f | f in m
        ensures e.weight <= f.weight
      {
        if f != x {
          assert f in rest;
        }
      }
    }
  }

  /** `heappop`: a lightest edge, and the heap without one copy of it. */
  method HeapPop(h: multiset<Edge>) returns (e: Edge, rest: multiset<Edge>)
    requires h != multiset{}
    ensures e in h && forall f :: f in h ==> e.weight <= f.weight
    ensures rest == h - multiset{e} && |rest| == |h| - 1
  {
    ghost var m := MinimumExists(h);
    e :| e in h && forall f :: f in h ==> e.weight <= f.weight;
    rest := h - multiset{e};
  }
}
