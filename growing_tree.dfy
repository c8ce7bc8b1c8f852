/** The tree the two versions of Prim's algorithm grow from vertex 0: its edges lie
    between marked vertices and connect each marked vertex to 0, and an edge from a marked
    vertex to an unmarked one keeps it a forest. */
module GrowingTree {
  import opened Common
  import opened WeightedEdges
  import opened Connectivity
  import opened WeightedGraphs

  /** Every tree edge is a graph edge between marked vertices. */
  ghost predicate TreeMarked(adj: seq<seq<Edge>>, marked: seq<bool>, mst: seq<Edge>)
    requires |marked| == |adj|
  {
    forall e :: e in mst ==> IsEdge(adj, e) && marked[e.v] && marked[e.w]
  }

  /** The tree connects every marked vertex to 0. */
  ghost predicate Reaches(marked: seq<bool>, mst: seq<Edge>)
  {
    forall u :: 0 <= u < |marked| && marked[u] ==> Joined(Elems(mst), 0, u)
  }

  /** An edge e from a marked vertex to the unmarked vertex x keeps the tree a forest: no
      tree edge touches x. */
  lemma AcceptForest(adj: seq<seq<Edge>>, marked: seq<bool>, mst: seq<Edge>, e: Edge, x: nat)
    requires |marked| == |adj| && x < |adj| && !marked[x] && IsEdge(adj, e) && EndOf(e, x)
    requires marked[Other(e, x)]
    requires TreeMarked(adj, marked, mst) && Forest(mst)
    ensures Forest(mst + [e])
  {
    var y := Other(e, x);
    forall f | f in Elems(mst)
      ensures !EndOf(f, x)
    {
    }
    Untouched(Elems(mst), y, x);
    if x == e.v && Joined(Elems(mst), e.v, e.w) {
      JoinedSym(Elems(mst), e.v, e.w);
    }
    ForestAppend(mst, e);
  }

  /** Adding e and marking its end x keeps the tree's edges between marked vertices. */
  lemma AcceptMarked(adj: seq<seq<Edge>>, marked: seq<bool>, m: seq<bool>, mst: seq<Edge>, mst': seq<Edge>, e: Edge, x: nat)
    requires |marked| == |adj| && x < |adj| && IsEdge(adj, e) && EndOf(e, x) && marked[Other(e, x)]
    requires m == marked[x := true] && mst' == mst + [e]
    requires TreeMarked(adj, marked, mst)
    ensures TreeMarked(adj, m, mst')
  {
    forall f | f in mst'
      ensures IsEdge(adj, f) && m[f.v] && m[f.w]
    {
      if f != e {
        assert f in mst;
      }
    }
  }

  /** Adding e connects its end x to 0 through its marked end, and keeps every marked
      vertex connected. */
  lemma AcceptJoined(marked: seq<bool>, m: seq<bool>, mst: seq<Edge>, mst': seq<Edge>, e: Edge, x: nat)
    requires x < |marked| && EndOf(e, x) && Other(e, x) < |marked| && marked[Other(e, x)]
    requires m == marked[x := true] && mst' == mst + [e]
    requires Reaches(marked, mst)
    ensures Reaches(m, mst')
  {
    var y := Other(e, x);
    ElemsAppend(mst, e);
    JoinedEdge(Elems(mst'), e);
    JoinedGrow(Elems(mst), Elems(mst'), 0, y);
    if e.v != y {
      JoinedSym(Elems(mst'), e.v, e.w);
    }
    forall u | 0 <= u < |m| && m[u]
      ensures Joined(Elems(mst'), 0, u)
    {
      if u == x {
        JoinedTrans(Elems(mst'), 0, y, x);
      } else {
        JoinedGrow(Elems(mst), Elems(mst'), 0, u);
      }
    }
  }

  /** The tree's edges are edges of the graph, so every marked vertex is connected to 0. */
  lemma FinishReached(adj: seq<seq<Edge>>, marked: seq<bool>, mst: seq<Edge>)
    requires |marked| == |adj| && TreeMarked(adj, marked, mst) && Reaches(marked, mst)
    ensures forall u :: 0 <= u < |adj| && marked[u] ==> Joined(GraphEdges(adj), 0, u)
  {
    var G := GraphEdges(adj);
    forall f | f in Elems(mst)
      ensures f in G
    {
      EdgeListed(adj, f);
    }
    forall u | 0 <= u < |adj| && marked[u]
      ensures Joined(G, 0, u)
    {
      JoinedGrow(Elems(mst), G, 0, u);
    }
  }

  /** When every edge at a marked vertex ends at marked vertices, every vertex connected
      to 0 in the graph is marked. */
  lemma ClosedMarks(adj: seq<seq<Edge>>, marked: seq<bool>)
    requires WellFormed(adj) && |marked| == |adj| && 0 < |adj| && marked[0]
    requires forall u, e :: 0 <= u < |adj| && marked[u] && e in adj[u] ==> marked[e.v] && marked[e.w]
    ensures forall u :: 0 <= u < |adj| && Joined(GraphEdges(adj), 0, u) ==> marked[u]
  {
    var G := GraphEdges(adj);
    var S := TrueSet(marked);
    forall f | f in G
      ensures f.v in S <==> f.w in S
    {
      ListedAtBothEnds(adj, f);
    }
    forall u | 0 <= u < |adj| && Joined(G, 0, u)
      ensures marked[u]
    {
      ClosedJoined(G, S, 0, u);
    }
  }
}
