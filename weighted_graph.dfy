/** The undirected edge-weighted graph the spanning-tree algorithms read, given as its
    adjacency lists: `adjacents(v)` is `adj[v]`, and an edge is listed at both of its ends. */
module WeightedGraphs {
  import opened WeightedEdges

  /** Every edge listed at u has u as an end, both ends are vertices, and the edge is
      listed at both of its ends. */
  ghost predicate WellFormed(adj: seq<seq<Edge>>)
  {
    forall u, e :: 0 <= u < |adj| && e in adj[u] ==>
      e.v < |adj| && e.w < |adj| && EndOf(e, u) && e in adj[e.v] && e in adj[e.w]
  }

  /** e is an edge of the graph: its ends are vertices and it is listed at the first. */
  predicate IsEdge(adj: seq<seq<Edge>>, e: Edge)
  {
    e.v < |adj| && e.w < |adj| && e in adj[e.v]
  }

  /** The edges of the graph. */
  ghost function GraphEdges(adj: seq<seq<Edge>>): set<Edge>
  {
    set u, e | 0 <= u < |adj| && e in adj[u] :: e
  }

  /** An edge of a well-formed graph is listed at both of its ends. */
  lemma ListedAtBothEnds(adj: seq<seq<Edge>>, e: Edge)
    requires WellFormed(adj) && e in GraphEdges(adj)
    ensures e.v < |adj| && e.w < |adj| && e in adj[e.v] && e in adj[e.w]
  {
    var u :| 0 <= u < |adj| && e in adj[u];
  }

  /** An edge listed at its first end is an edge of the graph. */
  lemma EdgeListed(adj: seq<seq<Edge>>, e: Edge)
    requires IsEdge(adj, e)
    ensures e in GraphEdges(adj)
  {
  }
}
