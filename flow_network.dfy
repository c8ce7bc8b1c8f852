/**
  The flow network: one adjacency list per vertex, each flow edge listed at both of its
  ends (twice at the one end of a loop), the lists holding shared `FlowEdge` objects
  whose flows Ford-Fulkerson changes. The ghost `edges` lists each edge object once.
*/
module FlowNetworks {
  import opened Common
  import opened FlowEdges
  import FlowValues

  /** `KeyError`: a vertex outside 0..n-1. */
  datatype NetworkError = MissingVertex

  /** The fixed parts of the edges. */
  function Arcs(edges: seq<FlowEdge>): (arcs: seq<Arc>)
    ensures |arcs| == |edges|
    ensures forall i :: 0 <= i < |edges| ==> arcs[i] == edges[i].AsArc()
  {
    seq(|edges|, i requires 0 <= i < |edges| => edges[i].AsArc())
  }

  /** The current flows of the edges. */
  ghost function Flows(edges: seq<FlowEdge>): (f: seq<int>)
    reads edges
    ensures |f| == |edges|
    ensures forall i :: 0 <= i < |edges| ==> f[i] == edges[i].flow
  {
    seq(|edges|, i reads edges requires 0 <= i < |edges| => edges[i].flow)
  }

  /** e appended at both of its ends. */
  function Attach(adj: seq<seq<FlowEdge>>, e: FlowEdge): (r: seq<seq<FlowEdge>>)
    requires e.v < |adj| && e.w < |adj|
    ensures |r| == |adj|
    ensures forall u :: 0 <= u < |adj| ==> r[u] == adj[u] + (if u == e.v then [e] else []) + (if u == e.w then [e] else [])
  {
    var a := adj[e.v := adj[e.v] + [e]];
    a[e.w := a[e.w] + [e]]
  }

  /** One list per vertex; `edges` without repeats; every listed edge is in `edges` and
      has the vertex it is listed at as an end; every edge of `edges` has both ends among
      the vertices and is listed at both. */
  ghost predicate Listing(n: nat, adj: seq<seq<FlowEdge>>, edges: seq<FlowEdge>)
  {
    |adj| == n && Distinct(edges) && ListedAtEnds(n, adj, edges) && ReachedAtEnds(n, adj, edges)
  }

  ghost predicate ListedAtEnds(n: nat, adj: seq<seq<FlowEdge>>, edges: seq<FlowEdge>)
    requires |adj| == n
  {
    forall u, e :: 0 <= u < n && e in adj[u] ==> e in edges && (e.v == u || e.w == u)
  }

  ghost predicate ReachedAtEnds(n: nat, adj: seq<seq<FlowEdge>>, edges: seq<FlowEdge>)
    requires |adj| == n
  {
    forall i :: 0 <= i < |edges| ==>
      edges[i].v < n && edges[i].w < n && edges[i] in adj[edges[i].v] && edges[i] in adj[edges[i].w]
  }

  /** After attaching e, every listed edge is e or was listed before at the same vertex. */
  lemma AttachListed(n: nat, adj: seq<seq<FlowEdge>>, edges: seq<FlowEdge>, e: FlowEdge)
    requires Listing(n, adj, edges) && e.v < n && e.w < n
    ensures ListedAtEnds(n, Attach(adj, e), if e in edges then edges else edges + [e])
  {
    var adj' := Attach(adj, e);
    var edges' := if e in edges then edges else edges + [e];
    forall u, x | 0 <= u < n && x in adj'[u]
      ensures x in edges' && (x.v == u || x.w == u)
    {
      if x in adj[u] {
        assert x in edges;
      } else {
        assert x == e;
      }
    }
  }

  /** After attaching e, every edge, e among them, is listed at both of its ends. */
  lemma AttachReached(n: nat, adj: seq<seq<FlowEdge>>, edges: seq<FlowEdge>, e: FlowEdge)
    requires Listing(n, adj, edges) && e.v < n && e.w < n
    ensures ReachedAtEnds(n, Attach(adj, e), if e in edges then edges else edges + [e])
  {
    var adj' := Attach(adj, e);
    var edges' := if e in edges then edges else edges + [e];
    forall i | 0 <= i < |edges'|
      ensures edges'[i].v < n && edges'[i].w < n && edges'[i] in adj'[edges'[i].v] && edges'[i] in adj'[edges'[i].w]
    {
      var x := edges'[i];
      if i < |edges| {
        assert x == edges[i];
        assert x in adj[x.v] && x in adj[x.w];
      }
    }
  }

  /** Adding an edge not there yet keeps the edges distinct. */
  lemma AppendDistinct(edges: seq<FlowEdge>, e: FlowEdge)
    requires Distinct(edges) && e !in edges
    ensures Distinct(edges + [e])
  {
    var edges' := edges + [e];
    forall i, j | 0 <= i < j < |edges'|
      ensures edges'[i] != edges'[j]
    {
      if j == |edges| {
        assert edges'[i] in edges;
      }
    }
  }

  /** Attaching an edge with both ends among the vertices keeps the listing, with the
      edge added to `edges` unless it is there already. */
  lemma AttachKeeps(n: nat, adj: seq<seq<FlowEdge>>, edges: seq<FlowEdge>, e: FlowEdge)
    requires Listing(n, adj, edges) && e.v < n && e.w < n
    ensures Listing(n, Attach(adj, e), if e in edges then edges else edges + [e])
  {
    AttachListed(n, adj, edges, e);
    AttachReached(n, adj, edges, e);
    if e !in edges {
      AppendDistinct(edges, e);
    }
  }

  /** An edge listed at u is one of the edges, has u as an end and both ends among the
      vertices. */
  lemma ListedEdge(n: nat, adj: seq<seq<FlowEdge>>, edges: seq<FlowEdge>, u: nat, e: FlowEdge)
    requires Listing(n, adj, edges) && u < n && e in adj[u]
    ensures e in edges && EndOf(e.AsArc(), u) && e.v < n && e.w < n
  {
    assert e in edges;
  }

  /** Every edge of a listing has both ends among its vertices. */
  lemma ListingWithin(n: nat, adj: seq<seq<FlowEdge>>, edges: seq<FlowEdge>)
    requires Listing(n, adj, edges)
    ensures FlowValues.Within(Arcs(edges), n)
  {
  }

  class FlowNetwork {
    const n: nat
    var adj: seq<seq<FlowEdge>>
    ghost var edges: seq<FlowEdge>

    ghost predicate Valid()
      reads this
    {
      Listing(n, adj, edges)
    }

    /** A network of n vertices with no edges. */
    constructor (n: nat)
      ensures Valid() && this.n == n
      ensures adj == seq(n, _ => []) && edges == []
    {
      this.n := n;
      adj := seq(n, _ => []);
      edges := [];
    }

    /** `add_edge`: appends the edge at its first end, then at its second. A first end
        outside the network fails before anything is changed; a second end outside it
        fails after the edge has been appended at the first. */
    method AddEdge(e: FlowEdge) returns (r: Outcome<NetworkError>)
      requires |adj| == n
      modifies this
      ensures |adj| == n
      ensures e.v >= n ==> r == Fail(MissingVertex) && adj == old(adj) && edges == old(edges)
      ensures e.v < n <= e.w ==>
        r == Fail(MissingVertex) && adj == old(adj)[e.v := old(adj)[e.v] + [e]] && edges == old(edges)
      ensures e.v < n && e.w < n ==>
        r == Pass && adj == Attach(old(adj), e)
        && edges == if e in old(edges) then old(edges) else old(edges) + [e]
      ensures r.Pass? && old(Valid()) ==> Valid()
    {
      if e.v >= |adj| {
        return Fail(MissingVertex);
      }
      if e.w >= |adj| {
        adj := adj[e.v := adj[e.v] + [e]];
        return Fail(MissingVertex);
      }
      if Valid() {
        AttachKeeps(n, adj, edges, e);
      }
      adj := Attach(adj, e);
      if e !in edges {
        edges := edges + [e];
      }
      return Pass;
    }

    /** `adjacents(v)`: the list of edges at v, each with v as an end; `KeyError` outside
        the network. */
    function Adjacents(v: nat): (r: Result<seq<FlowEdge>, NetworkError>)
      requires Valid()
      reads this
      ensures r.Ok? <==> v < n
      ensures r.Ok? ==> r.value == adj[v]
      ensures r.Ok? ==> forall e :: e in r.value ==> e in edges && (e.v == v || e.w == v)
    {
      if v < |adj| then Ok(adj[v]) else Err(MissingVertex)
    }
  }
}
