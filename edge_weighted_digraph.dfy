/**
  The edge-weighted digraph: one adjacency list per vertex plus the list of every
  edge in the order it was added.
*/
module EdgeWeightedDigraphs {
  import opened Common
  import opened DirectedEdge

  /** The `KeyError` of a vertex that has no list. */
  datatype DigraphError = MissingVertex

  /** All adjacency lists concatenated, vertex by vertex. */
  function Flatten(adj: seq<seq<WeightedEdge>>): seq<WeightedEdge>
  {
    if adj == [] then [] else Flatten(adj[..|adj| - 1]) + adj[|adj| - 1]
  }

  /** Every edge sits in the list of its own source vertex. */
  ghost predicate ListedBySource(adj: seq<seq<WeightedEdge>>)
  {
    forall v, i :: 0 <= v < |adj| && 0 <= i < |adj[v]| ==> adj[v][i].v == v
  }

  /** Appending an edge to one list adds exactly that edge to the flattened lists. */
  lemma {:induction false} FlattenAppend(adj: seq<seq<WeightedEdge>>, v: nat, e: WeightedEdge)
    requires v < |adj|
    ensures multiset(Flatten(adj[v := adj[v] + [e]])) == multiset(Flatten(adj)) + multiset{e}
  {
    var m := |adj| - 1;
    var adj' := adj[v := adj[v] + [e]];
    assert adj'[..m] == if v == m then adj[..m] else adj[..m][v := adj[v] + [e]];
    if v < m {
      FlattenAppend(adj[..m], v, e);
    }
  }

  /** Appending to one list leaves the others as they were and keeps each edge by its source. */
  lemma AppendBySource(adj: seq<seq<WeightedEdge>>, e: WeightedEdge)
    requires ListedBySource(adj) && e.v < |adj|
    ensures ListedBySource(adj[e.v := adj[e.v] + [e]])
  {
  }

  class EdgeWeightedDigraph {
    const n: nat
    var adj: seq<seq<WeightedEdge>>
    var edges: seq<WeightedEdge>

    /** One list per vertex, each edge listed under its source, and `edges` holding exactly
        the listed edges. */
    ghost predicate Valid()
      reads this
    {
      |adj| == n && ListedBySource(adj) && multiset(edges) == multiset(Flatten(adj))
    }

    constructor (n: nat)
      ensures Valid() && this.n == n
      ensures adj == seq(n, _ => []) && edges == []
    {
      this.n := n;
      adj := seq(n, _ => []);
      edges := [];
      new;
      assert Flatten(adj) == [] by {
        EmptyLists(adj);
      }
    }

    /** `add_edge`: appends the edge to its source's list and to `edges`. A source outside
        the graph is a missing key of the dictionary of lists: `KeyError`, nothing changed. */
    method AddEdge(e: WeightedEdge) returns (r: Outcome<DigraphError>)
      requires Valid()
      modifies this
      ensures Valid()
      ensures r.Pass? <==> e.v < n
      ensures e.v < n ==> adj == old(adj)[e.v := old(adj)[e.v] + [e]] && edges == old(edges) + [e]
      ensures e.v >= n ==> adj == old(adj) && edges == old(edges)
    {
      if e.v >= |adj| {
        return Fail(MissingVertex);
      }
      FlattenAppend(adj, e.v, e);
      AppendBySource(adj, e);
      adj := adj[e.v := adj[e.v] + [e]];
      edges := edges + [e];
      return Pass;
    }

    /** `adjacents`: the list of edges out of v, `KeyError` for a vertex outside the graph. */
    function Adjacents(v: nat): (r: Result<seq<WeightedEdge>, DigraphError>)
      requires Valid()
      reads this
      ensures r.Ok? <==> v < n
      ensures r.Ok? ==> r.value == adj[v]
      ensures r.Ok? ==> forall e :: e in r.value ==> From(e) == v && e in edges
    {
      if v < |adj| then
        InFlatten(adj, v);
        assert forall e :: e in adj[v] ==> e in multiset(edges);
        Ok(adj[v])
      else Err(MissingVertex)
    }
  }

  /** `from_edge` of every edge in the list of v is v. */
  lemma ListedFrom(adj: seq<seq<WeightedEdge>>, v: nat, e: WeightedEdge)
    requires ListedBySource(adj) && v < |adj| && e in adj[v]
    ensures From(e) == v
  {
  }

  /** Lists that are all empty flatten to nothing. */
  lemma {:induction false} EmptyLists(adj: seq<seq<WeightedEdge>>)
    requires forall v :: 0 <= v < |adj| ==> adj[v] == []
    ensures Flatten(adj) == []
  {
    if adj != [] {
      EmptyLists(adj[..|adj| - 1]);
    }
  }

  /** Every listed edge occurs in the flattened lists. */
  lemma {:induction false} InFlatten(adj: seq<seq<WeightedEdge>>, v: nat)
    requires v < |adj|
    ensures forall e :: e in adj[v] ==> e in multiset(Flatten(adj))
  {
    var m := |adj| - 1;
    if v < m {
      InFlatten(adj[..m], v);
      assert adj[..m][v] == adj[v];
    }
  }
}
