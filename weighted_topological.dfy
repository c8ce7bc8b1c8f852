/** `TopologicalOrder` of shortest_path: the same depth-first postorder search, over the
    adjacency lists of an edge-weighted digraph, following each edge to its endpoint. */
module WeightedTopological {
  import opened Common
  import opened DirectedEdge
  import opened ShortestPathCommon
  import opened DepthFirst

  /** The successor lists of an edge-weighted digraph: the endpoints of each list's edges. */
  ghost function Targets(adj: seq<seq<WeightedEdge>>): (g: seq<seq<nat>>)
    ensures |g| == |adj|
    ensures forall v :: 0 <= v < |adj| ==> |g[v]| == |adj[v]| && forall i :: 0 <= i < |adj[v]| ==> g[v][i] == adj[v][i].w
  {
    seq(|adj|, v requires 0 <= v < |adj| => seq(|adj[v]|, i requires 0 <= i < |adj[v]| => adj[v][i].w))
  }

  /** A well-formed weighted graph has closed successor lists, and an edge of the graph
      joins its endpoints in them. */
  lemma TargetsClosed(adj: seq<seq<WeightedEdge>>)
    requires WellFormed(adj)
    ensures Closed(Targets(adj))
    ensures forall e :: IsEdge(adj, e) ==> e.w in Succ(Targets(adj), e.v)
  {
    var g := Targets(adj);
    forall e | IsEdge(adj, e)
      ensures e.w in Succ(g, e.v)
    {
      var i :| 0 <= i < |adj[e.v]| && adj[e.v][i] == e;
      assert g[e.v][i] == e.w;
    }
  }

  class TopologicalOrder {
    const adj: seq<seq<WeightedEdge>>
    ghost const g: seq<seq<nat>>
    var marked: seq<bool>
    /** The vertices in the order their searches finished (the source's name for it). */
    var reversePostorder: seq<nat>

    /** The result of the constructor. */
    ghost predicate Valid()
      reads this
    {
      && g == Targets(adj)
      && Distinct(reversePostorder)
      && (forall v :: v in reversePostorder <==> 0 <= v < |adj|)
      && (Acyclic(g) ==> Postordered(g, reversePostorder))
    }

    /** Runs the search from every vertex not yet marked, in increasing order. */
    constructor (adj: seq<seq<WeightedEdge>>)
      requires WellFormed(adj)
      ensures this.adj == adj && Valid()
      ensures |marked| == |adj| && forall v :: 0 <= v < |adj| ==> marked[v]
    {
      this.adj := adj;
      g := Targets(adj);
      marked := seq(|adj|, _ => false);
      reversePostorder := [];
      new;
      TargetsClosed(adj);
      Start(g);
      for v := 0 to |adj|
        invariant Search(g, marked, reversePostorder, [])
        invariant forall u :: 0 <= u < v ==> marked[u]
      {
        if !marked[v] {
          Dfs(v, []);
        }
      }
      Complete(g, marked, reversePostorder);
    }

    /** `_dfs(vertex)`: marks v, searches from the endpoint of each edge that is still
        unmarked, then appends v. */
    method Dfs(v: nat, ghost stack: seq<nat>)
      requires g == Targets(adj) && Closed(g) && Search(g, marked, reversePostorder, stack) && v < |adj| && !marked[v]
      requires stack == [] || v in Succ(g, stack[|stack| - 1])
      modifies this
      ensures Search(g, marked, reversePostorder, stack) && marked[v] && v in reversePostorder
      ensures Grows(old(marked), marked) && IsPrefix(old(reversePostorder), reversePostorder)
      decreases Unmarked(marked)
    {
      Push(g, marked, reversePostorder, stack, v);
      marked := marked[v := true];
      ghost var entry := marked;
      var edges := adj[v];
      for i := 0 to |edges|
        invariant Search(g, marked, reversePostorder, stack + [v])
        invariant Grows(entry, marked) && IsPrefix(old(reversePostorder), reversePostorder)
        invariant Unmarked(marked) <= Unmarked(entry)
        invariant forall j :: 0 <= j < i ==>
          g[v][j] < |g| && marked[g[v][j]] && (g[v][j] in reversePostorder || !Acyclic(g))
      {
        var w := edges[i].w;
        assert w == g[v][i];
        if !marked[w] {
          ghost var before := reversePostorder;
          Dfs(w, stack + [v]);
          forall j | 0 <= j < i && g[v][j] in before
            ensures g[v][j] in reversePostorder
          {
            PrefixIn(before, reversePostorder, g[v][j]);
          }
        } else if w !in reversePostorder {
          BackEdge(g, marked, reversePostorder, stack + [v], w);
        }
      }
      Pop(g, marked, reversePostorder, stack, v);
      reversePostorder := reversePostorder + [v];
    }

    /** `get_order`: the finishing order read back to front. It lists every vertex once,
        and on an acyclic graph every edge goes from an earlier to a later vertex. */
    function GetOrder(): (r: seq<nat>)
      requires Valid()
      reads this
      ensures Distinct(r) && forall v :: v in r <==> 0 <= v < |adj|
      ensures Acyclic(g) ==> Forward(g, r)
    {
      ReverseKeeps(reversePostorder);
      Reversed(g, reversePostorder);
      Reverse(reversePostorder)
    }
  }
}
