/**
  Shortest paths in an edge-weighted acyclic digraph: relax the edges of each vertex,
  taking the vertices in topological order. A vertex's distance can only be lowered by an
  edge from an earlier vertex, so once its own edges are relaxed they stay relaxed.

  The rank that makes the parent walks end is the vertex's position in the order.
*/
module AcyclicShortestPaths {
  import opened Common
  import opened DirectedEdge
  import opened ShortestPathCommon
  import DepthFirst
  import opened WeightedTopological
  import opened EdgeWeightedDigraphs

  /** `pos` inverts `order`, a list of the n vertices in which every edge goes forward. */
  ghost predicate Positions(adj: seq<seq<WeightedEdge>>, order: seq<nat>, pos: seq<nat>)
  {
    && |pos| == |adj|
    && (forall v :: 0 <= v < |adj| ==> pos[v] < |order| && order[pos[v]] == v)
    && (forall k :: 0 <= k < |order| ==> order[k] < |adj| && pos[order[k]] == k)
    && DepthFirst.Forward(Targets(adj), order)
  }

  /** The positions of a topological order of the graph. */
  lemma PositionsOf(adj: seq<seq<WeightedEdge>>, order: seq<nat>) returns (pos: seq<nat>)
    requires Distinct(order) && (forall v :: v in order <==> 0 <= v < |adj|) && DepthFirst.Forward(Targets(adj), order)
    ensures Positions(adj, order, pos)
  {
    pos := seq(|adj|, v requires 0 <= v < |adj| => IndexOf(order, v));
    forall k | 0 <= k < |order|
      ensures order[k] < |adj| && pos[order[k]] == k
    {
      assert order[k] in order;
      var j := pos[order[k]];
      assert order[j] == order[k];
    }
  }

  /** An edge leaving order[k] ends at a later position. */
  lemma Later(adj: seq<seq<WeightedEdge>>, order: seq<nat>, pos: seq<nat>, k: nat, i: nat)
    requires WellFormed(adj) && Positions(adj, order, pos) && k < |order| && i < |adj[order[k]]|
    ensures adj[order[k]][i].v == order[k] && adj[order[k]][i].w < |adj| && pos[adj[order[k]][i].w] > k
  {
    var v := order[k];
    var x := adj[v][i].w;
    assert x == Targets(adj)[v][i];
    assert x in DepthFirst.Succ(Targets(adj), order[k]);
    assert x in order[k + 1..];
    var j :| k + 1 <= j < |order| && order[j] == x;
  }

  /** The state after the vertices order[..k] have been handled: a tree of parent edges
      ranked by position, the source at 0, finite distances only from the source's position
      on, and every edge of a handled vertex relaxed. */
  ghost predicate Inv(adj: seq<seq<WeightedEdge>>, s: nat, order: seq<nat>, pos: seq<nat>, t: Tree, k: nat)
  {
    && WellFormed(adj) && s < |adj| && Positions(adj, order, pos) && k <= |order|
    && Supported(adj, t) && Reached(t, s) && Ranked(t.edgeTo, pos)
    && t.dist[s] == Fin(0) && t.edgeTo[s].None?
    && (forall v :: 0 <= v < |adj| && t.dist[v].Fin? ==> pos[v] >= pos[s])
    && (forall j :: 0 <= j < k ==> RelaxedAt(adj, t.dist, order[j]))
  }

  lemma Start(adj: seq<seq<WeightedEdge>>, s: nat, order: seq<nat>, pos: seq<nat>)
    requires WellFormed(adj) && s < |adj| && Positions(adj, order, pos)
    ensures Inv(adj, s, order, pos, Initial(|adj|, s), 0)
  {
    InitialTree(adj, s);
  }

  /** Relaxing edge i of order[k], once its first i edges are relaxed, keeps the invariant
      and relaxes edge i as well. */
  lemma RelaxKeeps(adj: seq<seq<WeightedEdge>>, s: nat, order: seq<nat>, pos: seq<nat>, t: Tree, k: nat, i: nat)
    requires Inv(adj, s, order, pos, t, k) && k < |order| && i < |adj[order[k]]|
    requires EdgesRelaxed(adj, t.dist, order[k], i)
    ensures IsEdge(adj, adj[order[k]][i]) && adj[order[k]][i].w < |adj|
    ensures var r := Relax(t, adj[order[k]][i]);
      Inv(adj, s, order, pos, r, k) && EdgesRelaxed(adj, r.dist, order[k], i + 1)
  {
    var v := order[k];
    var e := adj[v][i];
    Later(adj, order, pos, k, i);
    assert IsEdge(adj, e);
    RelaxStep(adj, t, s, e);
    var r := Relax(t, e);
    if Relaxable(t.dist, e) {
      var z := r.dist[e.w];
      assert r.dist == t.dist[e.w := z];
      DistOrder(z, t.dist[e.w], t.dist[e.w], 0, 0);
      assert e.w != s;
      forall u | 0 <= u < |adj| && r.edgeTo[u].Some?
        ensures r.edgeTo[u].value.v < |r.edgeTo| && pos[r.edgeTo[u].value.v] < pos[u]
      {
        if u != e.w {
          assert r.edgeTo[u] == t.edgeTo[u];
        }
      }
      forall j | 0 <= j < k
        ensures RelaxedAt(adj, r.dist, order[j])
      {
        assert pos[order[j]] == j;
        LowerKeepsRelaxed(adj, t.dist, e.w, z, order[j]);
      }
      forall j | 0 <= j < i
        ensures !Relaxable(r.dist, adj[v][j])
      {
        LowerKeepsEdge(t.dist, e.w, z, adj[v][j]);
      }
    }
  }

  /** With every vertex handled, no edge is relaxable. */
  lemma Done(adj: seq<seq<WeightedEdge>>, s: nat, order: seq<nat>, pos: seq<nat>, t: Tree)
    requires Inv(adj, s, order, pos, t, |order|)
    ensures ShortestPathTree(adj, s, t, pos)
  {
    forall v | 0 <= v < |adj|
      ensures RelaxedAt(adj, t.dist, v)
    {
      assert order[pos[v]] == v;
    }
  }

  class AcyclicSP {
    const adj: seq<seq<WeightedEdge>>
    const source: nat
    var dist: seq<Dist>
    var edgeTo: seq<Option<WeightedEdge>>
    /** The position of each vertex in the topological order used. */
    ghost var rank: seq<nat>

    ghost function T(): Tree
      reads this
    {
      Tree(dist, edgeTo)
    }

    /** The result: a shortest-path tree rooted at the source. */
    ghost predicate Valid()
      reads this
    {
      ShortestPathTree(adj, source, T(), rank)
    }

    /** Relaxes the edges of each vertex in the order the topological sort returns. Every
        edge must end at a vertex of the graph; weights may be negative. On any graph the
        parent edges stay valid, and when the graph is acyclic the result is a shortest-path
        tree. */
    constructor (g: EdgeWeightedDigraph, source: nat)
      requires g.Valid() && WellFormed(g.adj) && source < g.n
      ensures adj == g.adj && this.source == source
      ensures Supported(adj, T()) && Reached(T(), source)
      ensures DepthFirst.Acyclic(Targets(adj)) ==> Valid()
    {
      adj := g.adj;
      this.source := source;
      var t := Initial(g.n, source);
      dist := t.dist;
      edgeTo := t.edgeTo;
      new;
      var topologicalSort := new TopologicalOrder(adj);
      var order := topologicalSort.GetOrder();
      ghost var acyclic := DepthFirst.Acyclic(Targets(adj));
      InitialTree(adj, source);
      if acyclic {
        rank := PositionsOf(adj, order);
        Start(adj, source, order, rank);
      }
      for k := 0 to |order|
        invariant Supported(adj, T()) && Reached(T(), source)
        invariant acyclic ==> Inv(adj, source, order, rank, T(), k)
      {
        assert order[k] in order;
        RelaxEdgesOf(g, order, k, acyclic);
      }
      if acyclic {
        Done(adj, source, order, rank, T());
      }
    }

    /** The inner loop: relax every edge of the k-th vertex of the order. */
    method RelaxEdgesOf(g: EdgeWeightedDigraph, order: seq<nat>, k: nat, ghost acyclic: bool)
      requires g.Valid() && g.adj == adj && WellFormed(adj) && source < |adj|
      requires k < |order| && order[k] < |adj|
      requires Supported(adj, T()) && Reached(T(), source)
      requires acyclic ==> Inv(adj, source, order, rank, T(), k)
      modifies this
      ensures Supported(adj, T()) && Reached(T(), source)
      ensures acyclic ==> Inv(adj, source, order, rank, T(), k + 1)
    {
      var v := order[k];
      var edges := g.Adjacents(v).value;
      for i := 0 to |edges|
        invariant Supported(adj, T()) && Reached(T(), source)
        invariant acyclic ==> Inv(adj, source, order, rank, T(), k) && EdgesRelaxed(adj, dist, v, i)
      {
        assert IsEdge(adj, edges[i]);
        RelaxStep(adj, T(), source, edges[i]);
        if acyclic {
          RelaxKeeps(adj, source, order, rank, T(), k, i);
        }
        Relax(edges[i]);
      }
    }

    /** `_relax(edge)`: a strictly shorter edge becomes its target's parent. */
    method Relax(e: WeightedEdge)
      requires |dist| == |adj| && |edgeTo| == |adj| && e.v < |adj| && e.w < |adj|
      modifies this
      ensures T() == ShortestPathCommon.Relax(old(T()), e) && rank == old(rank)
    {
      var w := e.w;
      if Exceeds(dist[w], Plus(dist[e.v], e.weight)) {
        dist := dist[w := Plus(dist[e.v], e.weight)];
        edgeTo := edgeTo[w := Some(e)];
      }
    }

    /** `dist_to(vertex)`: the length of a shortest path from the source, Inf when the
        vertex cannot be reached. */
    function DistTo(v: nat): (r: Dist)
      requires Valid() && v < |adj|
      reads this
      ensures r.Fin? ==> exists p :: IsPath(adj, source, v, p) && PathWeight(p) == r.value
      ensures forall p :: IsPath(adj, source, v, p) ==> r.Fin? && r.value <= PathWeight(p)
    {
      ShortestPaths(adj, T(), source, rank, v);
      dist[v]
    }

    /** `path_to(vertex)`: the parent edges followed back to the source, in path order. */
    method PathTo(v: nat) returns (path: seq<WeightedEdge>)
      requires Valid() && v < |adj|
      ensures dist[v].Fin? ==> IsPath(adj, source, v, path) && PathWeight(path) == dist[v].value
      ensures dist[v].Fin? ==> forall p :: IsPath(adj, source, v, p) ==> PathWeight(path) <= PathWeight(p)
      ensures dist[v].Inf? ==> path == []
    {
      ShortestPaths(adj, T(), source, rank, v);
      path := ShortestPathCommon.PathTo(edgeTo, v, rank);
      if dist[v].Inf? {
        assert edgeTo[v].None?;
      }
    }
  }
}
