/**
  The traditional Bellman-Ford algorithm: n passes, each relaxing every edge, then one
  more scan that flags a negative cycle when some edge could still be relaxed. Without
  the flag the distances and parent edges form a shortest-path tree.
*/
module BellmanFordTraditional {
  import opened Common
  import opened DirectedEdge
  import opened ShortestPathCommon
  import opened ParentGraph
  import opened EdgeWeightedDigraphs
  import opened RelaxationPasses

  class BellmanFord {
    const adj: seq<seq<WeightedEdge>>
    const source: nat
    var dist: seq<Dist>
    var edgeTo: seq<Option<WeightedEdge>>
    var hasNegativeCycle: bool
    /** A walk from the source for each reached vertex, as long as its distance. */
    ghost var paths: seq<seq<WeightedEdge>>
    /** Depths along the parent edges, once no edge is relaxable. */
    ghost var rank: seq<nat>

    ghost function T(): Tree
      reads this
    {
      Tree(dist, edgeTo)
    }

    /** The flag says exactly that some edge can still be relaxed, which after n passes
        happens exactly when a negative cycle is reachable from the source; without it the
        tree is a shortest-path tree. */
    ghost predicate Valid()
      reads this
    {
      && Sound(adj, source, T(), paths)
      && (hasNegativeCycle <==> !NoneRelaxable(adj, dist))
      && (hasNegativeCycle <==> NegativeCycleFrom(adj, source))
      && (!hasNegativeCycle ==> ShortestPathTree(adj, source, T(), rank))
    }

    /** n passes over the vertices, relaxing the edges of each, then the cycle check. */
    constructor (g: EdgeWeightedDigraph, source: nat)
      requires g.Valid() && WellFormed(g.adj) && source < g.n
      ensures Valid() && adj == g.adj && this.source == source
    {
      adj := g.adj;
      this.source := source;
      var t := Initial(g.n, source);
      dist := t.dist;
      edgeTo := t.edgeTo;
      hasNegativeCycle := false;
      paths := seq(g.n, _ => []);
      rank := [];
      new;
      SoundInitial(adj, source);
      InitialBounded(adj, source);
      for pass := 0 to g.n
        invariant Sound(adj, source, T(), paths) && !hasNegativeCycle
        invariant WalksBounded(adj, source, dist, pass)
      {
        ghost var d0 := dist;
        PassStart(adj, d0);
        for vertex := 0 to g.n
          invariant Sound(adj, source, T(), paths) && !hasNegativeCycle
          invariant PassUpTo(adj, d0, dist, vertex)
        {
          RelaxEdgesOf(g, vertex, d0);
        }
        PassDone(adj, source, d0, dist, pass);
      }
      PassesSuffice(adj, source, T(), paths);
      DetectNegativeCycle(g);
      if !hasNegativeCycle {
        rank := SoundFinish(adj, source, T(), paths);
        NoNegativeCycleFrom(adj, source, T(), rank);
      }
    }

    /** The innermost loop: relax every edge out of v. Against the distances d0 the pass
        started from, each of these edges ends covered. */
    method RelaxEdgesOf(g: EdgeWeightedDigraph, v: nat, ghost d0: seq<Dist>)
      requires g.Valid() && g.adj == adj && v < g.n && Sound(adj, source, T(), paths)
      requires PassUpTo(adj, d0, dist, v)
      modifies this
      ensures Sound(adj, source, T(), paths) && hasNegativeCycle == old(hasNegativeCycle)
      ensures PassUpTo(adj, d0, dist, v + 1)
    {
      var edges := g.Adjacents(v).value;
      for i := 0 to |edges|
        invariant Sound(adj, source, T(), paths) && hasNegativeCycle == old(hasNegativeCycle)
        invariant PassUpTo(adj, d0, dist, v) && EdgesCovered(adj, d0, dist, v, i)
      {
        assert IsEdge(adj, edges[i]);
        SoundRelax(adj, source, T(), paths, edges[i]);
        CoverStep(adj, d0, T(), v, i);
        Relax(edges[i]);
      }
      CoverNext(adj, d0, dist, v);
    }

    /** `_relax(edge)`: a strictly shorter edge becomes its target's parent. */
    method Relax(e: WeightedEdge)
      requires |dist| == |adj| && |edgeTo| == |adj| && |paths| == |adj| && e.v < |adj| && e.w < |adj|
      modifies this
      ensures T() == ShortestPathCommon.Relax(old(T()), e) && paths == RelaxPaths(old(T()), old(paths), e)
      ensures hasNegativeCycle == old(hasNegativeCycle)
    {
      var w := e.w;
      if Exceeds(dist[w], Plus(dist[e.v], e.weight)) {
        dist := dist[w := Plus(dist[e.v], e.weight)];
        edgeTo := edgeTo[w := Some(e)];
        paths := paths[w := paths[e.v] + [e]];
      }
    }

    /** `_detect_negative_cycle`: sets the flag at the first edge, vertex by vertex, that
        could still be relaxed. */
    method DetectNegativeCycle(g: EdgeWeightedDigraph)
      requires g.Valid() && g.adj == adj && WellFormed(adj) && |dist| == |adj| && !hasNegativeCycle
      modifies this
      ensures hasNegativeCycle <==> !NoneRelaxable(adj, dist)
      ensures dist == old(dist) && edgeTo == old(edgeTo) && paths == old(paths) && rank == old(rank)
    {
      for vertex := 0 to g.n
        invariant forall u :: 0 <= u < vertex ==> RelaxedAt(adj, dist, u)
        invariant !hasNegativeCycle
      {
        var edges := g.Adjacents(vertex).value;
        for i := 0 to |edges|
          invariant EdgesRelaxed(adj, dist, vertex, i)
          invariant !hasNegativeCycle
        {
          var e := edges[i];
          if Exceeds(dist[e.w], Plus(dist[e.v], e.weight)) {
            hasNegativeCycle := true;
            assert !RelaxedAt(adj, dist, vertex);
            return;
          }
        }
      }
    }

    /** `has_negative_cycle`: whether an edge was still relaxable after the passes. */
    function HasNegativeCycle(): (r: bool)
      requires Valid()
      reads this
      ensures r <==> !NoneRelaxable(adj, dist)
      ensures r <==> NegativeCycleFrom(adj, source)
    {
      hasNegativeCycle
    }

    /** `dist_to(vertex)`: None once a negative cycle is flagged, otherwise the length of a
        shortest path from the source (Inf when there is none). */
    function DistTo(v: nat): (r: Option<Dist>)
      requires Valid() && v < |adj|
      reads this
      ensures r.None? <==> hasNegativeCycle
      ensures r.Some? && r.value.Fin? ==> exists p :: IsPath(adj, source, v, p) && PathWeight(p) == r.value.value
      ensures r.Some? ==> forall p :: IsPath(adj, source, v, p) ==> r.value.Fin? && r.value.value <= PathWeight(p)
    {
      if hasNegativeCycle then None
      else
        ShortestPaths(adj, T(), source, rank, v);
        Some(dist[v])
    }

    /** `has_path_to(vertex)`: a finite distance, which always has a walk behind it; with
        no negative cycle flagged, exactly when the vertex can be reached. */
    function HasPathTo(v: nat): (r: bool)
      requires Valid() && v < |adj|
      reads this
      ensures r ==> dist[v].Fin? && exists p :: IsPath(adj, source, v, p) && PathWeight(p) == dist[v].value
      ensures !hasNegativeCycle ==> (r <==> exists p :: IsPath(adj, source, v, p))
    {
      if hasNegativeCycle then dist[v].Fin?
      else
        ShortestPaths(adj, T(), source, rank, v);
        dist[v].Fin?
    }

    /** `path_to(vertex)`: None once a negative cycle is flagged, otherwise the parent edges
        followed back to the source, in path order. */
    method PathTo(v: nat) returns (path: Option<seq<WeightedEdge>>)
      requires Valid() && v < |adj|
      ensures path.None? <==> hasNegativeCycle
      ensures path.Some? && dist[v].Fin? ==>
        IsPath(adj, source, v, path.value) && PathWeight(path.value) == dist[v].value
      ensures path.Some? && dist[v].Fin? ==>
        forall p :: IsPath(adj, source, v, p) ==> PathWeight(path.value) <= PathWeight(p)
      ensures path.Some? && dist[v].Inf? ==> path.value == []
    {
      if hasNegativeCycle {
        return None;
      }
      ShortestPaths(adj, T(), source, rank, v);
      var edges := ShortestPathCommon.PathTo(edgeTo, v, rank);
      if dist[v].Inf? {
        assert edgeTo[v].None?;
      }
      return Some(edges);
    }
  }
}
