/**
  The queue-based Bellman-Ford algorithm: only vertices whose distance went down since
  they were last handled wait on the queue, and after every n edge relaxations
  (counting the ones that change nothing) the parent edges are searched for a cycle.
  Such a cycle is a negative cycle reachable from the source; when the queue runs out
  without one, every edge is relaxed and the tree is a shortest-path tree.
*/
module BellmanFordQueue {
  import opened Common
  import opened DirectedEdge
  import opened ShortestPathCommon
  import opened ParentGraph
  import opened EdgeWeightedDigraphs
  import opened DepthFirst
  import opened CycleSearch
  import opened WeightedTopological
  import opened EdgeWeightedCycles

  /** Every listed edge of the subgraph is the parent edge of the vertex it ends at. */
  ghost predicate ParentListed(edgeTo: seq<Option<WeightedEdge>>, sub: seq<seq<WeightedEdge>>)
  {
    forall u, j :: 0 <= u < |sub| && 0 <= j < |sub[u]| ==>
      sub[u][j].w < |edgeTo| && edgeTo[sub[u][j].w] == Some(sub[u][j])
  }

  /** An edge u -> x of the parent subgraph is x's parent edge, and a graph edge. */
  lemma SubgraphStep(adj: seq<seq<WeightedEdge>>, t: Tree, sub: seq<seq<WeightedEdge>>, u: nat, x: nat)
    requires WellFormed(adj) && Supported(adj, t) && WellFormed(sub) && ParentListed(t.edgeTo, sub)
    requires x in Succ(Targets(sub), u)
    ensures x < |t.edgeTo| && t.edgeTo[x].Some? && t.edgeTo[x].value.v == u
    ensures x in Succ(Targets(adj), u)
  {
    var j :| 0 <= j < |Targets(sub)[u]| && Targets(sub)[u][j] == x;
    var e := sub[u][j];
    assert e.w == x && e.v == u && t.edgeTo[x] == Some(e);
    TargetsClosed(adj);
  }

  /** A cycle recorded in the parent subgraph: the vertices after the first occurrence of
      its last vertex form a parent cycle, and the record is a cycle record of the graph. */
  lemma SubgraphCycle(adj: seq<seq<WeightedEdge>>, t: Tree, sub: seq<seq<WeightedEdge>>, c: seq<nat>) returns (cyc: seq<nat>)
    requires WellFormed(adj) && Supported(adj, t) && WellFormed(sub) && |sub| == |adj| && ParentListed(t.edgeTo, sub)
    requires CycleRecord(Targets(sub), c)
    ensures ParentCycle(t.edgeTo, cyc)
    ensures CycleRecord(Targets(adj), c)
  {
    SubgraphWalk(adj, t, sub, c);
    var last := |c| - 1;
    var k :| 0 <= k < last && c[k] == c[last];
    cyc := SubgraphParents(adj, t, sub, c, k);
  }

  /** A walk of the parent subgraph is a walk of the graph. */
  lemma SubgraphWalk(adj: seq<seq<WeightedEdge>>, t: Tree, sub: seq<seq<WeightedEdge>>, c: seq<nat>)
    requires WellFormed(adj) && Supported(adj, t) && WellFormed(sub) && |sub| == |adj| && ParentListed(t.edgeTo, sub)
    requires IsWalk(Targets(sub), c)
    ensures IsWalk(Targets(adj), c)
  {
    forall i | 0 <= i < |c| - 1
      ensures c[i + 1] in Succ(Targets(adj), c[i])
    {
      SubgraphStep(adj, t, sub, c[i], c[i + 1]);
    }
  }

  /** The part of a subgraph walk after the first visit of its last vertex is a parent
      cycle. */
  lemma SubgraphParents(adj: seq<seq<WeightedEdge>>, t: Tree, sub: seq<seq<WeightedEdge>>, c: seq<nat>, k: nat) returns (cyc: seq<nat>)
    requires WellFormed(adj) && Supported(adj, t) && WellFormed(sub) && ParentListed(t.edgeTo, sub)
    requires IsWalk(Targets(sub), c) && k < |c| - 1 && c[k] == c[|c| - 1]
    ensures cyc == c[k + 1..] && ParentCycle(t.edgeTo, cyc)
  {
    cyc := c[k + 1..];
    forall m | 0 <= m < |cyc|
      ensures cyc[m] < |t.edgeTo| && t.edgeTo[cyc[m]].Some? && t.edgeTo[cyc[m]].value.v == Before(cyc, m)
    {
      assert cyc[m] == c[k + 1 + m];
      assert Before(cyc, m) == c[k + m];
      SubgraphStep(adj, t, sub, c[k + m], cyc[m]);
    }
  }

  /** `on_queue` marks exactly the queue, which lists vertices of the graph at most once. */
  ghost predicate QueueMarked(n: nat, onQueue: seq<bool>, queue: seq<nat>)
  {
    && |onQueue| == n && Distinct(queue)
    && (forall k :: 0 <= k < |queue| ==> queue[k] < n)
    && (forall u :: 0 <= u < n ==> (onQueue[u] <==> u in queue))
  }

  /** Every vertex off the queue has its edges relaxed. */
  ghost predicate OffQueueRelaxed(adj: seq<seq<WeightedEdge>>, dist: seq<Dist>, onQueue: seq<bool>)
  {
    |onQueue| == |adj| && forall u :: 0 <= u < |adj| && !onQueue[u] ==> RelaxedAt(adj, dist, u)
  }

  /** While the edges of v are relaxed, the first i of them: every vertex off the queue
      other than v has its edges relaxed, and v its first i edges unless it is back on
      the queue. */
  ghost predicate Handled(adj: seq<seq<WeightedEdge>>, dist: seq<Dist>, onQueue: seq<bool>, v: nat, i: nat)
  {
    && |onQueue| == |adj| && v < |adj|
    && (forall u :: 0 <= u < |adj| && u != v && !onQueue[u] ==> RelaxedAt(adj, dist, u))
    && (!onQueue[v] ==> EdgesRelaxed(adj, dist, v, i))
  }

  /** The queue after relaxing e: a target whose distance goes down joins the back of the
      queue unless it is waiting already. */
  function Enqueue(dist: seq<Dist>, e: WeightedEdge, onQueue: seq<bool>, queue: seq<nat>): (r: (seq<bool>, seq<nat>))
    requires e.v < |dist| && e.w < |dist| && |onQueue| == |dist|
    ensures |r.0| == |onQueue|
    ensures r.1 == queue || (r.1 == queue + [e.w] && !onQueue[e.w])
  {
    if Exceeds(dist[e.w], Plus(dist[e.v], e.weight)) && !onQueue[e.w] then
      (onQueue[e.w := true], queue + [e.w])
    else (onQueue, queue)
  }

  /** Before the first iteration only the source waits, and every other vertex is at
      distance Inf, so its edges cannot lower anything. */
  lemma StartQueue(adj: seq<seq<WeightedEdge>>, s: nat)
    requires WellFormed(adj) && s < |adj|
    ensures QueueMarked(|adj|, seq(|adj|, u => u == s), [s])
    ensures OffQueueRelaxed(adj, Initial(|adj|, s).dist, seq(|adj|, u => u == s))
  {
    var onQueue := seq(|adj|, u => u == s);
    var dist := Initial(|adj|, s).dist;
    forall u | 0 <= u < |adj| && !onQueue[u]
      ensures RelaxedAt(adj, dist, u)
    {
      assert dist[u] == Inf;
    }
  }

  /** `popleft` and clearing the mark: the front vertex starts with none of its edges
      relaxed, and every other vertex off the queue stays relaxed. */
  lemma Dequeue(adj: seq<seq<WeightedEdge>>, dist: seq<Dist>, onQueue: seq<bool>, queue: seq<nat>)
    requires QueueMarked(|adj|, onQueue, queue) && OffQueueRelaxed(adj, dist, onQueue) && queue != []
    ensures QueueMarked(|adj|, onQueue[queue[0] := false], queue[1..])
    ensures Handled(adj, dist, onQueue[queue[0] := false], queue[0], 0)
  {
    var v := queue[0];
    var q := queue[1..];
    forall u | 0 <= u < |adj|
      ensures (onQueue[v := false][u] <==> u in q)
    {
      assert u in queue <==> u == v || u in q;
      if u in q {
        var k :| 0 <= k < |q| && q[k] == u;
        assert queue[k + 1] == u && queue[0] == v;
      }
    }
  }

  /** One edge of v relaxed: the edges it lowers, if any, belong to its target, which then
      waits on the queue; the edge itself can no longer lower anything. */
  lemma HandledStep(adj: seq<seq<WeightedEdge>>, t: Tree, onQueue: seq<bool>, v: nat, i: nat)
    requires WellFormed(adj) && |t.dist| == |adj| && |t.edgeTo| == |adj|
    requires Handled(adj, t.dist, onQueue, v, i) && i < |adj[v]|
    ensures var e := adj[v][i];
      Handled(adj, Relax(t, e).dist, Enqueue(t.dist, e, onQueue, []).0, v, i + 1)
  {
    var e := adj[v][i];
    var w := e.w;
    var dist := t.dist;
    var oq := Enqueue(dist, e, onQueue, []).0;
    if Exceeds(dist[w], Plus(dist[v], e.weight)) {
      var z := Plus(dist[v], e.weight);
      assert Relax(t, e).dist == dist[w := z];
      DistOrder(z, dist[w], dist[w], 0, 0);
      assert oq[w];
      forall u | 0 <= u < |adj| && u != v && !oq[u]
        ensures RelaxedAt(adj, dist[w := z], u)
      {
        LowerKeepsRelaxed(adj, dist, w, z, u);
      }
      if v != w && !oq[v] {
        forall j | 0 <= j < i + 1
          ensures !Relaxable(dist[w := z], adj[v][j])
        {
          if j < i {
            LowerKeepsEdge(dist, w, z, adj[v][j]);
          }
        }
      }
    }
  }

  /** Appending the target to the queue keeps the marks in step with it. */
  lemma QueueStep(n: nat, dist: seq<Dist>, e: WeightedEdge, onQueue: seq<bool>, queue: seq<nat>)
    requires QueueMarked(n, onQueue, queue) && |dist| == n && e.v < n && e.w < n
    ensures var (oq, q) := Enqueue(dist, e, onQueue, queue);
      QueueMarked(n, oq, q) && oq == Enqueue(dist, e, onQueue, []).0
  {
    var (oq, q) := Enqueue(dist, e, onQueue, queue);
    if q != queue {
      forall u | 0 <= u < n
        ensures (oq[u] <==> u in q)
      {
        assert u in q <==> u in queue || u == e.w;
      }
      assert Distinct(q) by {
        forall a, b | 0 <= a < b < |q|
          ensures q[a] != q[b]
        {
          if b == |queue| {
            assert q[a] == queue[a];
          }
        }
      }
    }
  }

  /** All of v's edges relaxed: every vertex off the queue has its edges relaxed. */
  lemma HandledSettled(adj: seq<seq<WeightedEdge>>, dist: seq<Dist>, onQueue: seq<bool>, v: nat)
    requires v < |adj| && Handled(adj, dist, onQueue, v, |adj[v]|)
    ensures OffQueueRelaxed(adj, dist, onQueue)
  {
  }

  /** An empty queue after every vertex is settled: no edge can lower a distance. */
  lemma EmptyQueue(adj: seq<seq<WeightedEdge>>, dist: seq<Dist>, onQueue: seq<bool>)
    requires QueueMarked(|adj|, onQueue, []) && OffQueueRelaxed(adj, dist, onQueue)
    ensures NoneRelaxable(adj, dist)
  {
    forall u | 0 <= u < |adj|
      ensures RelaxedAt(adj, dist, u)
    {
      assert !onQueue[u];
    }
  }

  /** Adding the parent edge of x to the subgraph keeps every listed edge a parent edge. */
  lemma ListParent(edgeTo: seq<Option<WeightedEdge>>, sub: seq<seq<WeightedEdge>>, x: nat)
    requires ParentListed(edgeTo, sub) && x < |edgeTo| && edgeTo[x].Some? && edgeTo[x].value.w == x
    requires edgeTo[x].value.v < |sub|
    ensures var e := edgeTo[x].value; ParentListed(edgeTo, sub[e.v := sub[e.v] + [e]])
  {
    var e := edgeTo[x].value;
    var grown: seq<seq<WeightedEdge>> := sub[e.v := sub[e.v] + [e]];
    forall u, j | 0 <= u < |grown| && 0 <= j < |grown[u]|
      ensures grown[u][j].w < |edgeTo| && edgeTo[grown[u][j].w] == Some(grown[u][j])
    {
      if u != e.v || j < |sub[u]| {
        assert grown[u][j] == sub[u][j];
      }
    }
  }

  /** The parent edges as a digraph: each edge of the graph that is the parent edge of its
      target, listed under its source. */
  method ParentSubgraph(n: nat, edgeTo: seq<Option<WeightedEdge>>, ghost adj: seq<seq<WeightedEdge>>, ghost dist: seq<Dist>)
    returns (sub: EdgeWeightedDigraph)
    requires |adj| == n && WellFormed(adj) && Supported(adj, Tree(dist, edgeTo))
    ensures sub.Valid() && |sub.adj| == n && WellFormed(sub.adj) && ParentListed(edgeTo, sub.adj)
  {
    sub := new EdgeWeightedDigraph(n);
    for x := 0 to |edgeTo|
      invariant sub.Valid() && sub.n == n && ParentListed(edgeTo, sub.adj)
    {
      if edgeTo[x].Some? {
        var e := edgeTo[x].value;
        assert e.w == x && IsEdge(adj, e);
        ListParent(edgeTo, sub.adj, x);
        var added := sub.AddEdge(e);
      }
    }
    forall u, j | 0 <= u < |sub.adj| && 0 <= j < |sub.adj[u]|
      ensures sub.adj[u][j].v == u && sub.adj[u][j].w < |sub.adj|
    {
    }
  }

  class BellmanFord {
    const adj: seq<seq<WeightedEdge>>
    const source: nat
    var dist: seq<Dist>
    var edgeTo: seq<Option<WeightedEdge>>
    var onQueue: seq<bool>
    var queue: seq<nat>
    /** The number of edge relaxations so far. */
    var cost: nat
    /** The last cycle found among the parent edges, if any. */
    var cycle: Option<seq<nat>>
    /** A walk from the source for each reached vertex, as long as its distance. */
    ghost var paths: seq<seq<WeightedEdge>>
    /** Depths along the parent edges once the queue has run out. */
    ghost var rank: seq<nat>

    ghost function T(): Tree
      reads this
    {
      Tree(dist, edgeTo)
    }

    /** A recorded cycle reports a negative cycle reachable from the source. */
    ghost predicate Reports(c: seq<nat>)
    {
      NegativeCycleFrom(adj, source) && CycleRecord(Targets(adj), c)
    }

    /** While the edges of v are relaxed, the first i of them. */
    ghost predicate Relaxing(v: nat, i: nat)
      reads this
    {
      && Sound(adj, source, T(), paths) && QueueMarked(|adj|, onQueue, queue)
      && Handled(adj, dist, onQueue, v, i)
      && (cycle.Some? ==> Reports(cycle.value))
    }

    /** Between iterations of the main loop: every vertex off the queue has its edges relaxed. */
    ghost predicate Inv()
      reads this
    {
      && Sound(adj, source, T(), paths) && QueueMarked(|adj|, onQueue, queue)
      && OffQueueRelaxed(adj, dist, onQueue)
      && (cycle.Some? ==> Reports(cycle.value))
    }

    /** The result once the loop has stopped on its own: a reported negative cycle, or an
        empty queue and a shortest-path tree. */
    ghost predicate Valid()
      reads this
    {
      Inv() && (cycle.None? ==> queue == [] && ShortestPathTree(adj, source, T(), rank))
    }

    /** Starts from the source alone on the queue and takes vertices off the front until
        the queue is empty or a cycle is known, handling at most `fuel` vertices. */
    constructor (g: EdgeWeightedDigraph, source: nat, fuel: nat)
      requires g.Valid() && WellFormed(g.adj) && source < g.n
      ensures adj == g.adj && this.source == source && Inv()
      ensures queue == [] || cycle.Some? ==> Valid()
    {
      adj := g.adj;
      this.source := source;
      var t := Initial(g.n, source);
      dist := t.dist;
      edgeTo := t.edgeTo;
      onQueue := seq(g.n, u => u == source);
      queue := [source];
      cost := 0;
      cycle := None;
      paths := seq(g.n, _ => []);
      rank := [];
      new;
      SoundInitial(adj, source);
      StartQueue(adj, source);
      var rounds := 0;
      while queue != [] && cycle.None? && rounds < fuel
        invariant Inv()
        decreases fuel - rounds
      {
        Dequeue(adj, dist, onQueue, queue);
        var v := queue[0];
        queue := queue[1..];
        onQueue := onQueue[v := false];
        RelaxVertex(g, v);
        rounds := rounds + 1;
      }
      if cycle.None? && queue == [] {
        EmptyQueue(adj, dist, onQueue);
        rank := SoundFinish(adj, source, T(), paths);
      }
    }

    /** `_relax(digraph, vertex)`: relaxes each edge out of v, putting an improved target
        on the queue unless it is there; every n relaxations, searches for a cycle. */
    method RelaxVertex(g: EdgeWeightedDigraph, v: nat)
      requires g.Valid() && g.adj == adj && Relaxing(v, 0)
      modifies this
      ensures Inv()
    {
      var edges := g.Adjacents(v).value;
      for i := 0 to |edges|
        invariant Relaxing(v, i)
      {
        var e := edges[i];
        assert IsEdge(adj, e);
        SoundRelax(adj, source, T(), paths, e);
        QueueStep(|adj|, dist, e, onQueue, queue);
        HandledStep(adj, T(), onQueue, v, i);
        RelaxEdge(e);
        cost := cost + 1;
        if cost % g.n == 0 {
          FindNegativeCycle(g);
        }
      }
      HandledSettled(adj, dist, onQueue, v);
    }

    /** The body of `_relax`'s loop for one edge, up to the count: a strictly shorter
        edge becomes its target's parent and puts the target on the queue. */
    method RelaxEdge(e: WeightedEdge)
      requires |dist| == |adj| && |edgeTo| == |adj| && |paths| == |adj| && |onQueue| == |adj|
      requires e.v < |adj| && e.w < |adj|
      modifies this
      ensures T() == ShortestPathCommon.Relax(old(T()), e) && paths == RelaxPaths(old(T()), old(paths), e)
      ensures (onQueue, queue) == Enqueue(old(dist), e, old(onQueue), old(queue))
      ensures cost == old(cost) && cycle == old(cycle) && rank == old(rank)
    {
      var w := e.w;
      if Exceeds(dist[w], Plus(dist[e.v], e.weight)) {
        dist := dist[w := Plus(dist[e.v], e.weight)];
        edgeTo := edgeTo[w := Some(e)];
        paths := paths[w := paths[e.v] + [e]];
        if !onQueue[w] {
          queue := queue + [w];
          onQueue := onQueue[w := true];
        }
      }
    }

    /** `_find_negative_cycle`: the parent edges, in vertex order, make a subgraph whose
        cycle, if it has one, is recorded; otherwise no cycle is recorded. */
    method FindNegativeCycle(g: EdgeWeightedDigraph)
      requires g.Valid() && g.adj == adj && Sound(adj, source, T(), paths)
      modifies this
      ensures cycle.Some? ==> Reports(cycle.value)
      ensures dist == old(dist) && edgeTo == old(edgeTo) && paths == old(paths)
      ensures onQueue == old(onQueue) && queue == old(queue) && cost == old(cost)
    {
      var subgraph := ParentSubgraph(g.n, edgeTo, adj, dist);
      var finder := new EdgeWeightedCycleFinder(subgraph.adj);
      var found := finder.GetCycle();
      if found.Some? {
        var c := SubgraphCycle(adj, T(), subgraph.adj, found.value);
        CycleFromSource(adj, source, T(), paths, c);
      }
      cycle := found;
    }

    /** `has_negative_cycle`: a cycle was found, which happens exactly when the source
        reaches a negative cycle. */
    function HasNegativeCycle(): (r: bool)
      requires Valid()
      reads this
      ensures r <==> NegativeCycleFrom(adj, source)
    {
      if cycle.Some? then true
      else
        NoNegativeCycleFrom(adj, source, T(), rank);
        false
    }

    /** `negative_cycle`: the vertices of the cycle found, the last repeating an earlier one. */
    function NegativeCycle(): (r: Option<seq<nat>>)
      requires Valid()
      reads this
      ensures r.Some? <==> NegativeCycleFrom(adj, source)
      ensures r.Some? ==> CycleRecord(Targets(adj), r.value)
    {
      if cycle.None? then NoNegativeCycleFrom(adj, source, T(), rank); cycle else cycle
    }

    /** `dist_to(vertex)`: Inf once a negative cycle is found, otherwise the length of a
        shortest path from the source (Inf when there is none). */
    function DistTo(v: nat): (r: Dist)
      requires Valid() && v < |adj|
      reads this
      ensures cycle.Some? ==> r == Inf
      ensures cycle.None? && r.Fin? ==> exists p :: IsPath(adj, source, v, p) && PathWeight(p) == r.value
      ensures cycle.None? ==> forall p :: IsPath(adj, source, v, p) ==> r.Fin? && r.value <= PathWeight(p)
    {
      if cycle.Some? then Inf
      else
        ShortestPaths(adj, T(), source, rank, v);
        dist[v]
    }

    /** `has_path_to(vertex)`: a finite distance, which always has a walk behind it; with
        no cycle found, exactly when the vertex can be reached. */
    function HasPathTo(v: nat): (r: bool)
      requires Valid() && v < |adj|
      reads this
      ensures r ==> dist[v].Fin? && exists p :: IsPath(adj, source, v, p) && PathWeight(p) == dist[v].value
      ensures cycle.None? ==> (r <==> exists p :: IsPath(adj, source, v, p))
    {
      if cycle.Some? then dist[v].Fin?
      else
        ShortestPaths(adj, T(), source, rank, v);
        dist[v].Fin?
    }

    /** `path_to(vertex)`: None once a negative cycle is found, otherwise the parent edges
        followed back to the source, in path order. */
    method PathTo(v: nat) returns (path: Option<seq<WeightedEdge>>)
      requires Valid() && v < |adj|
      ensures path.None? <==> cycle.Some?
      ensures path.Some? && dist[v].Fin? ==>
        IsPath(adj, source, v, path.value) && PathWeight(path.value) == dist[v].value
      ensures path.Some? && dist[v].Fin? ==>
        forall p :: IsPath(adj, source, v, p) ==> PathWeight(path.value) <= PathWeight(p)
      ensures path.Some? && dist[v].Inf? ==> path.value == []
    {
      if cycle.Some? {
        return None;
      }
      ShortestPaths(adj, T(), source, rank, v);
      var edges := ShortestPathCommon.PathTo(edgeTo, v, rank);
      if dist[v].Inf? {
        assert edgeTo[v].None?;
      }
      return Some(edges);
    }
  }
}
