/**
  What the four shortest-path algorithms share: distances that may be infinite,
  the relaxation of one edge, the walk up the parent edges that `path_to`
  performs, and the theorem that makes the result a shortest-path tree.
*/
module ShortestPathCommon {
  import opened Common
  import opened DirectedEdge

  /** A tentative distance: `float('inf')` or a finite integer. */
  datatype Dist = Inf | Fin(value: int)

  /** `edge.weight + dist`, where infinity absorbs any finite weight. */
  function Plus(d: Dist, w: int): Dist
  {
    if d.Inf? then Inf else Fin(d.value + w)
  }

  /** Python's `a > b` on distances, infinity included (`inf > inf` is false). */
  predicate Exceeds(a: Dist, b: Dist)
  {
    match (a, b)
    case (Inf, Fin(_)) => true
    case (Fin(x), Fin(y)) => x > y
    case _ => false
  }

  /** `a <= b` on distances. */
  predicate AtMost(a: Dist, b: Dist)
  {
    !Exceeds(a, b)
  }

  /** Distances are totally preordered, infinity is the top, and adding a weight is monotone. */
  lemma DistOrder(a: Dist, b: Dist, c: Dist, x: int, y: int)
    ensures AtMost(a, a) && AtMost(a, Inf)
    ensures AtMost(a, b) || AtMost(b, a)
    ensures AtMost(a, b) && AtMost(b, c) ==> AtMost(a, c)
    ensures AtMost(a, b) && AtMost(b, a) ==> a == b
    ensures AtMost(a, b) ==> AtMost(Plus(a, x), Plus(b, x))
    ensures Plus(Plus(a, x), y) == Plus(a, x + y)
    ensures Exceeds(a, b) <==> !AtMost(a, b)
  {
  }

  /** Every listed edge starts at its list's vertex and ends at a vertex of the graph. */
  ghost predicate WellFormed(adj: seq<seq<WeightedEdge>>)
  {
    forall v, i :: 0 <= v < |adj| && 0 <= i < |adj[v]| ==> adj[v][i].v == v && adj[v][i].w < |adj|
  }

  ghost predicate IsEdge(adj: seq<seq<WeightedEdge>>, e: WeightedEdge)
  {
    e.v < |adj| && e in adj[e.v]
  }

  /** p is a walk along graph edges from s to t (the empty walk when s == t). */
  ghost predicate IsPath(adj: seq<seq<WeightedEdge>>, s: nat, t: nat, p: seq<WeightedEdge>)
  {
    && (forall i :: 0 <= i < |p| ==> IsEdge(adj, p[i]))
    && (forall i :: 0 <= i < |p| - 1 ==> p[i].w == p[i + 1].v)
    && (if p == [] then s == t else p[0].v == s && p[|p| - 1].w == t)
  }

  function PathWeight(p: seq<WeightedEdge>): int
  {
    if p == [] then 0 else PathWeight(p[..|p| - 1]) + p[|p| - 1].weight
  }

  /** The edge would still shorten the distance of its target. */
  ghost predicate Relaxable(dist: seq<Dist>, e: WeightedEdge)
  {
    e.v < |dist| && e.w < |dist| && Exceeds(dist[e.w], Plus(dist[e.v], e.weight))
  }

  /** No edge `v` lists can shorten a distance. */
  ghost predicate RelaxedAt(adj: seq<seq<WeightedEdge>>, dist: seq<Dist>, v: nat)
    requires v < |adj|
  {
    forall i :: 0 <= i < |adj[v]| ==> !Relaxable(dist, adj[v][i])
  }

  /** The first i edges of v are relaxed. */
  ghost predicate EdgesRelaxed(adj: seq<seq<WeightedEdge>>, dist: seq<Dist>, v: nat, i: nat)
    requires v < |adj|
  {
    i <= |adj[v]| && forall j :: 0 <= j < i ==> !Relaxable(dist, adj[v][j])
  }

  ghost predicate NoneRelaxable(adj: seq<seq<WeightedEdge>>, dist: seq<Dist>)
  {
    forall v :: 0 <= v < |adj| ==> RelaxedAt(adj, dist, v)
  }

  /** Once no edge is relaxable, no walk from s to t is shorter than dist[t] - dist[s]. */
  lemma {:induction false} NoShorterPath(adj: seq<seq<WeightedEdge>>, dist: seq<Dist>, s: nat, t: nat, p: seq<WeightedEdge>)
    requires |dist| == |adj| && WellFormed(adj) && NoneRelaxable(adj, dist)
    requires s < |adj| && t < |adj| && IsPath(adj, s, t, p)
    ensures AtMost(dist[t], Plus(dist[s], PathWeight(p)))
    decreases |p|
  {
    if p != [] {
      var e := p[|p| - 1];
      var q := p[..|p| - 1];
      assert IsEdge(adj, e);
      var i :| 0 <= i < |adj[e.v]| && adj[e.v][i] == e;
      assert RelaxedAt(adj, dist, e.v);
      assert !Relaxable(dist, adj[e.v][i]);
      assert IsPath(adj, s, e.v, q);
      NoShorterPath(adj, dist, s, e.v, q);
      DistOrder(dist[e.w], Plus(dist[e.v], e.weight), Plus(Plus(dist[s], PathWeight(q)), e.weight), e.weight, 0);
      DistOrder(dist[e.v], Plus(dist[s], PathWeight(q)), dist[s], e.weight, 0);
      DistOrder(dist[s], dist[s], dist[s], PathWeight(q), e.weight);
    }
  }

  /** Lowering the distance of w keeps relaxed every relaxed edge that does not leave w. */
  lemma LowerKeepsEdge(dist: seq<Dist>, w: nat, z: Dist, e: WeightedEdge)
    requires w < |dist| && e.v < |dist| && e.w < |dist| && e.v != w && AtMost(z, dist[w]) && !Relaxable(dist, e)
    ensures !Relaxable(dist[w := z], e)
  {
    if e.w == w {
      DistOrder(z, dist[w], Plus(dist[e.v], e.weight), 0, 0);
    }
  }

  /** Lowering the distance of w keeps a vertex other than w relaxed. */
  lemma LowerKeepsRelaxed(adj: seq<seq<WeightedEdge>>, dist: seq<Dist>, w: nat, z: Dist, d: nat)
    requires WellFormed(adj) && |dist| == |adj| && w < |dist| && d < |adj| && d != w
    requires AtMost(z, dist[w]) && RelaxedAt(adj, dist, d)
    ensures RelaxedAt(adj, dist[w := z], d)
  {
    forall j | 0 <= j < |adj[d]|
      ensures !Relaxable(dist[w := z], adj[d][j])
    {
      LowerKeepsEdge(dist, w, z, adj[d][j]);
    }
  }

  /** The distances and parent edges every algorithm maintains (`_dist_to`, `_edge_to`). */
  datatype Tree = Tree(dist: seq<Dist>, edgeTo: seq<Option<WeightedEdge>>)

  /** The tree over n vertices before any edge is relaxed: only the source is at distance 0. */
  function Initial(n: nat, s: nat): (t: Tree)
    requires s < n
  {
    Tree(seq(n, v => if v == s then Fin(0) else Inf), seq(n, _ => None))
  }

  /** `_relax(edge)`: take the edge as the target's parent when it is strictly shorter. */
  function Relax(t: Tree, e: WeightedEdge): Tree
    requires e.v < |t.dist| && e.w < |t.dist| && |t.edgeTo| == |t.dist|
  {
    if Exceeds(t.dist[e.w], Plus(t.dist[e.v], e.weight)) then
      Tree(t.dist[e.w := Plus(t.dist[e.v], e.weight)], t.edgeTo[e.w := Some(e)])
    else t
  }

  /** Every parent edge is a graph edge into its vertex and is at most as long as that
      vertex's distance (it was tight when chosen; its source may have improved since). */
  ghost predicate Supported(adj: seq<seq<WeightedEdge>>, t: Tree)
  {
    && |t.dist| == |adj| && |t.edgeTo| == |adj|
    && forall v {:trigger t.edgeTo[v]} :: 0 <= v < |adj| && t.edgeTo[v].Some? ==>
         var e := t.edgeTo[v].value;
         e.w == v && IsEdge(adj, e) && t.dist[v].Fin? && AtMost(Plus(t.dist[e.v], e.weight), t.dist[v])
  }

  /** `edge_to[w].to_edge()` is w whenever `edge_to[w]` is set, and the edge starts at a
      vertex of the graph whose list holds it. */
  lemma ParentTo(adj: seq<seq<WeightedEdge>>, t: Tree, w: nat)
    requires Supported(adj, t) && w < |adj| && t.edgeTo[w].Some?
    ensures To(t.edgeTo[w].value) == w
    ensures From(t.edgeTo[w].value) < |adj| && t.edgeTo[w].value in adj[From(t.edgeTo[w].value)]
  {
  }

  /** Every vertex at a finite distance is the source or has a parent edge. */
  ghost predicate Reached(t: Tree, s: nat)
  {
    forall v {:trigger t.edgeTo[v]} :: 0 <= v < |t.dist| && t.dist[v].Fin? ==> v == s || (v < |t.edgeTo| && t.edgeTo[v].Some?)
  }

  /** The source may only have been given a finite distance. */
  lemma InitialTree(adj: seq<seq<WeightedEdge>>, s: nat)
    requires s < |adj|
    ensures Supported(adj, Initial(|adj|, s)) && Reached(Initial(|adj|, s), s)
    ensures forall v :: 0 <= v < |adj| ==> Initial(|adj|, s).dist[v] == (if v == s then Fin(0) else Inf)
    ensures forall v :: 0 <= v < |adj| ==> Initial(|adj|, s).edgeTo[v] == None
  {
  }

  /** One relaxation only ever lowers the target's distance, makes the edge its parent when it
      does, touches nothing else, keeps the parent invariants, and leaves the edge relaxed
      unless it is a negative self-loop. */
  lemma RelaxStep(adj: seq<seq<WeightedEdge>>, t: Tree, s: nat, e: WeightedEdge)
    requires Supported(adj, t) && Reached(t, s) && IsEdge(adj, e) && e.w < |adj|
    ensures var r := Relax(t, e);
      && Supported(adj, r) && Reached(r, s)
      && |r.dist| == |t.dist| && |r.edgeTo| == |t.edgeTo|
      && (forall v :: 0 <= v < |adj| ==> AtMost(r.dist[v], t.dist[v]))
      && (forall v :: 0 <= v < |adj| && v != e.w ==> r.dist[v] == t.dist[v] && r.edgeTo[v] == t.edgeTo[v])
      && (r != t <==> Relaxable(t.dist, e))
      && (r != t ==> r.dist[e.w] == Plus(t.dist[e.v], e.weight) && r.edgeTo[e.w] == Some(e))
      && (e.v != e.w || e.weight >= 0 ==> !Relaxable(r.dist, e))
  {
    var r := Relax(t, e);
    if Relaxable(t.dist, e) {
      assert r.dist[e.w] != t.dist[e.w];
      forall v | 0 <= v < |adj| && r.edgeTo[v].Some?
        ensures var p := r.edgeTo[v].value;
          p.w == v && IsEdge(adj, p) && r.dist[v].Fin? && AtMost(Plus(r.dist[p.v], p.weight), r.dist[v])
      {
        var p := r.edgeTo[v].value;
        if v != e.w {
          DistOrder(r.dist[p.v], t.dist[p.v], t.dist[v], p.weight, 0);
        }
      }
    }
  }

  /** Parent edges point to vertices of strictly smaller rank, so every parent walk ends. */
  ghost predicate Ranked(edgeTo: seq<Option<WeightedEdge>>, rank: seq<nat>)
  {
    && |rank| == |edgeTo|
    && forall v {:trigger edgeTo[v]} :: 0 <= v < |edgeTo| && edgeTo[v].Some? ==>
         edgeTo[v].value.v < |edgeTo| && rank[edgeTo[v].value.v] < rank[v]
  }

  /** The parent edges leading to v, first edge first. */
  ghost function Chain(edgeTo: seq<Option<WeightedEdge>>, rank: seq<nat>, v: nat): seq<WeightedEdge>
    requires Ranked(edgeTo, rank) && v < |edgeTo|
    decreases rank[v]
  {
    match edgeTo[v]
    case None => []
    case Some(e) => Chain(edgeTo, rank, e.v) + [e]
  }

  /** The vertex without a parent where the parent walk from v stops. */
  ghost function ChainStart(edgeTo: seq<Option<WeightedEdge>>, rank: seq<nat>, v: nat): (r: nat)
    requires Ranked(edgeTo, rank) && v < |edgeTo|
    ensures r < |edgeTo| && edgeTo[r].None?
    decreases rank[v]
  {
    match edgeTo[v]
    case None => v
    case Some(e) => ChainStart(edgeTo, rank, e.v)
  }

  /** `path_to(v)`: collect the parent edges from v upwards, then reverse them. */
  method PathTo(edgeTo: seq<Option<WeightedEdge>>, v: nat, ghost rank: seq<nat>) returns (path: seq<WeightedEdge>)
    requires Ranked(edgeTo, rank) && v < |edgeTo|
    ensures path == Chain(edgeTo, rank, v)
  {
    var collected: seq<WeightedEdge> := [];
    var current := edgeTo[v];
    ghost var at: nat := v;
    while current.Some?
      invariant at < |edgeTo| && current == edgeTo[at]
      invariant Chain(edgeTo, rank, v) == Chain(edgeTo, rank, at) + Reverse(collected)
      decreases rank[at]
    {
      var e := current.value;
      assert edgeTo[at] == Some(e);
      assert e.v < |edgeTo| && rank[e.v] < rank[at];
      assert Reverse(collected + [e]) == [e] + Reverse(collected) by {
        assert (collected + [e])[..|collected|] == collected;
      }
      collected := collected + [e];
      at := e.v;
      current := edgeTo[e.v];
    }
    path := Reverse(collected);
  }

  /** A parent walk is a walk of graph edges from its start to v. */
  lemma {:induction false} ChainIsPath(adj: seq<seq<WeightedEdge>>, t: Tree, rank: seq<nat>, v: nat)
    requires Supported(adj, t) && Ranked(t.edgeTo, rank) && v < |adj|
    ensures IsPath(adj, ChainStart(t.edgeTo, rank, v), v, Chain(t.edgeTo, rank, v))
    decreases rank[v]
  {
    if t.edgeTo[v].Some? {
      var e := t.edgeTo[v].value;
      ChainIsPath(adj, t, rank, e.v);
      var q := Chain(t.edgeTo, rank, e.v);
      assert (q + [e])[..|q|] == q;
    }
  }

  /** When no edge is relaxable every parent edge is tight, so the distance of v is the
      distance of its chain's start plus the chain's weight. */
  lemma {:induction false} ChainWeight(adj: seq<seq<WeightedEdge>>, t: Tree, rank: seq<nat>, v: nat)
    requires WellFormed(adj) && Supported(adj, t) && Ranked(t.edgeTo, rank) && NoneRelaxable(adj, t.dist) && v < |adj|
    ensures t.dist[v] == Plus(t.dist[ChainStart(t.edgeTo, rank, v)], PathWeight(Chain(t.edgeTo, rank, v)))
    decreases rank[v]
  {
    if t.edgeTo[v].Some? {
      var e := t.edgeTo[v].value;
      ChainWeight(adj, t, rank, e.v);
      var q := Chain(t.edgeTo, rank, e.v);
      assert (q + [e])[..|q|] == q;
      var i :| 0 <= i < |adj[e.v]| && adj[e.v][i] == e;
      assert RelaxedAt(adj, t.dist, e.v);
      assert !Relaxable(t.dist, adj[e.v][i]);
      DistOrder(t.dist[v], Plus(t.dist[e.v], e.weight), Inf, 0, 0);
      DistOrder(t.dist[ChainStart(t.edgeTo, rank, v)], Inf, Inf, PathWeight(q), e.weight);
    }
  }

  /** What every algorithm builds: parent edges that end (by rank), no relaxable edge, and
      the source at distance 0 without a parent. */
  ghost predicate ShortestPathTree(adj: seq<seq<WeightedEdge>>, s: nat, t: Tree, rank: seq<nat>)
  {
    && WellFormed(adj) && s < |adj|
    && Supported(adj, t) && Reached(t, s) && Ranked(t.edgeTo, rank)
    && NoneRelaxable(adj, t.dist) && t.dist[s] == Fin(0) && t.edgeTo[s].None?
  }

  /** The shortest-path theorem: once no edge is relaxable and the source is at distance 0,
      the parent chain of a reached vertex is a walk from the source whose weight is its
      distance, no walk from the source is shorter, and an unreached vertex has no walk. */
  lemma ShortestPaths(adj: seq<seq<WeightedEdge>>, t: Tree, s: nat, rank: seq<nat>, v: nat)
    requires ShortestPathTree(adj, s, t, rank) && v < |adj|
    ensures t.dist[v].Fin? ==>
      IsPath(adj, s, v, Chain(t.edgeTo, rank, v)) && t.dist[v] == Fin(PathWeight(Chain(t.edgeTo, rank, v)))
    ensures forall p :: IsPath(adj, s, v, p) ==> t.dist[v].Fin? && t.dist[v].value <= PathWeight(p)
  {
    if t.dist[v].Fin? {
      ChainIsPath(adj, t, rank, v);
      ChainWeight(adj, t, rank, v);
      ChainStartIsSource(adj, t, s, rank, v);
    }
    forall p | IsPath(adj, s, v, p)
      ensures t.dist[v].Fin? && t.dist[v].value <= PathWeight(p)
    {
      NoShorterPath(adj, t.dist, s, v, p);
    }
  }

  /** The parent walk from a reached vertex ends at the source. */
  lemma {:induction false} ChainStartIsSource(adj: seq<seq<WeightedEdge>>, t: Tree, s: nat, rank: seq<nat>, v: nat)
    requires Supported(adj, t) && Reached(t, s) && Ranked(t.edgeTo, rank) && v < |adj| && t.dist[v].Fin?
    ensures ChainStart(t.edgeTo, rank, v) == s
    decreases rank[v]
  {
    if t.edgeTo[v].Some? {
      var e := t.edgeTo[v].value;
      DistOrder(t.dist[e.v], Inf, t.dist[v], e.weight, 0);
      ChainStartIsSource(adj, t, s, rank, e.v);
    }
  }
}
