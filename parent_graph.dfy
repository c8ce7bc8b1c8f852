/**
  The graph of parent edges (`edge_to`) that Bellman-Ford builds, where negative weights
  are allowed. A parent edge stays at most as long as its vertex's distance; it is slack
  when its source has improved since it was chosen. Every cycle of parent edges has a
  slack edge, so such a cycle is a negative cycle of the graph, and once no edge is
  relaxable there is none and the parent walks end.

  Every reached distance is witnessed by a walk from the source of exactly that weight.
*/
module ParentGraph {
  import opened Common
  import opened DirectedEdge
  import opened ShortestPathCommon

  /** The entry before position i of c, read cyclically. */
  function Before<T>(c: seq<T>, i: nat): T
    requires i < |c|
  {
    if i == 0 then c[|c| - 1] else c[i - 1]
  }

  /** c lists the vertices of a cycle of parent edges: each has a parent edge from the
      entry before it. */
  ghost predicate ParentCycle(edgeTo: seq<Option<WeightedEdge>>, c: seq<nat>)
  {
    && |c| >= 1
    && (forall i :: 0 <= i < |c| ==> c[i] < |edgeTo|)
    && forall i {:trigger edgeTo[c[i]]} :: 0 <= i < |c| ==> edgeTo[c[i]].Some? && edgeTo[c[i]].value.v == Before(c, i)
  }

  /** v's parent edge would now shorten v. */
  ghost predicate Slack(t: Tree, v: nat)
  {
    v < |t.edgeTo| && t.edgeTo[v].Some? && Relaxable(t.dist, t.edgeTo[v].value)
  }

  ghost predicate CyclesSlack(t: Tree)
  {
    forall c :: ParentCycle(t.edgeTo, c) ==> exists i :: 0 <= i < |c| && Slack(t, c[i])
  }

  /** The parent edges of the vertices of c, in order. */
  ghost function ParentEdges(edgeTo: seq<Option<WeightedEdge>>, c: seq<nat>): (p: seq<WeightedEdge>)
    requires forall i :: 0 <= i < |c| ==> c[i] < |edgeTo| && edgeTo[c[i]].Some?
    ensures |p| == |c| && forall i {:trigger p[i]} :: 0 <= i < |c| ==> p[i] == edgeTo[c[i]].value
  {
    seq(|c|, i requires 0 <= i < |c| => edgeTo[c[i]].value)
  }

  /** A closed walk of negative weight. */
  ghost predicate NegativeCycle(adj: seq<seq<WeightedEdge>>, p: seq<WeightedEdge>)
  {
    p != [] && IsPath(adj, p[0].v, p[0].v, p) && PathWeight(p) < 0
  }

  /** A negative cycle the source can reach. */
  ghost predicate NegativeCycleFrom(adj: seq<seq<WeightedEdge>>, s: nat)
  {
    exists p: seq<WeightedEdge>, q: seq<WeightedEdge> :: NegativeCycle(adj, q) && IsPath(adj, s, q[0].v, p)
  }

  /** The tree before any relaxation has no parent edges at all. */
  lemma InitialSlack(n: nat, s: nat)
    requires s < n
    ensures CyclesSlack(Initial(n, s))
  {
    var t := Initial(n, s);
    forall c
      ensures !ParentCycle(t.edgeTo, c)
    {
      if |c| >= 1 && c[0] < n {
        assert t.edgeTo[c[0]].None?;
      }
    }
  }

  /** A relaxation keeps a slack edge on every parent cycle. */
  lemma RelaxSlack(adj: seq<seq<WeightedEdge>>, t: Tree, e: WeightedEdge)
    requires Supported(adj, t) && CyclesSlack(t) && IsEdge(adj, e) && e.w < |adj|
    ensures CyclesSlack(Relax(t, e))
  {
    if Relaxable(t.dist, e) {
      forall c | ParentCycle(Relax(t, e).edgeTo, c)
        ensures exists i :: 0 <= i < |c| && Slack(Relax(t, e), c[i])
      {
        if e.w in c {
          ThroughSlack(adj, t, e, c);
        } else {
          AvoidSlack(adj, t, e, c);
        }
      }
    }
  }

  /** A parent cycle through the improved vertex x continues with a parent edge leaving x,
      which the improvement made slack, unless it is a negative self-loop at x. */
  lemma ThroughSlack(adj: seq<seq<WeightedEdge>>, t: Tree, e: WeightedEdge, c: seq<nat>)
    requires Supported(adj, t) && IsEdge(adj, e) && e.w < |adj| && Relaxable(t.dist, e)
    requires ParentCycle(Relax(t, e).edgeTo, c) && e.w in c
    ensures exists i :: 0 <= i < |c| && Slack(Relax(t, e), c[i])
  {
    var r := Relax(t, e);
    var x := e.w;
    var z := Plus(t.dist[e.v], e.weight);
    assert r.dist == t.dist[x := z] && r.edgeTo == t.edgeTo[x := Some(e)];
    var j :| 0 <= j < |c| && c[j] == x;
    if e.v == x {
      SelfLoopSlack(t, e);
      assert Slack(r, c[j]);
    } else {
      var k := if j == |c| - 1 then 0 else j + 1;
      assert Before(c, k) == x;
      var y := c[k];
      assert r.edgeTo[c[k]].value.v == Before(c, k);
      assert y != x && r.edgeTo[y] == t.edgeTo[y];
      var p := t.edgeTo[y].value;
      assert r.edgeTo[y] == t.edgeTo[y] && p.v == x && p.w == y;
      DistOrder(Plus(t.dist[x], p.weight), t.dist[y], Inf, 0, 0);
      DistOrder(z, t.dist[x], Inf, p.weight, 0);
      DistOrder(Plus(z, p.weight), Plus(t.dist[x], p.weight), t.dist[y], 0, 0);
      assert Slack(r, c[k]);
    }
  }

  /** A parent cycle avoiding the improved vertex was a parent cycle before, and its slack
      edge is untouched. */
  lemma AvoidSlack(adj: seq<seq<WeightedEdge>>, t: Tree, e: WeightedEdge, c: seq<nat>)
    requires Supported(adj, t) && CyclesSlack(t) && IsEdge(adj, e) && e.w < |adj| && Relaxable(t.dist, e)
    requires ParentCycle(Relax(t, e).edgeTo, c) && e.w !in c
    ensures exists i :: 0 <= i < |c| && Slack(Relax(t, e), c[i])
  {
    var r := Relax(t, e);
    var x := e.w;
    assert r.dist == t.dist[x := Plus(t.dist[e.v], e.weight)] && r.edgeTo == t.edgeTo[x := Some(e)];
    assert ParentCycle(t.edgeTo, c) by {
      forall i | 0 <= i < |c|
        ensures t.edgeTo[c[i]] == r.edgeTo[c[i]]
      {
        assert c[i] != x;
      }
    }
    var i :| 0 <= i < |c| && Slack(t, c[i]);
    var p := t.edgeTo[c[i]].value;
    assert c[i] != x && Before(c, i) in c && p.v == Before(c, i) && p.v != x;
    assert Slack(r, c[i]);
  }

  /** A strictly improving self-loop has negative weight and stays relaxable. */
  lemma SelfLoopSlack(t: Tree, e: WeightedEdge)
    requires e.v == e.w && e.w < |t.dist| && |t.edgeTo| == |t.dist| && Relaxable(t.dist, e)
    ensures Relaxable(Relax(t, e).dist, e) && Relax(t, e).edgeTo[e.w] == Some(e)
  {
  }

  /** With no edge relaxable there is no slack edge, hence no cycle of parent edges. */
  lemma NoParentCycle(adj: seq<seq<WeightedEdge>>, t: Tree, c: seq<nat>)
    requires Supported(adj, t) && CyclesSlack(t) && NoneRelaxable(adj, t.dist)
    ensures !ParentCycle(t.edgeTo, c)
  {
    forall v | 0 <= v < |t.edgeTo| && t.edgeTo[v].Some?
      ensures !Slack(t, v)
    {
      var p := t.edgeTo[v].value;
      assert IsEdge(adj, p);
      var k :| 0 <= k < |adj[p.v]| && adj[p.v][k] == p;
      assert RelaxedAt(adj, t.dist, p.v);
    }
  }

  /** The parent edges around a parent cycle, the first leaving its last vertex, form a
      closed walk whose weight is negative. */
  lemma SlackCycleNegative(adj: seq<seq<WeightedEdge>>, t: Tree, c: seq<nat>, j: nat)
    requires Supported(adj, t) && ParentCycle(t.edgeTo, c) && j < |c| && Slack(t, c[j])
    ensures NegativeCycle(adj, ParentEdges(t.edgeTo, c))
  {
    var p := ParentEdges(t.edgeTo, c);
    CycleBounds(adj, t, c, j);
    NegativeAround(p, Potentials(t.dist, c), j);
    CycleWalk(adj, t, c);
  }

  /** Around the whole cycle the differences cancel, so the strict edge makes the total
      weight negative. */
  lemma NegativeAround(p: seq<WeightedEdge>, d: seq<int>, j: nat)
    requires |p| == |d| && j < |d|
    requires forall i {:trigger p[i]} :: 0 <= i < |d| ==> Before(d, i) + p[i].weight <= d[i]
    requires Before(d, j) + p[j].weight < d[j]
    ensures PathWeight(p) < 0
  {
    Telescope(p, d, j, |d|);
    assert p[..|d|] == p;
  }

  /** Each parent edge of the cycle is bounded by the distances at its ends. */
  lemma CycleBounds(adj: seq<seq<WeightedEdge>>, t: Tree, c: seq<nat>, j: nat)
    requires Supported(adj, t) && ParentCycle(t.edgeTo, c) && j < |c| && Slack(t, c[j])
    ensures var p, d := ParentEdges(t.edgeTo, c), Potentials(t.dist, c);
      && (forall i {:trigger p[i]} :: 0 <= i < |c| ==> Before(d, i) + p[i].weight <= d[i])
      && Before(d, j) + p[j].weight < d[j]
  {
    var p, d := ParentEdges(t.edgeTo, c), Potentials(t.dist, c);
    forall i {:trigger p[i]} | 0 <= i < |c|
      ensures Before(d, i) + p[i].weight <= d[i]
      ensures i == j ==> Before(d, i) + p[i].weight < d[i]
    {
      CycleEdge(adj, t, c, i);
      BeforePotential(t.dist, c, i);
    }
  }

  /** The parent edges of the cycle are graph edges, each starting where the one before
      ends, the first at the last vertex. */
  lemma CycleWalk(adj: seq<seq<WeightedEdge>>, t: Tree, c: seq<nat>)
    requires Supported(adj, t) && ParentCycle(t.edgeTo, c)
    ensures var p := ParentEdges(t.edgeTo, c); IsPath(adj, p[0].v, p[0].v, p)
  {
    var p := ParentEdges(t.edgeTo, c);
    forall i {:trigger p[i]} | 0 <= i < |c|
      ensures p[i].w == c[i] && p[i].v == Before(c, i) && IsEdge(adj, p[i])
    {
      CycleEdge(adj, t, c, i);
    }
    forall i | 0 <= i < |p| - 1
      ensures p[i].w == p[i + 1].v
    {
      assert p[i + 1].v == Before(c, i + 1) == c[i];
    }
  }

  /** The finite distances of the vertices of c, 0 for the others. */
  function Potentials(dist: seq<Dist>, c: seq<nat>): (d: seq<int>)
    ensures |d| == |c|
    ensures forall i :: 0 <= i < |c| && c[i] < |dist| && dist[c[i]].Fin? ==> d[i] == dist[c[i]].value
  {
    seq(|c|, i requires 0 <= i < |c| => if c[i] < |dist| && dist[c[i]].Fin? then dist[c[i]].value else 0)
  }

  lemma BeforePotential(dist: seq<Dist>, c: seq<nat>, i: nat)
    requires i < |c| && Before(c, i) < |dist| && dist[Before(c, i)].Fin?
    ensures Before(Potentials(dist, c), i) == dist[Before(c, i)].value
  {
  }

  /** The parent edge of the i-th vertex of a parent cycle: a graph edge from the vertex
      before it, at most as long as the difference of their distances; strictly shorter
      when it is slack. */
  lemma CycleEdge(adj: seq<seq<WeightedEdge>>, t: Tree, c: seq<nat>, i: nat)
    requires Supported(adj, t) && ParentCycle(t.edgeTo, c) && i < |c|
    ensures c[i] < |t.dist| && Before(c, i) < |t.dist| && t.edgeTo[c[i]].Some?
    ensures var e := t.edgeTo[c[i]].value;
      && e.w == c[i] && e.v == Before(c, i) && IsEdge(adj, e)
      && t.dist[c[i]].Fin? && t.dist[e.v].Fin?
      && t.dist[e.v].value + e.weight <= t.dist[c[i]].value
      && (Slack(t, c[i]) ==> t.dist[e.v].value + e.weight < t.dist[c[i]].value)
  {
    var b := if i == 0 then |c| - 1 else i - 1;
    assert Before(c, i) == c[b];
    assert t.edgeTo[c[b]].Some? && t.edgeTo[c[i]].Some?;
  }

  /** Edge weights bounded by differences of potentials around a cycle: the first m add up
      to at most d[m-1] - d[last], strictly once the strict edge j is among them. */
  lemma {:induction false} Telescope(p: seq<WeightedEdge>, d: seq<int>, j: nat, m: nat)
    requires |p| == |d| && j < |d| && 1 <= m <= |d|
    requires forall i {:trigger p[i]} :: 0 <= i < |d| ==> Before(d, i) + p[i].weight <= d[i]
    requires Before(d, j) + p[j].weight < d[j]
    ensures PathWeight(p[..m]) <= d[m - 1] - d[|d| - 1]
    ensures j < m ==> PathWeight(p[..m]) < d[m - 1] - d[|d| - 1]
    decreases m
  {
    assert p[..m][..m - 1] == p[..m - 1];
    assert Before(d, m - 1) + p[m - 1].weight <= d[m - 1];
    if m == 1 {
      assert p[..0] == [];
    } else {
      Telescope(p, d, j, m - 1);
    }
  }

  /** The vertex and its ancestors along parent edges, at most k steps up. */
  ghost function Depth(edgeTo: seq<Option<WeightedEdge>>, v: nat, k: nat): nat
    requires v < |edgeTo| && Linked(edgeTo)
    decreases k
  {
    if k == 0 || edgeTo[v].None? then 0 else 1 + Depth(edgeTo, edgeTo[v].value.v, k - 1)
  }

  /** Every parent edge starts at a vertex. */
  ghost predicate Linked(edgeTo: seq<Option<WeightedEdge>>)
  {
    forall v {:trigger edgeTo[v]} :: 0 <= v < |edgeTo| && edgeTo[v].Some? ==> edgeTo[v].value.v < |edgeTo|
  }

  /** A vertex without a parent is reached from v within k steps up. */
  ghost predicate RootWithin(edgeTo: seq<Option<WeightedEdge>>, v: nat, k: nat)
    requires v < |edgeTo| && Linked(edgeTo)
    decreases k
  {
    edgeTo[v].None? || (k > 0 && RootWithin(edgeTo, edgeTo[v].value.v, k - 1))
  }

  /** The first k + 1 vertices met going up from v, when no root is met on the way. */
  ghost function Ancestors(edgeTo: seq<Option<WeightedEdge>>, v: nat, k: nat): (a: seq<nat>)
    requires v < |edgeTo| && Linked(edgeTo) && !RootWithin(edgeTo, v, k)
    ensures |a| == k + 1 && a[0] == v
    ensures forall i :: 0 <= i < |a| ==> a[i] < |edgeTo| && edgeTo[a[i]].Some?
    ensures forall i :: 0 <= i < k ==> edgeTo[a[i]].value.v == a[i + 1]
    decreases k
  {
    if k == 0 then [v] else [v] + Ancestors(edgeTo, edgeTo[v].value.v, k - 1)
  }

  /** A sequence of more than n values below n repeats one. */
  lemma Pigeonhole(s: seq<nat>, n: nat) returns (i: nat, j: nat)
    requires |s| > n && forall k :: 0 <= k < |s| ==> s[k] < n
    ensures i < j < |s| && s[i] == s[j]
  {
    if Distinct(s) {
      var elements: set<nat> := set x | x in s;
      DistinctCardinality(s);
      SubsetBound(elements, n);
      assert false;
    }
    i, j :| 0 <= i < j < |s| && s[i] == s[j];
  }

  /** A walk up from v that meets no root within n steps repeats a vertex, and the
      vertices in between, read downwards, form a parent cycle. */
  lemma FindCycle(edgeTo: seq<Option<WeightedEdge>>, v: nat) returns (c: seq<nat>)
    requires v < |edgeTo| && Linked(edgeTo) && !RootWithin(edgeTo, v, |edgeTo|)
    ensures ParentCycle(edgeTo, c)
  {
    var n := |edgeTo|;
    var a := Ancestors(edgeTo, v, n);
    var i, j := Pigeonhole(a, n);
    c := Reverse(a[i..j]);
    forall m | 0 <= m < |c|
      ensures c[m] < |edgeTo| && edgeTo[c[m]].Some? && edgeTo[c[m]].value.v == Before(c, m)
    {
      assert c[m] == a[j - 1 - m];
      if m == 0 {
        assert Before(c, m) == a[i];
      } else {
        assert Before(c, m) == a[j - m];
      }
    }
  }

  /** Without parent cycles, a root is met within n steps up from every vertex. */
  lemma RootsWithin(edgeTo: seq<Option<WeightedEdge>>, v: nat)
    requires v < |edgeTo| && Linked(edgeTo) && forall c :: !ParentCycle(edgeTo, c)
    ensures RootWithin(edgeTo, v, |edgeTo|)
  {
    if !RootWithin(edgeTo, v, |edgeTo|) {
      var c := FindCycle(edgeTo, v);
      assert false;
    }
  }

  /** Going up fewer steps than allowed gives the same depth. */
  lemma {:induction false} DepthStable(edgeTo: seq<Option<WeightedEdge>>, v: nat, k: nat)
    requires v < |edgeTo| && Linked(edgeTo) && RootWithin(edgeTo, v, k)
    ensures Depth(edgeTo, v, k) == Depth(edgeTo, v, k + 1)
    decreases k
  {
    if edgeTo[v].Some? {
      DepthStable(edgeTo, edgeTo[v].value.v, k - 1);
    }
  }

  /** Without parent cycles the depth of each vertex ranks the parent edges. */
  lemma RanksExist(edgeTo: seq<Option<WeightedEdge>>) returns (rank: seq<nat>)
    requires Linked(edgeTo) && forall c :: !ParentCycle(edgeTo, c)
    ensures Ranked(edgeTo, rank)
  {
    var n := |edgeTo|;
    rank := seq(n, v requires 0 <= v < n => Depth(edgeTo, v, n));
    forall v | 0 <= v < n && edgeTo[v].Some?
      ensures edgeTo[v].value.v < n && rank[edgeTo[v].value.v] < rank[v]
    {
      var u := edgeTo[v].value.v;
      RootsWithin(edgeTo, v);
      DepthStable(edgeTo, u, n - 1);
    }
  }

  /** Every reached vertex has a walk from the source whose weight is its distance. */
  ghost predicate Witnessed(adj: seq<seq<WeightedEdge>>, s: nat, t: Tree, paths: seq<seq<WeightedEdge>>)
  {
    && |paths| == |t.dist|
    && forall v :: 0 <= v < |t.dist| && t.dist[v].Fin? ==> IsPath(adj, s, v, paths[v]) && PathWeight(paths[v]) == t.dist[v].value
  }

  lemma InitialWitnessed(adj: seq<seq<WeightedEdge>>, s: nat)
    requires s < |adj|
    ensures Witnessed(adj, s, Initial(|adj|, s), seq(|adj|, _ => []))
  {
  }

  /** The walk witnessing a relaxed target is the walk to the edge's source, then the edge. */
  lemma RelaxWitnessed(adj: seq<seq<WeightedEdge>>, s: nat, t: Tree, paths: seq<seq<WeightedEdge>>, e: WeightedEdge)
    requires Witnessed(adj, s, t, paths) && |t.edgeTo| == |t.dist| && IsEdge(adj, e) && e.w < |t.dist| && e.v < |t.dist|
    ensures Witnessed(adj, s, Relax(t, e), if Relaxable(t.dist, e) then paths[e.w := paths[e.v] + [e]] else paths)
  {
    if Relaxable(t.dist, e) {
      var q := paths[e.v] + [e];
      assert q[..|q| - 1] == paths[e.v];
      assert IsPath(adj, s, e.w, q);
    }
  }

  /** With no edge relaxable a walk from the source back to it weighs at least 0, so a
      source distance that never rose above 0 is exactly 0. */
  lemma SourceZero(adj: seq<seq<WeightedEdge>>, s: nat, t: Tree, paths: seq<seq<WeightedEdge>>)
    requires WellFormed(adj) && |t.dist| == |adj| && s < |adj| && NoneRelaxable(adj, t.dist)
    requires Witnessed(adj, s, t, paths) && AtMost(t.dist[s], Fin(0))
    ensures t.dist[s] == Fin(0)
  {
    NoShorterPath(adj, t.dist, s, s, paths[s]);
  }

  /** What any sequence of relaxations from the initial tree keeps: parent edges that are
      graph edges no longer than their vertex's distance, distances witnessed by walks,
      a slack edge on every parent cycle, and a source that can only have gone below 0,
      gaining a parent edge only then. */
  ghost predicate Sound(adj: seq<seq<WeightedEdge>>, s: nat, t: Tree, paths: seq<seq<WeightedEdge>>)
  {
    && WellFormed(adj) && s < |adj|
    && Supported(adj, t) && Reached(t, s) && Witnessed(adj, s, t, paths) && CyclesSlack(t)
    && AtMost(t.dist[s], Fin(0)) && (t.edgeTo[s].None? || Exceeds(Fin(0), t.dist[s]))
  }

  lemma SoundInitial(adj: seq<seq<WeightedEdge>>, s: nat)
    requires WellFormed(adj) && s < |adj|
    ensures Sound(adj, s, Initial(|adj|, s), seq(|adj|, _ => []))
  {
    InitialTree(adj, s);
    InitialWitnessed(adj, s);
    InitialSlack(|adj|, s);
  }

  /** The walks after relaxing e: the walk to e's source extended by e, for e's target. */
  ghost function RelaxPaths(t: Tree, paths: seq<seq<WeightedEdge>>, e: WeightedEdge): seq<seq<WeightedEdge>>
    requires e.v < |paths| && e.w < |paths|
  {
    if Relaxable(t.dist, e) then paths[e.w := paths[e.v] + [e]] else paths
  }

  lemma SoundRelax(adj: seq<seq<WeightedEdge>>, s: nat, t: Tree, paths: seq<seq<WeightedEdge>>, e: WeightedEdge)
    requires Sound(adj, s, t, paths) && IsEdge(adj, e)
    ensures e.v < |adj| && e.w < |adj|
    ensures Sound(adj, s, Relax(t, e), RelaxPaths(t, paths, e))
  {
    assert e.w < |adj| by {
      var i :| 0 <= i < |adj[e.v]| && adj[e.v][i] == e;
    }
    RelaxStep(adj, t, s, e);
    RelaxWitnessed(adj, s, t, paths, e);
    RelaxSlack(adj, t, e);
    if Relaxable(t.dist, e) && e.w == s {
      var z := Plus(t.dist[e.v], e.weight);
      DistOrder(z, t.dist[s], Fin(0), 0, 0);
    }
  }

  /** Once no edge is relaxable, the tree is a shortest-path tree: the source is back at
      0 without a parent, and the parent edges have no cycle, so depths rank them. */
  lemma SoundFinish(adj: seq<seq<WeightedEdge>>, s: nat, t: Tree, paths: seq<seq<WeightedEdge>>) returns (rank: seq<nat>)
    requires Sound(adj, s, t, paths) && NoneRelaxable(adj, t.dist)
    ensures ShortestPathTree(adj, s, t, rank)
  {
    SourceZero(adj, s, t, paths);
    forall c
      ensures !ParentCycle(t.edgeTo, c)
    {
      NoParentCycle(adj, t, c);
    }
    rank := RanksExist(t.edgeTo);
  }

  /** A parent cycle is a negative cycle the source reaches. */
  lemma CycleFromSource(adj: seq<seq<WeightedEdge>>, s: nat, t: Tree, paths: seq<seq<WeightedEdge>>, c: seq<nat>)
    requires Sound(adj, s, t, paths) && ParentCycle(t.edgeTo, c)
    ensures NegativeCycleFrom(adj, s)
  {
    var j :| 0 <= j < |c| && Slack(t, c[j]);
    SlackCycleNegative(adj, t, c, j);
    var q := ParentEdges(t.edgeTo, c);
    CycleEdge(adj, t, c, 0);
    assert q[0].v == Before(c, 0) && t.dist[q[0].v].Fin?;
    assert IsPath(adj, s, q[0].v, paths[q[0].v]);
  }

  /** In a shortest-path tree no negative cycle is reachable: going round it once more
      would shorten the distance of its first vertex. */
  lemma NoNegativeCycleFrom(adj: seq<seq<WeightedEdge>>, s: nat, t: Tree, rank: seq<nat>)
    requires ShortestPathTree(adj, s, t, rank)
    ensures !NegativeCycleFrom(adj, s)
  {
    forall p: seq<WeightedEdge>, q: seq<WeightedEdge> | NegativeCycle(adj, q) && IsPath(adj, s, q[0].v, p)
      ensures false
    {
      var x := q[0].v;
      assert IsEdge(adj, q[0]);
      ShortestPaths(adj, t, s, rank, x);
      NoShorterPath(adj, t.dist, x, x, q);
    }
  }
}
