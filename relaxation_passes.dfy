/**
  Why n passes of relaxation are enough. After k passes over every edge, no walk from the
  source of at most k edges is shorter than the distance of its end. Without a negative
  cycle the source can reach, every walk can be shortened to one of fewer than n edges,
  no heavier. So after n passes no edge can lower a distance.
*/
module RelaxationPasses {
  import opened Common
  import opened DirectedEdge
  import opened ShortestPathCommon
  import opened ParentGraph

  /** No walk from s of at most k edges is lighter than the distance of its end. */
  ghost predicate WalksBounded(adj: seq<seq<WeightedEdge>>, s: nat, dist: seq<Dist>, k: nat)
  {
    && |dist| == |adj|
    && forall x: nat, p: seq<WeightedEdge> {:trigger IsPath(adj, s, x, p)} ::
         x < |adj| && IsPath(adj, s, x, p) && |p| <= k ==> AtMost(dist[x], Fin(PathWeight(p)))
  }

  /** Every distance is at most the one before the pass. */
  ghost predicate Below(dist: seq<Dist>, d0: seq<Dist>)
  {
    |dist| == |d0| && forall u :: 0 <= u < |dist| ==> AtMost(dist[u], d0[u])
  }

  /** The edge's target is no further than the edge's source was before the pass, plus
      the weight. */
  ghost predicate Covered(d0: seq<Dist>, dist: seq<Dist>, e: WeightedEdge)
  {
    e.v < |d0| && e.w < |dist| && AtMost(dist[e.w], Plus(d0[e.v], e.weight))
  }

  /** Part-way through a pass: distances only went down, and every edge of the vertices
      before v is covered. */
  ghost predicate PassUpTo(adj: seq<seq<WeightedEdge>>, d0: seq<Dist>, dist: seq<Dist>, v: nat)
  {
    && |d0| == |adj| && Below(dist, d0)
    && forall u, j :: 0 <= u < v && u < |adj| && 0 <= j < |adj[u]| ==> Covered(d0, dist, adj[u][j])
  }

  /** The first i edges of v are covered. */
  ghost predicate EdgesCovered(adj: seq<seq<WeightedEdge>>, d0: seq<Dist>, dist: seq<Dist>, v: nat, i: nat)
    requires v < |adj|
  {
    i <= |adj[v]| && forall j :: 0 <= j < i ==> Covered(d0, dist, adj[v][j])
  }

  /** Before any relaxation only the source is at a finite distance, 0, which bounds the one
      walk of no edges. */
  lemma InitialBounded(adj: seq<seq<WeightedEdge>>, s: nat)
    requires s < |adj|
    ensures WalksBounded(adj, s, Initial(|adj|, s).dist, 0)
  {
  }

  /** A pass starts with nothing covered. */
  lemma PassStart(adj: seq<seq<WeightedEdge>>, d0: seq<Dist>)
    requires |d0| == |adj|
    ensures PassUpTo(adj, d0, d0, 0)
  {
    forall u | 0 <= u < |d0|
      ensures AtMost(d0[u], d0[u])
    {
      DistOrder(d0[u], d0[u], d0[u], 0, 0);
    }
  }

  /** Relaxing edge i of v covers it and keeps every edge covered before covered. */
  lemma CoverStep(adj: seq<seq<WeightedEdge>>, d0: seq<Dist>, t: Tree, v: nat, i: nat)
    requires WellFormed(adj) && |t.edgeTo| == |t.dist| && v < |adj| && i < |adj[v]|
    requires PassUpTo(adj, d0, t.dist, v) && EdgesCovered(adj, d0, t.dist, v, i)
    ensures adj[v][i].v < |t.dist| && adj[v][i].w < |t.dist|
    ensures PassUpTo(adj, d0, Relax(t, adj[v][i]).dist, v)
    ensures EdgesCovered(adj, d0, Relax(t, adj[v][i]).dist, v, i + 1)
  {
    var e := adj[v][i];
    var r := Relax(t, e);
    var z := Plus(t.dist[e.v], e.weight);
    if Exceeds(t.dist[e.w], z) {
      assert r.dist == t.dist[e.w := z];
      DistOrder(z, t.dist[e.w], d0[e.w], 0, 0);
      forall f: WeightedEdge | Covered(d0, t.dist, f)
        ensures Covered(d0, r.dist, f)
      {
        DistOrder(r.dist[f.w], t.dist[f.w], Plus(d0[f.v], f.weight), 0, 0);
      }
      forall u | 0 <= u < |r.dist|
        ensures AtMost(r.dist[u], d0[u])
      {
      }
    }
    DistOrder(r.dist[e.w], z, Plus(d0[e.v], e.weight), e.weight, 0);
    DistOrder(t.dist[e.v], d0[e.v], d0[e.v], e.weight, 0);
    DistOrder(r.dist[e.w], r.dist[e.w], z, 0, 0);
  }

  /** Once every edge of v is covered, the pass moves on to the next vertex. */
  lemma CoverNext(adj: seq<seq<WeightedEdge>>, d0: seq<Dist>, dist: seq<Dist>, v: nat)
    requires v < |adj| && PassUpTo(adj, d0, dist, v) && EdgesCovered(adj, d0, dist, v, |adj[v]|)
    ensures PassUpTo(adj, d0, dist, v + 1)
  {
  }

  /** A finished pass bounds the walks of one more edge: the last edge of such a walk was
      relaxed from a distance no larger than the bound on the rest of the walk. */
  lemma PassDone(adj: seq<seq<WeightedEdge>>, s: nat, d0: seq<Dist>, dist: seq<Dist>, k: nat)
    requires WellFormed(adj) && s < |adj| && WalksBounded(adj, s, d0, k)
    requires PassUpTo(adj, d0, dist, |adj|) && AtMost(dist[s], Fin(0))
    ensures WalksBounded(adj, s, dist, k + 1)
  {
    forall x: nat, p: seq<WeightedEdge> | x < |adj| && IsPath(adj, s, x, p) && |p| <= k + 1
      ensures AtMost(dist[x], Fin(PathWeight(p)))
    {
      if p != [] {
        var e := p[|p| - 1];
        var q := p[..|p| - 1];
        assert IsEdge(adj, e);
        var j :| 0 <= j < |adj[e.v]| && adj[e.v][j] == e;
        assert Covered(d0, dist, adj[e.v][j]);
        assert IsPath(adj, s, e.v, q);
        assert AtMost(d0[e.v], Fin(PathWeight(q)));
        DistOrder(d0[e.v], Fin(PathWeight(q)), Fin(PathWeight(q)), e.weight, 0);
        DistOrder(dist[x], Plus(d0[e.v], e.weight), Fin(PathWeight(p)), 0, 0);
      }
    }
  }

  /** The vertex a walk from s has reached after i edges. */
  function At(p: seq<WeightedEdge>, s: nat, i: nat): nat
    requires i <= |p|
  {
    if i == 0 then s else p[i - 1].w
  }

  /** A stretch of a walk is a walk between the vertices it starts and ends at. */
  lemma Stretch(adj: seq<seq<WeightedEdge>>, s: nat, x: nat, p: seq<WeightedEdge>, i: nat, j: nat)
    requires IsPath(adj, s, x, p) && i <= j <= |p|
    ensures IsPath(adj, At(p, s, i), At(p, s, j), p[i..j])
    ensures At(p, s, |p|) == x
  {
    if i < j && i > 0 {
      assert p[i - 1].w == p[i].v;
    }
  }

  lemma {:induction false} WeightJoin(a: seq<WeightedEdge>, b: seq<WeightedEdge>)
    ensures PathWeight(a + b) == PathWeight(a) + PathWeight(b)
    decreases |b|
  {
    if b != [] {
      var c := b[..|b| - 1];
      assert (a + b)[..|a + b| - 1] == a + c;
      assert (a + b)[|a + b| - 1] == b[|b| - 1];
      WeightJoin(a, c);
      assert PathWeight(b) == PathWeight(c) + b[|b| - 1].weight;
    } else {
      assert a + b == a;
    }
  }

  lemma Join(adj: seq<seq<WeightedEdge>>, a: nat, b: nat, c: nat, p: seq<WeightedEdge>, q: seq<WeightedEdge>)
    requires IsPath(adj, a, b, p) && IsPath(adj, b, c, q)
    ensures IsPath(adj, a, c, p + q)
  {
    var r := p + q;
    forall i | 0 <= i < |r| - 1
      ensures r[i].w == r[i + 1].v
    {
      if i + 1 < |p| {
        assert r[i] == p[i] && r[i + 1] == p[i + 1];
      } else if i + 1 == |p| {
        assert r[i] == p[|p| - 1] && r[i + 1] == q[0];
      } else {
        assert r[i] == q[i - |p|] && r[i + 1] == q[i + 1 - |p|];
      }
    }
  }

  /** Without a negative cycle the source reaches, a walk from the source of n edges or
      more has a repeated vertex; cutting out the closed walk between the two visits gives
      a shorter walk to the same end, no heavier. */
  lemma {:induction false} Shorten(adj: seq<seq<WeightedEdge>>, s: nat, x: nat, p: seq<WeightedEdge>)
    returns (q: seq<WeightedEdge>)
    requires WellFormed(adj) && s < |adj| && IsPath(adj, s, x, p) && !NegativeCycleFrom(adj, s)
    ensures IsPath(adj, s, x, q) && |q| < |adj| && PathWeight(q) <= PathWeight(p)
    decreases |p|
  {
    if |p| < |adj| {
      return p;
    }
    var n := |adj|;
    var verts := seq(|p| + 1, i requires 0 <= i <= |p| => At(p, s, i));
    forall k | 0 <= k < |verts|
      ensures verts[k] < n
    {
      if k > 0 {
        assert IsEdge(adj, p[k - 1]);
        var m :| 0 <= m < |adj[p[k - 1].v]| && adj[p[k - 1].v][m] == p[k - 1];
      }
    }
    var i, j := Pigeonhole(verts, n);
    var y := At(p, s, i);
    assert At(p, s, j) == y;
    var head, loop, tail := p[..i], p[i..j], p[j..];
    Stretch(adj, s, x, p, 0, i);
    Stretch(adj, s, x, p, i, j);
    Stretch(adj, s, x, p, j, |p|);
    assert p[0..i] == head && p[|p|..] == [] && p[j..|p|] == tail;
    assert loop != [] && loop[0].v == y;
    assert IsPath(adj, s, loop[0].v, head);
    assert !NegativeCycle(adj, loop);
    Join(adj, s, y, x, head, tail);
    assert p == head + loop + tail;
    WeightJoin(head, loop);
    WeightJoin(head + loop, tail);
    WeightJoin(head, tail);
    q := Shorten(adj, s, x, head + tail);
  }

  /** The n-pass theorem: once walks of up to n edges are bounded, with no negative cycle
      reachable from the source, no edge can lower a distance. An edge that could would
      give a walk, through the witness of its source's distance, lighter than its
      target's distance, and that walk shortens to fewer than n edges. */
  lemma PassesSuffice(adj: seq<seq<WeightedEdge>>, s: nat, t: Tree, paths: seq<seq<WeightedEdge>>)
    requires Sound(adj, s, t, paths) && WalksBounded(adj, s, t.dist, |adj|)
    ensures !NegativeCycleFrom(adj, s) ==> NoneRelaxable(adj, t.dist)
  {
    if !NegativeCycleFrom(adj, s) {
      forall v, i | 0 <= v < |adj| && 0 <= i < |adj[v]|
        ensures !Relaxable(t.dist, adj[v][i])
      {
        EdgeSettled(adj, s, t.dist, paths, adj[v][i]);
      }
    }
  }

  /** One edge of the n-pass theorem. */
  lemma EdgeSettled(adj: seq<seq<WeightedEdge>>, s: nat, dist: seq<Dist>, paths: seq<seq<WeightedEdge>>, e: WeightedEdge)
    requires WellFormed(adj) && s < |adj| && |dist| == |adj| && IsEdge(adj, e)
    requires Witnessed(adj, s, Tree(dist, []), paths) && WalksBounded(adj, s, dist, |adj|)
    requires !NegativeCycleFrom(adj, s)
    ensures !Relaxable(dist, e)
  {
    var j :| 0 <= j < |adj[e.v]| && adj[e.v][j] == e;
    assert e.w < |adj|;
    if dist[e.v].Fin? {
      var p := paths[e.v] + [e];
      assert p[..|p| - 1] == paths[e.v];
      assert IsPath(adj, s, e.v, paths[e.v]);
      assert IsPath(adj, s, e.w, p);
      var q := Shorten(adj, s, e.w, p);
      assert AtMost(dist[e.w], Fin(PathWeight(q)));
      assert Plus(dist[e.v], e.weight) == Fin(PathWeight(p));
      DistOrder(dist[e.w], Fin(PathWeight(q)), Fin(PathWeight(p)), 0, 0);
    }
  }
}
