/**
  Dijkstra's algorithm over the indexed min-heap: the queue holds every reached
  vertex that is not finished, keyed by its distance; each round finishes the
  nearest one and relaxes its edges.

  The invariants are stated over plain values (tree, finished set, queue
  contents) so that the class only has to connect its fields to them.
*/
module Dijkstra {
  import opened Common
  import opened DirectedEdge
  import opened ShortestPathCommon
  import opened PriorityQueue
  import opened EdgeWeightedDigraphs

  ghost predicate NonNegative(adj: seq<seq<WeightedEdge>>)
  {
    forall v, i :: 0 <= v < |adj| && 0 <= i < |adj[v]| ==> adj[v][i].weight >= 0
  }

  /** The input the algorithm is specified for: well-formed, non-negative weights, a source vertex. */
  ghost predicate Input(adj: seq<seq<WeightedEdge>>, s: nat)
  {
    WellFormed(adj) && NonNegative(adj) && s < |adj|
  }

  /** The tree keeps its parent invariants, with the source at 0 and without a parent. */
  ghost predicate TreeOk(adj: seq<seq<WeightedEdge>>, s: nat, t: Tree, rank: seq<nat>)
  {
    && s < |adj| && Supported(adj, t) && Reached(t, s) && Ranked(t.edgeTo, rank)
    && t.dist[s] == Fin(0) && t.edgeTo[s].None?
  }

  /** Finished vertices have finite distances between 0 and `floor` (the key of the last
      vertex removed) and ranks below the number finished; unfinished vertices have rank n;
      every parent edge leaves a finished vertex. */
  ghost predicate DoneOk(adj: seq<seq<WeightedEdge>>, t: Tree, rank: seq<nat>, done: set<nat>, floor: int)
  {
    && |t.dist| == |adj| && |t.edgeTo| == |adj| && |rank| == |adj| && 0 <= floor
    && (forall d :: d in done ==> d < |adj| && t.dist[d].Fin? && 0 <= t.dist[d].value <= floor && rank[d] < |done|)
    && (forall v :: 0 <= v < |adj| && v !in done ==> rank[v] == |adj|)
    && (forall v :: 0 <= v < |adj| && t.edgeTo[v].Some? ==> t.edgeTo[v].value.v in done)
  }

  /** The queue holds unfinished vertices keyed by their distances, all at least `floor`,
      and every reached vertex is finished or queued. */
  ghost predicate QueueOk(adj: seq<seq<WeightedEdge>>, t: Tree, done: set<nat>, floor: int, contents: map<int, int>)
  {
    && |t.dist| == |adj|
    && (forall q :: q in contents ==> 0 <= q < |adj| && q !in done && t.dist[q] == Fin(contents[q]) && floor <= contents[q])
    && (forall v :: 0 <= v < |adj| && t.dist[v].Fin? ==> v in done || v in contents)
  }

  ghost predicate Inv(adj: seq<seq<WeightedEdge>>, s: nat, t: Tree, rank: seq<nat>, done: set<nat>, floor: int, contents: map<int, int>)
  {
    Input(adj, s) && TreeOk(adj, s, t, rank) && DoneOk(adj, t, rank, done, floor) && QueueOk(adj, t, done, floor, contents)
  }

  /** Every finished vertex other than `except` has all its edges relaxed. */
  ghost predicate Finished(adj: seq<seq<WeightedEdge>>, dist: seq<Dist>, done: set<nat>, except: int)
  {
    forall d :: d in done && d != except && d < |adj| ==> RelaxedAt(adj, dist, d)
  }

  /** The state once the source is queued and nothing is finished. */
  lemma Start(adj: seq<seq<WeightedEdge>>, s: nat)
    requires Input(adj, s)
    ensures Inv(adj, s, Initial(|adj|, s), seq(|adj|, _ => |adj|), {}, 0, map[s := 0])
    ensures Finished(adj, Initial(|adj|, s).dist, {}, -1)
  {
    InitialTree(adj, s);
  }

  /** Removing the minimum-key vertex v finishes it: the invariant holds with v finished,
      `floor` raised to v's key and v's rank the number finished before it. */
  lemma Finish(adj: seq<seq<WeightedEdge>>, s: nat, t: Tree, rank: seq<nat>, done: set<nat>, floor: int, contents: map<int, int>, v: nat)
    requires Inv(adj, s, t, rank, done, floor, contents) && Finished(adj, t.dist, done, -1)
    requires v in contents && forall j :: j in contents ==> contents[v] <= contents[j]
    ensures v < |adj| && v !in done && t.dist[v] == Fin(contents[v])
    ensures Inv(adj, s, t, rank[v := |done|], done + {v}, contents[v], contents - {v})
    ensures Finished(adj, t.dist, done + {v}, v) && EdgesRelaxed(adj, t.dist, v, 0)
  {
    FinishTree(adj, s, t, rank, done, floor, v);
    FinishDone(adj, t, rank, done, floor, v, contents[v]);
    FinishQueue(adj, t, done, floor, contents, v);
  }

  lemma FinishTree(adj: seq<seq<WeightedEdge>>, s: nat, t: Tree, rank: seq<nat>, done: set<nat>, floor: int, v: nat)
    requires TreeOk(adj, s, t, rank) && DoneOk(adj, t, rank, done, floor) && v < |adj| && v !in done
    ensures TreeOk(adj, s, t, rank[v := |done|])
  {
    var rank' := rank[v := |done|];
    forall u | 0 <= u < |adj| && t.edgeTo[u].Some?
      ensures t.edgeTo[u].value.v < |rank'| && rank'[t.edgeTo[u].value.v] < rank'[u]
    {
      var p := t.edgeTo[u].value.v;
      assert p in done;
      if u !in done && u != v {
        SubsetBound(done, |adj|);
      }
    }
  }

  lemma FinishDone(adj: seq<seq<WeightedEdge>>, t: Tree, rank: seq<nat>, done: set<nat>, floor: int, v: nat, key: int)
    requires DoneOk(adj, t, rank, done, floor) && v < |adj| && v !in done && t.dist[v] == Fin(key) && floor <= key
    ensures DoneOk(adj, t, rank[v := |done|], done + {v}, key)
  {
    assert |done + {v}| == |done| + 1;
  }

  lemma FinishQueue(adj: seq<seq<WeightedEdge>>, t: Tree, done: set<nat>, floor: int, contents: map<int, int>, v: nat)
    requires QueueOk(adj, t, done, floor, contents)
    requires v in contents && forall j :: j in contents ==> contents[v] <= contents[j]
    ensures QueueOk(adj, t, done + {v}, contents[v], contents - {v})
  {
    var c := contents - {v};
    forall q | q in c
      ensures 0 <= q < |adj| && q !in done + {v} && t.dist[q] == Fin(c[q]) && contents[v] <= c[q]
    {
      assert c[q] == contents[q];
    }
    forall u | 0 <= u < |adj| && t.dist[u].Fin?
      ensures u in done + {v} || u in c
    {
      if u != v && u !in done {
        assert u in contents;
      }
    }
  }
  /** The edge being relaxed leaves v and ends in the graph; when it is relaxable its target is
      unfinished and is not the source. */
  lemma RelaxTarget(adj: seq<seq<WeightedEdge>>, s: nat, t: Tree, rank: seq<nat>, done: set<nat>, floor: int, contents: map<int, int>, v: nat, i: nat)
    requires Inv(adj, s, t, rank, done, floor, contents)
    requires v in done && t.dist[v] == Fin(floor) && i < |adj[v]|
    ensures adj[v][i].v == v && adj[v][i].w < |adj| && IsEdge(adj, adj[v][i]) && adj[v][i].weight >= 0
    ensures Relaxable(t.dist, adj[v][i]) ==> adj[v][i].w !in done && adj[v][i].w != s
  {
    assert IsEdge(adj, adj[v][i]);
  }

  lemma RelaxTree(adj: seq<seq<WeightedEdge>>, s: nat, t: Tree, rank: seq<nat>, done: set<nat>, floor: int, e: WeightedEdge)
    requires TreeOk(adj, s, t, rank) && DoneOk(adj, t, rank, done, floor)
    requires e.v in done && IsEdge(adj, e) && e.w < |adj| && Relaxable(t.dist, e) && e.w !in done && e.w != s
    ensures TreeOk(adj, s, ShortestPathCommon.Relax(t, e), rank)
  {
    RelaxStep(adj, t, s, e);
    SubsetBound(done, |adj|);
  }

  lemma RelaxDone(adj: seq<seq<WeightedEdge>>, t: Tree, rank: seq<nat>, done: set<nat>, floor: int, e: WeightedEdge)
    requires DoneOk(adj, t, rank, done, floor)
    requires e.v in done && e.w < |adj| && e.v < |adj| && Relaxable(t.dist, e) && e.w !in done
    ensures DoneOk(adj, ShortestPathCommon.Relax(t, e), rank, done, floor)
  {
  }

  lemma RelaxQueue(adj: seq<seq<WeightedEdge>>, t: Tree, done: set<nat>, floor: int, contents: map<int, int>, e: WeightedEdge)
    requires QueueOk(adj, t, done, floor, contents) && |t.edgeTo| == |adj|
    requires e.v < |adj| && e.w < |adj| && t.dist[e.v] == Fin(floor) && e.weight >= 0
    requires Relaxable(t.dist, e) && e.w !in done
    ensures var z := floor + e.weight;
      && ShortestPathCommon.Relax(t, e).dist[e.w] == Fin(z)
      && QueueOk(adj, ShortestPathCommon.Relax(t, e), done, floor, contents[e.w := z])
      && (e.w in contents ==> z < contents[e.w])
      && (e.w !in contents ==> |contents| < |adj|)
  {
    var z := floor + e.weight;
    assert ShortestPathCommon.Relax(t, e).dist == t.dist[e.w := Fin(z)];
    QueueKeys(adj, t.dist, done, floor, contents, e.w, z);
    QueueCovers(adj, t.dist, done, contents, e.w, z);
    if e.w !in contents {
      SubsetBound(contents.Keys + {e.w}, |adj|);
    }
  }

  lemma QueueKeys(adj: seq<seq<WeightedEdge>>, dist: seq<Dist>, done: set<nat>, floor: int, contents: map<int, int>, w: nat, z: int)
    requires |dist| == |adj| && w < |adj| && w !in done && floor <= z
    requires forall q :: q in contents ==> 0 <= q < |adj| && q !in done && dist[q] == Fin(contents[q]) && floor <= contents[q]
    ensures forall q :: q in contents[w := z] ==>
      0 <= q < |adj| && q !in done && dist[w := Fin(z)][q] == Fin(contents[w := z][q]) && floor <= contents[w := z][q]
  {
  }

  lemma QueueCovers(adj: seq<seq<WeightedEdge>>, dist: seq<Dist>, done: set<nat>, contents: map<int, int>, w: nat, z: int)
    requires |dist| == |adj| && w < |adj|
    requires forall v :: 0 <= v < |adj| && dist[v].Fin? ==> v in done || v in contents
    ensures forall v :: 0 <= v < |adj| && dist[w := Fin(z)][v].Fin? ==> v in done || v in contents[w := z]
  {
  }

  lemma RelaxFinished(adj: seq<seq<WeightedEdge>>, t: Tree, done: set<nat>, v: nat, i: nat)
    requires WellFormed(adj) && |t.dist| == |adj| && |t.edgeTo| == |adj| && v < |adj| && i < |adj[v]|
    requires Finished(adj, t.dist, done, v) && EdgesRelaxed(adj, t.dist, v, i)
    requires var e := adj[v][i]; Relaxable(t.dist, e) ==> e.w !in done && e.w != v
    requires adj[v][i].weight >= 0
    ensures var r := ShortestPathCommon.Relax(t, adj[v][i]);
      Finished(adj, r.dist, done, v) && EdgesRelaxed(adj, r.dist, v, i + 1)
  {
    var e := adj[v][i];
    var r := ShortestPathCommon.Relax(t, e);
    if Relaxable(t.dist, e) {
      var z := r.dist[e.w];
      assert r.dist == t.dist[e.w := z];
      DistOrder(z, t.dist[e.w], t.dist[e.w], 0, 0);
      forall d | d in done && d != v && d < |adj|
        ensures RelaxedAt(adj, r.dist, d)
      {
        LowerKeepsRelaxed(adj, t.dist, e.w, z, d);
      }
      forall j | 0 <= j < i
        ensures !Relaxable(r.dist, adj[v][j])
      {
        LowerKeepsEdge(t.dist, e.w, z, adj[v][j]);
      }
    }
  }

  /** Relaxing edge i of the vertex v being finished keeps the invariant; the queue contents
      change exactly as `_relax` updates them, a decrease is strict, and an insertion has a
      free slot in the heap. */
  lemma RelaxKeeps(adj: seq<seq<WeightedEdge>>, s: nat, t: Tree, rank: seq<nat>, done: set<nat>, floor: int, contents: map<int, int>, v: nat, i: nat)
    requires Inv(adj, s, t, rank, done, floor, contents)
    requires v in done && t.dist[v] == Fin(floor) && i < |adj[v]|
    requires Finished(adj, t.dist, done, v) && EdgesRelaxed(adj, t.dist, v, i)
    ensures var e := adj[v][i]; var r := ShortestPathCommon.Relax(t, e);
      && e.v == v && e.w < |adj|
      && (r != t <==> Relaxable(t.dist, e))
      && (r != t ==> r.dist[e.w] == Plus(t.dist[v], e.weight) && r.dist[e.w].Fin?)
      && (r != t && e.w in contents ==> r.dist[e.w].value < contents[e.w])
      && (r != t && e.w !in contents ==> |contents| < |adj|)
      && var contents' := if r != t then contents[e.w := r.dist[e.w].value] else contents;
         Inv(adj, s, r, rank, done, floor, contents')
         && Finished(adj, r.dist, done, v) && EdgesRelaxed(adj, r.dist, v, i + 1)
  {
    var e := adj[v][i];
    RelaxTarget(adj, s, t, rank, done, floor, contents, v, i);
    RelaxStep(adj, t, s, e);
    RelaxFinished(adj, t, done, v, i);
    if Relaxable(t.dist, e) {
      RelaxTree(adj, s, t, rank, done, floor, e);
      RelaxDone(adj, t, rank, done, floor, e);
      RelaxQueue(adj, t, done, floor, contents, e);
    }
  }

  /** With the queue empty and every finished vertex relaxed, no edge is relaxable. */
  lemma Done(adj: seq<seq<WeightedEdge>>, s: nat, t: Tree, rank: seq<nat>, done: set<nat>, floor: int)
    requires Inv(adj, s, t, rank, done, floor, map[]) && Finished(adj, t.dist, done, -1)
    ensures NoneRelaxable(adj, t.dist)
  {
    forall v | 0 <= v < |adj|
      ensures RelaxedAt(adj, t.dist, v)
    {
      if t.dist[v].Inf? {
        forall j | 0 <= j < |adj[v]| ensures !Relaxable(t.dist, adj[v][j]) { }
      }
    }
  }

  /** The ghost bookkeeping of a run: the finished vertices, the rank of each (its finishing
      position, n while unfinished) and the key of the vertex finished last. */
  datatype Progress = Progress(done: set<nat>, rank: seq<nat>, floor: int)

  class DijkstraSP {
    const adj: seq<seq<WeightedEdge>>
    const source: nat
    var dist: seq<Dist>
    var edgeTo: seq<Option<WeightedEdge>>
    const pq: IndexMinPQ
    ghost var progress: Progress

    ghost function T(): Tree
      reads this
    {
      Tree(dist, edgeTo)
    }

    /** The result: a shortest-path tree rooted at the source. */
    ghost predicate Valid()
      reads this
    {
      ShortestPathTree(adj, source, T(), progress.rank)
    }

    ghost predicate Running()
      reads this, pq, pq.keys, pq.pq, pq.qp
    {
      pq.Valid() && pq.maxN == |adj| && Inv(adj, source, T(), progress.rank, progress.done, progress.floor, pq.Contents())
    }

    /** Runs the algorithm from `source` over the graph's adjacency lists; the weights must
        be non-negative and every edge must end at a vertex of the graph. */
    constructor (g: EdgeWeightedDigraph, source: nat)
      requires g.Valid() && WellFormed(g.adj) && NonNegative(g.adj) && source < g.n
      ensures Valid() && adj == g.adj && this.source == source
    {
      adj := g.adj;
      this.source := source;
      var n := g.n;
      var t := Initial(n, source);
      dist := t.dist;
      edgeTo := t.edgeTo;
      pq := new IndexMinPQ(n);
      progress := Progress({}, seq(n, _ => n), 0);
      new;
      Start(adj, source);
      pq.Insert(source, 0);
      while pq.NonEmpty()
        invariant Running() && Finished(adj, dist, progress.done, -1)
        invariant fresh(pq) && fresh(pq.keys) && fresh(pq.pq) && fresh(pq.qp)
        decreases |adj| - |progress.done|
      {
        SubsetBound(progress.done, |adj|);
        Round();
        SubsetBound(progress.done, |adj|);
      }
      Done(adj, source, T(), progress.rank, progress.done, progress.floor);
    }

    /** `dist_to(vertex)`: the length of a shortest path from the source, Inf when the
        vertex cannot be reached. */
    function DistTo(v: nat): (r: Dist)
      requires Valid() && v < |adj|
      reads this
      ensures r.Fin? ==> exists p :: IsPath(adj, source, v, p) && PathWeight(p) == r.value
      ensures forall p :: IsPath(adj, source, v, p) ==> r.Fin? && r.value <= PathWeight(p)
    {
      ShortestPaths(adj, T(), source, progress.rank, v);
      dist[v]
    }

    /** `path_to(vertex)`: the parent edges followed back to the source, in path order. */
    method PathTo(v: nat) returns (path: seq<WeightedEdge>)
      requires Valid() && v < |adj|
      ensures dist[v].Fin? ==> IsPath(adj, source, v, path) && PathWeight(path) == dist[v].value
      ensures dist[v].Fin? ==> forall p :: IsPath(adj, source, v, p) ==> PathWeight(path) <= PathWeight(p)
      ensures dist[v].Inf? ==> path == []
    {
      ShortestPaths(adj, T(), source, progress.rank, v);
      path := ShortestPathCommon.PathTo(edgeTo, v, progress.rank);
      if dist[v].Inf? {
        assert edgeTo[v].None?;
      }
    }

    /** One pass of the main loop: remove the nearest queued vertex and relax its edges. */
    method Round()
      requires Running() && Finished(adj, dist, progress.done, -1) && pq.Contents() != map[]
      modifies this, pq, pq.keys, pq.pq, pq.qp
      ensures Running() && Finished(adj, dist, progress.done, -1)
      ensures |progress.done| == old(|progress.done|) + 1
    {
      var v := TakeNearest();
      RelaxEdgesOf(v);
    }

    /** `del_min`: the nearest queued vertex leaves the queue and is finished. */
    method TakeNearest() returns (v: nat)
      requires Running() && Finished(adj, dist, progress.done, -1) && pq.Contents() != map[]
      modifies this, pq, pq.pq, pq.qp
      ensures Running() && v < |adj| && v in progress.done && dist[v] == Fin(progress.floor)
      ensures Finished(adj, dist, progress.done, v) && EdgesRelaxed(adj, dist, v, 0)
      ensures progress.done == old(progress.done) + {v} && v !in old(progress.done)
    {
      ghost var before := pq.Contents();
      ghost var g := progress;
      var r := pq.DelMin();
      v := r.value;
      ghost var t := T();
      Finish(adj, source, t, g.rank, g.done, g.floor, before, v);
      progress := Progress(g.done + {v}, g.rank[v := |g.done|], before[v]);
      Holds(t, progress, before - {v});
    }

    /** The object's invariant, read off the same invariant of its values. */
    lemma Holds(t: Tree, p: Progress, c: map<int, int>)
      requires pq.Valid() && pq.maxN == |adj| && T() == t && progress == p && pq.Contents() == c
      requires Inv(adj, source, t, p.rank, p.done, p.floor, c)
      ensures Running()
    {
    }

    /** The inner loop: relax every edge of the vertex just finished. */
    method RelaxEdgesOf(v: nat)
      requires Running() && v < |adj| && v in progress.done && dist[v] == Fin(progress.floor)
      requires Finished(adj, dist, progress.done, v) && EdgesRelaxed(adj, dist, v, 0)
      modifies this, pq, pq.keys, pq.pq, pq.qp
      ensures Running() && Finished(adj, dist, progress.done, -1)
      ensures progress == old(progress)
    {
      var edges := adj[v];
      for i := 0 to |edges|
        invariant Running() && dist[v] == Fin(progress.floor)
        invariant Finished(adj, dist, progress.done, v) && EdgesRelaxed(adj, dist, v, i)
        invariant progress == old(progress)
      {
        Relax(edges[i], v, i);
      }
    }

    /** `_relax(edge)` for edge i of the vertex v being finished: a strictly shorter edge
        becomes the target's parent and the target is queued with its new distance, by
        `decrease_key` when it is queued already and by `insert` otherwise. */
    method Relax(e: WeightedEdge, ghost v: nat, ghost i: nat)
      requires Running() && v in progress.done && dist[v] == Fin(progress.floor) && v < |adj| && i < |adj[v]| && e == adj[v][i]
      requires Finished(adj, dist, progress.done, v) && EdgesRelaxed(adj, dist, v, i)
      modifies this, pq, pq.keys, pq.pq, pq.qp
      ensures Running() && Finished(adj, dist, progress.done, v) && EdgesRelaxed(adj, dist, v, i + 1)
      ensures T() == ShortestPathCommon.Relax(old(T()), e)
      ensures progress == old(progress)
    {
      ghost var t := T();
      ghost var c := pq.Contents();
      RelaxKeeps(adj, source, t, progress.rank, progress.done, progress.floor, c, v, i);
      Update(e);
    }

    /** The state change of `_relax`: on a strict improvement the target's distance and
        parent edge are replaced and the queue takes the new distance as the target's key. */
    method Update(e: WeightedEdge)
      requires pq.Valid() && pq.maxN == |adj| && |dist| == |adj| && |edgeTo| == |adj| && e.v < |adj| && e.w < |adj|
      requires Exceeds(dist[e.w], Plus(dist[e.v], e.weight)) ==> Plus(dist[e.v], e.weight).Fin?
      requires Exceeds(dist[e.w], Plus(dist[e.v], e.weight)) && e.w in pq.Contents() ==>
        Plus(dist[e.v], e.weight).value < pq.Contents()[e.w]
      requires Exceeds(dist[e.w], Plus(dist[e.v], e.weight)) && e.w !in pq.Contents() ==> |pq.Contents()| < |adj|
      modifies this, pq, pq.keys, pq.pq, pq.qp
      ensures pq.Valid() && progress == old(progress)
      ensures T() == ShortestPathCommon.Relax(old(T()), e)
      ensures pq.Contents() ==
        if T() != old(T()) then old(pq.Contents())[e.w := dist[e.w].value] else old(pq.Contents())
    {
      QueueSize(pq.pq[..], pq.qp[..], pq.keys[..], pq.n);
      var w := e.w;
      if Exceeds(dist[w], Plus(dist[e.v], e.weight)) {
        dist := dist[w := Plus(dist[e.v], e.weight)];
        edgeTo := edgeTo[w := Some(e)];
        var key := dist[w].value;
        if pq.Contains(w) {
          var r := pq.DecreaseKey(w, key);
          assert r == Pass;
        } else {
          pq.Insert(w, key);
        }
      }
    }
  }
}
