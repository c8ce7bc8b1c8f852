/** `DirectedBFS` of directed_graph_algorithms: a breadth-first search from one source
    that marks every vertex it reaches, records the edge it was first reached over and its
    number of edges from the source. The queue is a sequence read from a head index. */
module BreadthFirst {
  import opened Common
  import opened DepthFirst

  /** The parent entry of v: none at the source and at unmarked vertices, otherwise a
      marked predecessor one edge closer to the source. */
  ghost predicate Parent(g: seq<seq<nat>>, s: nat, marked: seq<bool>, edgeTo: seq<Option<nat>>,
                         dist: seq<nat>, v: nat)
    requires |marked| == |g| && |edgeTo| == |g| && |dist| == |g| && v < |g|
  {
    if v == s || !marked[v] then edgeTo[v] == None
    else
      && edgeTo[v].Some? && edgeTo[v].value < |g| && marked[edgeTo[v].value]
      && v in g[edgeTo[v].value] && dist[v] == dist[edgeTo[v].value] + 1
  }

  /** The search tree: the source is marked at distance 0 and every vertex has its parent
      entry. */
  ghost predicate Tree(g: seq<seq<nat>>, s: nat, marked: seq<bool>, edgeTo: seq<Option<nat>>,
                       dist: seq<nat>)
  {
    && |marked| == |g| && |edgeTo| == |g| && |dist| == |g| && s < |g|
    && marked[s] && dist[s] == 0
    && forall v :: 0 <= v < |g| ==> Parent(g, s, marked, edgeTo, dist, v)
  }

  /** Every successor of u is marked, at most one edge further from the source. */
  ghost predicate Examined(g: seq<seq<nat>>, marked: seq<bool>, dist: seq<nat>, u: nat)
    requires |marked| == |g| && |dist| == |g|
  {
    u < |g| ==> forall w :: w in g[u] ==> w < |g| && marked[w] && dist[w] <= dist[u] + 1
  }

  /** Every marked vertex has been examined. */
  ghost predicate Closure(g: seq<seq<nat>>, marked: seq<bool>, dist: seq<nat>)
  {
    && |marked| == |g| && |dist| == |g|
    && forall u :: 0 <= u < |g| && marked[u] ==> Examined(g, marked, dist, u)
  }

  /** Marked vertices stay marked at the same distance. */
  ghost predicate Kept(m0: seq<bool>, d0: seq<nat>, m1: seq<bool>, d1: seq<nat>)
  {
    && |m0| == |d0| == |m1| == |d1|
    && forall x :: 0 <= x < |m0| && m0[x] ==> m1[x] && d1[x] == d0[x]
  }

  /** The queue holds each marked vertex once, starting with the source, in an order
      along which distances never fall. */
  ghost predicate Queued(g: seq<seq<nat>>, s: nat, q: seq<nat>, marked: seq<bool>, dist: seq<nat>)
  {
    && |marked| == |g| && |dist| == |g|
    && q != [] && q[0] == s
    && |q| == |TrueSet(marked)| && Distinct(q)
    && (forall k :: 0 <= k < |q| ==> q[k] < |g|)
    && (forall v :: 0 <= v < |g| ==> (marked[v] <==> v in q))
    && (forall i, j :: 0 <= i <= j < |q| ==> dist[q[i]] <= dist[q[j]])
  }

  /** No queued vertex is more than one edge further than c from the source. */
  ghost predicate Capped(q: seq<nat>, dist: seq<nat>, c: nat)
  {
    forall j :: 0 <= j < |q| && q[j] < |dist| ==> dist[q[j]] <= c + 1
  }

  /** Every vertex before the head has been examined. */
  ghost predicate Done(g: seq<seq<nat>>, queue: seq<nat>, head: nat, marked: seq<bool>, dist: seq<nat>)
  {
    && |marked| == |g| && |dist| == |g|
    && forall k :: 0 <= k < head && k < |queue| ==> Examined(g, marked, dist, queue[k])
  }

  /** The state between two iterations of the main loop: the queue holds each marked vertex
      once, in the order marked, with distances that never fall and rise by at most one past
      the head, and every vertex before the head has been examined. */
  ghost predicate Layered(g: seq<seq<nat>>, s: nat, queue: seq<nat>, head: nat,
                          marked: seq<bool>, edgeTo: seq<Option<nat>>, dist: seq<nat>)
  {
    && Tree(g, s, marked, edgeTo, dist)
    && Queued(g, s, queue, marked, dist) && head <= |queue|
    && (head < |queue| ==> Capped(queue, dist, dist[queue[head]]))
    && Done(g, queue, head, marked, dist)
  }

  /** The first i successors of u are marked. */
  ghost predicate Looked(g: seq<seq<nat>>, u: nat, marked: seq<bool>, i: nat)
  {
    u < |g| && i <= |g[u]| && forall t :: 0 <= t < i ==> g[u][t] < |marked| && marked[g[u][t]]
  }

  /** The iteration at `head` started from marks m0 and distances d0, with every queued
      vertex marked. */
  ghost predicate Started(g: seq<seq<nat>>, queue: seq<nat>, head: nat, m0: seq<bool>, d0: seq<nat>)
  {
    && |m0| == |g| && |d0| == |g| && head < |queue|
    && (forall k :: 0 <= k < |queue| ==> queue[k] < |g| && m0[queue[k]])
    && Done(g, queue, head, m0, d0)
  }

  /** The state inside one iteration of the main loop, after looking at the first i
      successors of the vertex at the head: the queue has grown from `queue` to q, and
      m0 and d0 are the marks and distances the iteration started from. */
  ghost predicate Scanning(g: seq<seq<nat>>, s: nat, queue: seq<nat>, head: nat, q: seq<nat>,
                           marked: seq<bool>, edgeTo: seq<Option<nat>>, dist: seq<nat>,
                           m0: seq<bool>, d0: seq<nat>, i: nat)
  {
    && Started(g, queue, head, m0, d0)
    && Tree(g, s, marked, edgeTo, dist) && Kept(m0, d0, marked, dist)
    && Queued(g, s, q, marked, dist) && |queue| <= |q| && q[..|queue|] == queue
    && Capped(q, dist, d0[queue[head]])
    && Looked(g, queue[head], marked, i)
  }

  /** An iteration starts from the state between iterations. */
  lemma ScanStart(g: seq<seq<nat>>, s: nat, queue: seq<nat>, head: nat,
                  marked: seq<bool>, edgeTo: seq<Option<nat>>, dist: seq<nat>)
    requires Layered(g, s, queue, head, marked, edgeTo, dist) && head < |queue|
    ensures Scanning(g, s, queue, head, queue, marked, edgeTo, dist, marked, dist, 0)
  {
    assert queue[head] in queue;
  }

  /** Enqueuing an unmarked vertex at distance c + 1 keeps the queue in order. */
  lemma Enqueue(g: seq<seq<nat>>, s: nat, q: seq<nat>, marked: seq<bool>, dist: seq<nat>, w: nat, c: nat)
    requires Queued(g, s, q, marked, dist) && Capped(q, dist, c) && w < |g| && !marked[w]
    ensures Queued(g, s, q + [w], marked[w := true], dist[w := c + 1])
    ensures Capped(q + [w], dist[w := c + 1], c)
  {
    var q', m', d' := q + [w], marked[w := true], dist[w := c + 1];
    TrueSetMark(marked, w);
    assert q'[|q|] == w;
    assert forall k :: 0 <= k < |q| ==> q'[k] == q[k] && q[k] != w;
    forall i, j | 0 <= i <= j < |q'|
      ensures d'[q'[i]] <= d'[q'[j]]
    {
      if j == |q| && i < |q| {
        assert q[i] < |dist|;
      }
    }
  }

  /** An unmarked successor w is enqueued, marked, and given the head vertex as parent
      and its distance plus one. */
  lemma ScanEnqueue(g: seq<seq<nat>>, s: nat, queue: seq<nat>, head: nat, q: seq<nat>,
                    marked: seq<bool>, edgeTo: seq<Option<nat>>, dist: seq<nat>,
                    m0: seq<bool>, d0: seq<nat>, i: nat, u: nat, w: nat)
    requires Closed(g) && Scanning(g, s, queue, head, q, marked, edgeTo, dist, m0, d0, i)
    requires u == queue[head] && i < |g[u]| && w == g[u][i] && !marked[w]
    ensures Scanning(g, s, queue, head, q + [w], marked[w := true], edgeTo[w := Some(u)],
                     dist[w := dist[u] + 1], m0, d0, i + 1)
  {
    assert w < |g| && u < |g| && m0[u] && dist[u] == d0[u];
    Attach(g, s, marked, edgeTo, dist, u, w);
    Enqueue(g, s, q, marked, dist, w, dist[u]);
    assert (q + [w])[..|queue|] == q[..|queue|];
  }

  /** A marked successor is passed over. */
  lemma ScanSkip(g: seq<seq<nat>>, s: nat, queue: seq<nat>, head: nat, q: seq<nat>,
                 marked: seq<bool>, edgeTo: seq<Option<nat>>, dist: seq<nat>,
                 m0: seq<bool>, d0: seq<nat>, i: nat)
    requires Closed(g) && Scanning(g, s, queue, head, q, marked, edgeTo, dist, m0, d0, i)
    requires i < |g[queue[head]]| && marked[g[queue[head]][i]]
    ensures Scanning(g, s, queue, head, q, marked, edgeTo, dist, m0, d0, i + 1)
  {
  }

  /** Once every successor is looked at, the head vertex is examined and the head moves on. */
  lemma ScanEnd(g: seq<seq<nat>>, s: nat, queue: seq<nat>, head: nat, q: seq<nat>,
                marked: seq<bool>, edgeTo: seq<Option<nat>>, dist: seq<nat>,
                m0: seq<bool>, d0: seq<nat>)
    requires head < |queue| && queue[head] < |g|
    requires Closed(g) && Scanning(g, s, queue, head, q, marked, edgeTo, dist, m0, d0, |g[queue[head]]|)
    requires queue != [] && queue[0] == s
    ensures Layered(g, s, q, head + 1, marked, edgeTo, dist)
  {
    var u := queue[head];
    assert q[head] == u && q[0] == s;
    forall k | 0 <= k < head + 1
      ensures Examined(g, marked, dist, q[k])
    {
      assert q[k] == queue[k];
      if k < head {
        ExaminedKept(g, m0, d0, marked, dist, queue[k]);
      } else {
        forall w | w in g[u]
          ensures w < |g| && marked[w] && dist[w] <= dist[u] + 1
        {
          var t :| 0 <= t < |g[u]| && g[u][t] == w;
          var j :| 0 <= j < |q| && q[j] == w;
        }
      }
    }
  }

  /** d is the fewest edges of a walk from s to v. */
  ghost predicate Shortest(g: seq<seq<nat>>, s: nat, v: nat, d: nat)
  {
    && (exists p :: IsWalk(g, p) && p[0] == s && p[|p| - 1] == v && |p| == d + 1)
    && (forall p :: IsWalk(g, p) && p[0] == s && p[|p| - 1] == v ==> d + 1 <= |p|)
  }

  /** Reaching an unmarked successor w of the marked u over the edge u->w keeps the tree. */
  lemma Attach(g: seq<seq<nat>>, s: nat, marked: seq<bool>, edgeTo: seq<Option<nat>>,
               dist: seq<nat>, u: nat, w: nat)
    requires Tree(g, s, marked, edgeTo, dist) && u < |g| && marked[u] && w < |g| && !marked[w]
    requires w in g[u]
    ensures Tree(g, s, marked[w := true], edgeTo[w := Some(u)], dist[w := dist[u] + 1])
    ensures Kept(marked, dist, marked[w := true], dist[w := dist[u] + 1])
  {
    var m, e, d := marked[w := true], edgeTo[w := Some(u)], dist[w := dist[u] + 1];
    forall v | 0 <= v < |g|
      ensures Parent(g, s, m, e, d, v)
    {
      assert Parent(g, s, marked, edgeTo, dist, v);
    }
  }

  /** Examination survives later marking. */
  lemma ExaminedKept(g: seq<seq<nat>>, m0: seq<bool>, d0: seq<nat>, m1: seq<bool>, d1: seq<nat>, u: nat)
    requires |m0| == |g| && Kept(m0, d0, m1, d1) && Examined(g, m0, d0, u) && u < |g| && m0[u]
    ensures Examined(g, m1, d1, u)
  {
  }

  /** Every walk from the source ends at a marked vertex no further than its length. */
  lemma {:induction false} Bound(g: seq<seq<nat>>, s: nat, marked: seq<bool>, dist: seq<nat>, p: seq<nat>)
    requires Closure(g, marked, dist) && s < |g| && marked[s] && dist[s] == 0
    requires IsWalk(g, p) && p[0] == s
    ensures marked[p[|p| - 1]] && dist[p[|p| - 1]] + 1 <= |p|
    decreases |p|
  {
    if |p| > 1 {
      var q := p[..|p| - 1];
      assert IsWalk(g, q) by {
        forall k | 0 <= k < |q| - 1
          ensures q[k + 1] in Succ(g, q[k])
        {
          assert q[k] == p[k] && q[k + 1] == p[k + 1];
        }
      }
      Bound(g, s, marked, dist, q);
      var u := q[|q| - 1];
      assert u == p[|p| - 2];
      assert Examined(g, marked, dist, u);
      assert p[|p| - 1] in g[u];
    }
  }

  /** Following the parents from a marked vertex is a walk of exactly its distance. */
  lemma {:induction false} TreeWalk(g: seq<seq<nat>>, s: nat, marked: seq<bool>, edgeTo: seq<Option<nat>>,
                                    dist: seq<nat>, v: nat)
    requires Tree(g, s, marked, edgeTo, dist) && v < |g| && marked[v]
    ensures exists p :: IsWalk(g, p) && p[0] == s && p[|p| - 1] == v && |p| == dist[v] + 1
    decreases dist[v]
  {
    assert Parent(g, s, marked, edgeTo, dist, v);
    if v == s {
      assert IsWalk(g, [s]);
    } else {
      var u := edgeTo[v].value;
      TreeWalk(g, s, marked, edgeTo, dist, u);
      var p :| IsWalk(g, p) && p[0] == s && p[|p| - 1] == u && |p| == dist[u] + 1;
      var q := p + [v];
      assert IsWalk(g, q) by {
        forall k | 0 <= k < |q| - 1
          ensures q[k + 1] in Succ(g, q[k])
        {
          if k < |p| - 1 {
            assert q[k] == p[k] && q[k + 1] == p[k + 1];
          }
        }
      }
    }
  }

  /** Once every marked vertex is examined, v is marked exactly when it is reachable,
      and its distance is then the fewest edges from the source. */
  lemma MeaningAt(g: seq<seq<nat>>, s: nat, marked: seq<bool>, edgeTo: seq<Option<nat>>,
                  dist: seq<nat>, v: nat)
    requires Tree(g, s, marked, edgeTo, dist) && Closure(g, marked, dist) && v < |g|
    ensures marked[v] <==> Reaches(g, s, v)
    ensures marked[v] ==> Shortest(g, s, v, dist[v])
  {
    forall p | IsWalk(g, p) && p[0] == s && p[|p| - 1] == v
      ensures marked[v] && dist[v] + 1 <= |p|
    {
      Bound(g, s, marked, dist, p);
    }
    if marked[v] {
      TreeWalk(g, s, marked, edgeTo, dist, v);
    }
  }

  /** The same for every vertex. */
  lemma Meaning(g: seq<seq<nat>>, s: nat, marked: seq<bool>, edgeTo: seq<Option<nat>>, dist: seq<nat>)
    requires Tree(g, s, marked, edgeTo, dist) && Closure(g, marked, dist)
    ensures forall v :: 0 <= v < |g| ==> (marked[v] <==> Reaches(g, s, v))
    ensures forall v :: 0 <= v < |g| && marked[v] ==> Shortest(g, s, v, dist[v])
  {
    forall v | 0 <= v < |g|
      ensures marked[v] <==> Reaches(g, s, v)
      ensures marked[v] ==> Shortest(g, s, v, dist[v])
    {
      MeaningAt(g, s, marked, edgeTo, dist, v);
    }
  }

  /** An edge into the start of a walk extends it at the front. */
  lemma Prepend(g: seq<seq<nat>>, x: nat, w: seq<nat>)
    requires x < |g| && IsWalk(g, w) && w[0] in g[x]
    ensures IsWalk(g, [x] + w)
  {
    var p := [x] + w;
    forall k | 0 <= k < |p| - 1
      ensures p[k + 1] in Succ(g, p[k])
    {
      if k > 0 {
        assert p[k] == w[k - 1] && p[k + 1] == w[k];
      }
    }
  }

  /** A sequence linked backwards by edges, read back to front, is a walk. */
  lemma {:induction false} BackWalk(g: seq<seq<nat>>, path: seq<nat>)
    requires path != [] && forall k :: 0 <= k < |path| ==> path[k] < |g|
    requires forall k :: 0 <= k < |path| - 1 ==> path[k] in g[path[k + 1]]
    ensures IsWalk(g, Reverse(path))
    decreases |path|
  {
    var n := |path|;
    if n == 1 {
      assert Reverse(path) == [path[0]];
    } else {
      var t := path[..n - 1];
      assert t[n - 2] == path[n - 2];
      BackWalk(g, t);
      assert Reverse(path) == [path[n - 1]] + Reverse(t);
      assert path[n - 2] in g[path[n - 1]];
      Prepend(g, path[n - 1], Reverse(t));
    }
  }

  class DirectedBFS {
    const g: seq<seq<nat>>
    const source: nat
    var marked: seq<bool>
    var edgeTo: seq<Option<nat>>
    var distTo: seq<nat>

    ghost predicate Valid()
      reads this
    {
      Closed(g) && Tree(g, source, marked, edgeTo, distTo) && Closure(g, marked, distTo)
    }

    /** Searches from `source`: afterwards the marked vertices are the reachable ones and
        `distTo` holds the fewest edges to each of them. */
    constructor (g: seq<seq<nat>>, source: nat)
      requires Closed(g) && source < |g|
      ensures this.g == g && this.source == source && Valid()
      ensures forall v :: 0 <= v < |g| ==> (marked[v] <==> Reaches(g, source, v))
      ensures forall v :: 0 <= v < |g| && marked[v] ==> Shortest(g, source, v, distTo[v])
    {
      this.g := g;
      this.source := source;
      marked := seq(|g|, _ => false);
      edgeTo := seq(|g|, _ => None);
      distTo := seq(|g|, _ => 0);
      new;
      var queue := [source];
      TrueSetMark(marked, source);
      marked := marked[source := true];
      var head := 0;
      while head < |queue|
        invariant Layered(g, source, queue, head, marked, edgeTo, distTo)
        decreases |g| - head
      {
        TrueSetSize(marked);
        queue := Explore(queue, head);
        head := head + 1;
      }
      forall u | 0 <= u < |g| && marked[u]
        ensures Examined(g, marked, distTo, u)
      {
        var k :| 0 <= k < |queue| && queue[k] == u;
      }
      Meaning(g, source, marked, edgeTo, distTo);
    }

    /** One iteration of the main loop: takes the vertex at the head of the queue and
        marks and enqueues each unmarked successor, one edge further from the source. */
    method Explore(queue: seq<nat>, head: nat) returns (queue': seq<nat>)
      requires Closed(g) && Layered(g, source, queue, head, marked, edgeTo, distTo) && head < |queue|
      modifies this
      ensures Layered(g, source, queue', head + 1, marked, edgeTo, distTo)
    {
      var vertex := queue[head];
      var m, e, d := marked, edgeTo, distTo;
      ScanStart(g, source, queue, head, m, e, d);
      queue' := queue;
      for i := 0 to |g[vertex]|
        invariant Scanning(g, source, queue, head, queue', m, e, d, marked, distTo, i)
      {
        var w := g[vertex][i];
        if !m[w] {
          ScanEnqueue(g, source, queue, head, queue', m, e, d, marked, distTo, i, vertex, w);
          queue' := queue' + [w];
          m, e, d := m[w := true], e[w := Some(vertex)], d[w := d[vertex] + 1];
        } else {
          ScanSkip(g, source, queue, head, queue', m, e, d, marked, distTo, i);
        }
      }
      ScanEnd(g, source, queue, head, queue', m, e, d, marked, distTo);
      marked, edgeTo, distTo := m, e, d;
    }

    /** `has_path_to`: whether v is reachable from the source. */
    function HasPathTo(v: nat): (r: bool)
      requires Valid() && v < |g|
      reads this
      ensures r <==> Reaches(g, source, v)
    {
      MeaningAt(g, source, marked, edgeTo, distTo, v);
      marked[v]
    }

    /** `path_to`: none for an unreachable vertex, otherwise a walk from the source to v
        of the fewest edges, found by following the parents back to the source. */
    method PathTo(v: nat) returns (r: Option<seq<nat>>)
      requires Valid() && v < |g|
      ensures r.None? <==> !Reaches(g, source, v)
      ensures r.Some? ==> IsWalk(g, r.value) && r.value[0] == source && r.value[|r.value| - 1] == v
      ensures r.Some? ==> Shortest(g, source, v, |r.value| - 1)
    {
      if !HasPathTo(v) {
        return None;
      }
      var path: seq<nat> := [];
      var current: Option<nat> := Some(v);
      while current.Some?
        invariant current.Some? ==> current.value < |g| && marked[current.value]
        invariant |path| + (if current.Some? then distTo[current.value] + 1 else 0) == distTo[v] + 1
        invariant path != [] ==> path[0] == v
        invariant current.Some? && path == [] ==> current.value == v
        invariant current.Some? && path != [] ==> path[|path| - 1] in g[current.value]
        invariant current.None? ==> path != [] && path[|path| - 1] == source
        invariant forall k :: 0 <= k < |path| ==> path[k] < |g|
        invariant forall k :: 0 <= k < |path| - 1 ==> path[k] in g[path[k + 1]]
        decreases if current.Some? then distTo[current.value] + 1 else 0
      {
        var c := current.value;
        assert Parent(g, source, marked, edgeTo, distTo, c);
        path := path + [c];
        current := edgeTo[c];
      }
      BackWalk(g, path);
      MeaningAt(g, source, marked, edgeTo, distTo, v);
      r := Some(Reverse(path));
    }
  }
}
