/**
  Ford-Fulkerson with breadth-first search for augmenting paths. While the search marks
  the target, the bottleneck of the path found is pushed from the source to the target
  and added to the value. The search records each marked vertex's parent edge as an
  object, `edgeTo`; the ghost `via` names the same edge by its position in the network's
  `edges` and `rank` is the vertex's place in the queue, which is what the path lemmas
  are stated in.
*/
module FordFulkersons {
  import opened Common
  import opened FlowEdges
  import opened FlowValues
  import opened FlowNetworks
  import opened AugmentingPaths

  /** The parent edge objects are the edges the positions in `via` name. */
  ghost predicate Linked(edges: seq<FlowEdge>, edgeTo: seq<Option<FlowEdge>>, via: seq<nat>, marked: seq<bool>, s: nat)
  {
    forall u :: 0 <= u < |marked| && marked[u] && u != s ==>
      u < |edgeTo| && u < |via| && via[u] < |edges| && edgeTo[u] == Some(edges[via[u]])
  }

  /** Recording the k-th edge as the parent edge of a newly marked vertex keeps the
      parent edge objects in step with `via`. */
  lemma LinkedExtend(edges: seq<FlowEdge>, edgeTo: seq<Option<FlowEdge>>, via: seq<nat>, marked: seq<bool>, s: nat, w: nat, k: nat)
    requires Linked(edges, edgeTo, via, marked, s) && w < |edgeTo| && w < |via| && w < |marked| && k < |edges|
    ensures Linked(edges, edgeTo[w := Some(edges[k])], via[w := k], marked[w := true], s)
  {
  }

  /** Exploring v has dealt with e: if e has residual capacity toward its far end, that
      end is marked. */
  ghost predicate Handled(e: FlowEdge, v: nat, marked: seq<bool>)
    reads e
  {
    var w := OtherEnd(e.AsArc(), v);
    w.Ok? && w.value < |marked| && Positive(e.AsArc(), e.flow, w.value) ==> marked[w.value]
  }

  /** Once every edge listed at v has been dealt with, v is done. */
  lemma HandledAll(G: FlowNetwork, v: nat, marked: seq<bool>)
    requires G.Valid() && v < G.n
    requires forall e :: e in G.adj[v] ==> Handled(e, v, marked)
    ensures Done(Arcs(G.edges), Flows(G.edges), marked, v)
  {
    var E := G.edges;
    forall i | 0 <= i < |E| && EndOf(E[i].AsArc(), v)
      ensures Handled(E[i], v, marked)
    {
      assert E[i] in G.adj[v];
    }
  }

  /** The vertices below k that m marks, in increasing order. */
  function MarkedBelow(m: seq<bool>, k: nat): (r: seq<nat>)
    requires k <= |m|
    ensures forall v: nat :: v in r <==> v < k && m[v]
    ensures forall i, j :: 0 <= i < j < |r| ==> r[i] < r[j]
  {
    if k == 0 then []
    else
      var r := MarkedBelow(m, k - 1);
      MembersBelow(r, k - 1);
      r + (if m[k - 1] then [k - 1] else [])
  }

  /** Every entry of a sequence whose members lie below k lies below k. */
  lemma MembersBelow(r: seq<nat>, k: nat)
    requires forall v: nat :: v in r ==> v < k
    ensures forall i :: 0 <= i < |r| ==> r[i] < k
  {
    forall i | 0 <= i < |r|
      ensures r[i] < k
    {
      assert r[i] in r;
    }
  }

  /** The first i edges of es have been dealt with. */
  ghost predicate HandledUpTo(es: seq<FlowEdge>, i: nat, v: nat, marked: seq<bool>)
    requires i <= |es|
    reads set j | 0 <= j < i :: es[j]
  {
    forall j :: 0 <= j < i ==> Handled(es[j], v, marked)
  }

  /** Dealing with one more edge, while more vertices get marked, extends the prefix of
      edges dealt with. */
  lemma HandledExtend(es: seq<FlowEdge>, i: nat, v: nat, marked: seq<bool>, marked': seq<bool>)
    requires i < |es| && |marked'| == |marked| && forall u :: 0 <= u < |marked| && marked[u] ==> marked'[u]
    requires HandledUpTo(es, i, v, marked) && Handled(es[i], v, marked')
    ensures HandledUpTo(es, i + 1, v, marked')
  {
    forall j | 0 <= j < i + 1
      ensures Handled(es[j], v, marked')
    {
      if j < i {
        assert Handled(es[j], v, marked);
      }
    }
  }

  /** Once every edge listed at v has been dealt with, v is done. */
  lemma HandledAllUpTo(G: FlowNetwork, v: nat, marked: seq<bool>)
    requires G.Valid() && v < G.n && HandledUpTo(G.adj[v], |G.adj[v]|, v, marked)
    ensures Done(Arcs(G.edges), Flows(G.edges), marked, v)
  {
    assert forall e :: e in G.adj[v] ==> Handled(e, v, marked);
    HandledAll(G, v, marked);
  }

  /** One edge e listed at v = queue[d]: if it has residual capacity toward its far end
      and that end is unmarked, the end is marked, its parent edge recorded and the end
      queued. */
  method Consider(G: FlowNetwork, s: nat, queue: seq<nat>, d: nat, e: FlowEdge, edgeTo: seq<Option<FlowEdge>>, marked: seq<bool>,
                  ghost via: seq<nat>, ghost rank: seq<nat>)
    returns (queue': seq<nat>, edgeTo': seq<Option<FlowEdge>>, marked': seq<bool>, ghost via': seq<nat>, ghost rank': seq<nat>)
    requires G.Valid() && |edgeTo| == G.n && |marked| == G.n && d < |queue|
    requires Frontier(Arcs(G.edges), Flows(G.edges), s, queue, d, marked, via, rank)
    requires queue[d] < G.n && e in G.adj[queue[d]]
    requires Linked(G.edges, edgeTo, via, marked, s)
    ensures |edgeTo'| == G.n && |marked'| == G.n && |queue| <= |queue'| && queue'[d] == queue[d]
    ensures Frontier(Arcs(G.edges), Flows(G.edges), s, queue', d, marked', via', rank')
    ensures Linked(G.edges, edgeTo', via', marked', s)
    ensures Handled(e, queue[d], marked')
    ensures forall u :: 0 <= u < |marked| && marked[u] ==> marked'[u]
  {
    ghost var E := G.edges;
    ghost var arcs, f := Arcs(E), Flows(E);
    var v := queue[d];
    assert v < G.n;
    ListedEdge(G.n, G.adj, E, v, e);
    ghost var k := IndexOf(E, e);
    assert arcs[k] == e.AsArc() && f[k] == e.flow;
    var w := e.Other(v).value;
    queue', edgeTo', marked', via', rank' := queue, edgeTo, marked, via, rank;
    if e.ResidualCapacityTo(w).value > 0 && !marked[w] {
      MarkStep(arcs, f, s, queue, d, marked, via, rank, w, k);
      LinkedExtend(E, edgeTo, via, marked, s, w, k);
      edgeTo' := edgeTo[w := Some(e)];
      marked' := marked[w := true];
      via' := via[w := k];
      rank' := rank[w := |queue|];
      queue' := queue + [w];
    }
  }

  /** The loop over the edges listed at v = queue[d], the d-th vertex taken from the queue. */
  method Explore(G: FlowNetwork, s: nat, queue: seq<nat>, d: nat, edgeTo: seq<Option<FlowEdge>>, marked: seq<bool>,
                 ghost via: seq<nat>, ghost rank: seq<nat>)
    returns (queue': seq<nat>, edgeTo': seq<Option<FlowEdge>>, marked': seq<bool>, ghost via': seq<nat>, ghost rank': seq<nat>)
    requires G.Valid() && |edgeTo| == G.n && |marked| == G.n && d < |queue|
    requires Frontier(Arcs(G.edges), Flows(G.edges), s, queue, d, marked, via, rank)
    requires Linked(G.edges, edgeTo, via, marked, s)
    ensures |edgeTo'| == G.n && |marked'| == G.n
    ensures Frontier(Arcs(G.edges), Flows(G.edges), s, queue', d + 1, marked', via', rank')
    ensures Linked(G.edges, edgeTo', via', marked', s)
  {
    var v := queue[d];
    var adj := G.Adjacents(v).value;
    queue', edgeTo', marked', via', rank' := queue, edgeTo, marked, via, rank;
    var i := 0;
    while i < |adj|
      invariant i <= |adj| && |edgeTo'| == G.n && |marked'| == G.n && d < |queue'| && queue'[d] == v
      invariant Frontier(Arcs(G.edges), Flows(G.edges), s, queue', d, marked', via', rank')
      invariant Linked(G.edges, edgeTo', via', marked', s)
      invariant HandledUpTo(adj, i, v, marked')
    {
      ghost var before := marked';
      queue', edgeTo', marked', via', rank' := Consider(G, s, queue', d, adj[i], edgeTo', marked', via', rank');
      HandledExtend(adj, i, v, before, marked');
      i := i + 1;
    }
    HandledAllUpTo(G, v, marked');
  }

  /** `_has_augmenting_path` without the final lookup: every vertex starts unmarked, the
      source is marked and queued, and the queued vertices are explored in order. At the
      end the marked vertices form a tree of edges with residual capacity, and no edge
      with residual capacity leaves them. */
  method Search(G: FlowNetwork, s: nat)
    returns (edgeTo: seq<Option<FlowEdge>>, marked: seq<bool>, ghost via: seq<nat>, ghost rank: seq<nat>)
    requires G.Valid() && s < G.n
    ensures |edgeTo| == G.n && |marked| == G.n
    ensures Tree(Arcs(G.edges), s, marked, via, rank) && Open(Arcs(G.edges), Flows(G.edges), s, marked, via, rank)
    ensures Closed(Arcs(G.edges), Flows(G.edges), marked)
    ensures Linked(G.edges, edgeTo, via, marked, s)
  {
    ghost var E := G.edges;
    ghost var arcs, f := Arcs(E), Flows(E);
    var n := G.n;
    edgeTo := seq(n, _ => None);
    marked := seq(n, _ => false)[s := true];
    via, rank := seq(n, _ => 0), seq(n, _ => 0);
    var queue := [s];
    var head := 0;
    FrontierStart(arcs, f, s, n);
    while head < |queue|
      invariant |edgeTo| == n && |marked| == n
      invariant Frontier(arcs, f, s, queue, head, marked, via, rank)
      invariant Linked(E, edgeTo, via, marked, s)
      decreases n - head
    {
      FrontierBound(arcs, f, s, queue, head, marked, via, rank);
      queue, edgeTo, marked, via, rank := Explore(G, s, queue, head, edgeTo, marked, via, rank);
      head := head + 1;
    }
    FrontierClosed(arcs, f, s, queue, marked, via, rank);
  }

  /** `add_residual_flow_to(x, d)` on the k-th edge of a list without repeats: the flow of
      that edge moves and no other changes. */
  method PushAlong(e: FlowEdge, x: nat, d: int, ghost edges: seq<FlowEdge>, ghost k: nat)
    requires Distinct(edges) && k < |edges| && edges[k] == e && EndOf(e.AsArc(), x)
    modifies e
    ensures Flows(edges) == old(Flows(edges))[k := Shift(e.AsArc(), old(e.flow), x, d).value]
  {
    var _ := e.AddResidualFlowTo(x, d);
    assert forall j :: 0 <= j < |edges| && j != k ==> edges[j] != e;
  }

  class FordFulkerson {
    var edgeTo: seq<Option<FlowEdge>>
    var marked: seq<bool>
    var value: int
    ghost var via: seq<nat>
    ghost var rank: seq<nat>
    ghost const edges: seq<FlowEdge>

    /** Runs the algorithm from s to t. Afterwards the value is what the flows carry into
        t and out of s on top of what they did before, every other vertex is as balanced
        as it was, every edge within its bounds before is still within them, and no edge
        with residual capacity leaves the marked vertices, which hold s and not t. Started
        from a balanced flow within bounds, the value is the capacity of the cut between
        the marked vertices and the rest, and no flow within bounds carries more. */
    constructor (G: FlowNetwork, s: nat, t: nat)
      requires G.Valid() && s < G.n && t < G.n && s != t
      modifies G.edges
      ensures edges == G.edges && |marked| == G.n && marked[s] && !marked[t]
      ensures Progress(Arcs(edges), old(Flows(G.edges)), Flows(edges), s, t, value)
      ensures Closed(Arcs(edges), Flows(edges), marked)
      ensures Idle(Arcs(edges), old(Flows(G.edges))) ==>
        value == Sum(CutCapacity(marked), Arcs(edges), Flows(edges))
        && forall g :: Feasible(Arcs(edges), g, s, t) ==> Net(Arcs(edges), g, t) <= value
    {
      ghost var arcs, f0 := Arcs(G.edges), Flows(G.edges);
      edges := G.edges;
      edgeTo := seq(G.n, _ => None);
      marked := seq(G.n, _ => false);
      value := 0;
      via, rank := [], [];
      new;
      assert Flows(edges) == f0;
      ListingWithin(G.n, G.adj, G.edges);
      SlackNonNegative(s, arcs, f0);
      var found := true;
      while found
        invariant Progress(arcs, f0, Flows(edges), s, t, value)
        invariant Sum(Slack(s), arcs, Flows(edges)) >= 0
        invariant !found ==> |marked| == G.n && marked[s] && !marked[t] && Closed(arcs, Flows(edges), marked)
        decreases found, Sum(Slack(s), arcs, Flows(edges))
      {
        found := Round(G, s, t, f0);
        SlackNonNegative(s, arcs, Flows(edges));
      }
      ghost var f := Flows(edges);
      if Idle(arcs, f0) {
        MaxFlowMinCut(arcs, f0, f, s, t, marked, value);
      }
    }

    /** One turn of the main loop: search, and when the search reaches t, push the
        bottleneck along the path and add it to the value. */
    method Round(G: FlowNetwork, s: nat, t: nat, ghost f0: seq<int>) returns (found: bool)
      requires G.Valid() && G.edges == edges && s < G.n && t < G.n && s != t && |f0| == |edges|
      requires Progress(Arcs(edges), f0, Flows(edges), s, t, value)
      modifies this, edges
      ensures Progress(Arcs(edges), f0, Flows(edges), s, t, value)
      ensures found ==> 0 <= Sum(Slack(s), Arcs(edges), Flows(edges)) < old(Sum(Slack(s), Arcs(edges), Flows(edges)))
      ensures !found ==> |marked| == G.n && marked[s] && !marked[t] && Closed(Arcs(edges), Flows(edges), marked)
    {
      found := HasAugmentingPath(G, s, t);
      if found {
        Improve(s, t, f0);
      }
    }

    /** The rest of a turn once the search has reached t: the bottleneck of the path is
        pushed along it and added to the value. */
    method Improve(s: nat, t: nat, ghost f0: seq<int>)
      requires Distinct(edges) && s != t && |f0| == |edges|
      requires Tree(Arcs(edges), s, marked, via, rank) && Linked(edges, edgeTo, via, marked, s)
      requires t < |marked| && marked[t] && Open(Arcs(edges), Flows(edges), s, marked, via, rank)
      requires Progress(Arcs(edges), f0, Flows(edges), s, t, value)
      modifies this, edges
      ensures Progress(Arcs(edges), f0, Flows(edges), s, t, value)
      ensures 0 <= Sum(Slack(s), Arcs(edges), Flows(edges)) < old(Sum(Slack(s), Arcs(edges), Flows(edges)))
    {
      ghost var arcs, f := Arcs(edges), Flows(edges);
      var bottle := Bottleneck(s, t);
      AugmentProgress(arcs, f0, f, s, t, marked, via, rank, value, bottle);
      ghost var g := Aug(arcs, f, s, marked, via, rank, t, bottle.amount);
      Augment(s, t, bottle.amount);
      assert Flows(edges) == g;
      value := value + bottle.amount;
      assert Flows(edges) == g;
    }

    /** `_has_augmenting_path`: a fresh search from s, reporting whether it reached t. */
    method HasAugmentingPath(G: FlowNetwork, s: nat, t: nat) returns (found: bool)
      requires G.Valid() && G.edges == edges && s < G.n && t < G.n
      modifies this
      ensures value == old(value) && |marked| == G.n && |edgeTo| == G.n
      ensures Tree(Arcs(edges), s, marked, via, rank) && Open(Arcs(edges), Flows(edges), s, marked, via, rank)
      ensures Closed(Arcs(edges), Flows(edges), marked) && Linked(edges, edgeTo, via, marked, s)
      ensures found == marked[t] && Flows(edges) == old(Flows(edges))
    {
      edgeTo, marked, via, rank := Search(G, s);
      found := marked[t];
    }

    /** The bottleneck loop of the constructor: from t back to s, the minimum residual
        capacity of the parent edges toward the vertices they reached. */
    method Bottleneck(s: nat, t: nat) returns (bottle: Bottle)
      requires Tree(Arcs(edges), s, marked, via, rank) && Linked(edges, edgeTo, via, marked, s)
      requires t < |marked| && marked[t]
      ensures bottle == BottleFrom(Arcs(edges), Flows(edges), s, marked, via, rank, Infinite, t)
    {
      ghost var arcs, f := Arcs(edges), Flows(edges);
      ghost var m, vi, ra := marked, via, rank;
      bottle := Infinite;
      var current: nat := t;
      while current != s
        invariant current < |m| && m[current]
        invariant BottleFrom(arcs, f, s, m, vi, ra, bottle, current) == BottleFrom(arcs, f, s, m, vi, ra, Infinite, t)
        decreases ra[current]
      {
        BottleStep(arcs, f, s, m, vi, ra, bottle, current);
        var e := edgeTo[current].value;
        assert e == edges[vi[current]] && arcs[vi[current]] == e.AsArc() && f[vi[current]] == e.flow;
        bottle := Meet(bottle, e.ResidualCapacityTo(current).value);
        current := e.Other(current).value;
      }
    }

    /** The augmentation loop of the constructor: from t back to s, push d toward each
        vertex along its parent edge. */
    method Augment(s: nat, t: nat, d: int)
      requires Tree(Arcs(edges), s, marked, via, rank) && Linked(edges, edgeTo, via, marked, s)
      requires Distinct(edges) && t < |marked| && marked[t]
      modifies edges
      ensures marked == old(marked) && via == old(via) && rank == old(rank) && value == old(value)
      ensures Flows(edges) == Aug(Arcs(edges), old(Flows(edges)), s, marked, via, rank, t, d)
    {
      ghost var arcs, f0 := Arcs(edges), Flows(edges);
      ghost var m, vi, ra := marked, via, rank;
      var current: nat := t;
      while current != s
        invariant current < |m| && m[current]
        invariant Aug(arcs, Flows(edges), s, m, vi, ra, current, d) == Aug(arcs, f0, s, m, vi, ra, t, d)
        decreases ra[current]
      {
        ghost var f := Flows(edges);
        AugStep(arcs, f, s, m, vi, ra, current, d);
        var e := edgeTo[current].value;
        ghost var k := vi[current];
        assert e == edges[k] && arcs[k] == e.AsArc() && f[k] == e.flow;
        PushAlong(e, current, d, edges, k);
        current := e.Other(current).value;
      }
    }

    /** `in_cut`: the marked vertices, in increasing order. */
    function InCut(): (r: seq<nat>)
      reads this
      ensures forall v: nat :: v in r <==> v < |marked| && marked[v]
      ensures forall i, j :: 0 <= i < j < |r| ==> r[i] < r[j]
    {
      MarkedBelow(marked, |marked|)
    }
  }
}
