/** `LazyPrimMST`: the tree grows from vertex 0. Visiting a vertex marks it and pushes its
    edges to unmarked vertices on a heap; the lightest edge popped either has both ends
    marked and is dropped, or has exactly one unmarked end, which joins the tree along it.
    The marked vertices always form a tree of the popped edges, and when the loop stops
    they are exactly the vertices connected to 0 in the graph. */
module LazyPrim {
  import opened Common
  import opened WeightedEdges
  import opened Connectivity
  import opened EdgeHeap
  import opened WeightedGraphs
  import opened GrowingTree

  /** What `_visit(v)` pushes: the edges of es, in order, whose end opposite v is unmarked. */
  ghost function Pushed(es: seq<Edge>, v: nat, marked: seq<bool>): multiset<Edge>
    requires forall e :: e in es ==> e.v < |marked| && e.w < |marked|
    decreases |es|
  {
    if es == [] then multiset{}
    else
      var e := es[|es| - 1];
      var rest := Pushed(es[..|es| - 1], v, marked);
      if !marked[Other(e, v)] then rest + multiset{e} else rest
  }

  /** The pushed edges are exactly the listed edges whose end opposite v is unmarked. */
  lemma {:induction false} PushedMembers(es: seq<Edge>, v: nat, marked: seq<bool>)
    requires forall e :: e in es ==> e.v < |marked| && e.w < |marked|
    ensures forall e :: e in Pushed(es, v, marked) ==> e in es && !marked[Other(e, v)]
    ensures forall e :: e in es && !marked[Other(e, v)] ==> e in Pushed(es, v, marked)
    decreases |es|
  {
    if es != [] {
      var init := es[..|es| - 1];
      PushedMembers(init, v, marked);
      assert forall f :: f in es ==> f in init || f == es[|es| - 1];
    }
  }

  /** One more listed edge: it is pushed exactly when its other end is unmarked. */
  lemma PushedStep(es: seq<Edge>, i: nat, v: nat, marked: seq<bool>)
    requires i < |es| && forall e :: e in es ==> e.v < |marked| && e.w < |marked|
    ensures Pushed(es[..i + 1], v, marked) ==
            Pushed(es[..i], v, marked) + if marked[Other(es[i], v)] then multiset{} else multiset{es[i]}
  {
    assert es[..i + 1][..i] == es[..i];
  }

  /** Every heap edge is a graph edge with a marked end. */
  ghost predicate HeapMarked(adj: seq<seq<Edge>>, marked: seq<bool>, pq: multiset<Edge>)
    requires |marked| == |adj|
  {
    forall e :: e in pq ==> IsEdge(adj, e) && (marked[e.v] || marked[e.w])
  }

  /** Every edge at a marked vertex has both ends marked or is still on the heap. */
  ghost predicate Closed(adj: seq<seq<Edge>>, marked: seq<bool>, pq: multiset<Edge>)
    requires |marked| == |adj|
  {
    forall u, e :: 0 <= u < |adj| && marked[u] && e in adj[u] ==>
      e.v < |adj| && e.w < |adj| && ((marked[e.v] && marked[e.w]) || e in pq)
  }

  /** The state of the main loop: vertex 0 is marked, the heap and the tree hold graph
      edges at marked vertices, the tree is a forest with one edge fewer than the marked
      vertices that connects each of them to 0, and no edge leaves the marked vertices
      without waiting on the heap. */
  ghost predicate Inv(adj: seq<seq<Edge>>, marked: seq<bool>, pq: multiset<Edge>, mst: seq<Edge>)
  {
    && |marked| == |adj| && 0 < |adj| && marked[0]
    && HeapMarked(adj, marked, pq)
    && TreeMarked(adj, marked, mst)
    && Reaches(marked, mst)
    && |TrueSet(marked)| == |mst| + 1
    && Forest(mst)
    && Closed(adj, marked, pq)
  }

  /** After `_visit(0)` on an unmarked graph. */
  lemma InvStart(adj: seq<seq<Edge>>)
    requires WellFormed(adj) && 0 < |adj|
    ensures var marked := seq(|adj|, u => u == 0);
            Inv(adj, marked, Pushed(adj[0], 0, marked), [])
  {
    var marked := seq(|adj|, u => u == 0);
    var pq := Pushed(adj[0], 0, marked);
    PushedMembers(adj[0], 0, marked);
    assert TrueSet(marked) == {0};
    assert Elems([]) == {};
    JoinedRefl({}, 0);
    forall e | e in pq
      ensures IsEdge(adj, e) && (marked[e.v] || marked[e.w])
    {
      assert EndOf(e, 0);
    }
  }

  /** Dropping a popped edge whose ends are both marked. */
  lemma SkipKeeps(adj: seq<seq<Edge>>, marked: seq<bool>, pq: multiset<Edge>, mst: seq<Edge>, e: Edge)
    requires Inv(adj, marked, pq, mst) && e in pq && marked[e.v] && marked[e.w]
    ensures Inv(adj, marked, pq - multiset{e}, mst)
  {
    var rest := pq - multiset{e};
    forall u, f | 0 <= u < |adj| && marked[u] && f in adj[u]
      ensures (marked[f.v] && marked[f.w]) || f in rest
    {
    }
  }

  /** The heap after popping e and visiting its unmarked end x: every heap edge still has
      a marked end. */
  lemma AcceptHeap(adj: seq<seq<Edge>>, marked: seq<bool>, m: seq<bool>, pq: multiset<Edge>, pq': multiset<Edge>, e: Edge, x: nat, P: multiset<Edge>)
    requires WellFormed(adj) && |marked| == |adj| && x < |adj|
    requires m == marked[x := true] && pq' == (pq - multiset{e}) + P
    requires forall f :: f in P ==> f in adj[x]
    requires HeapMarked(adj, marked, pq)
    ensures HeapMarked(adj, m, pq')
  {
    forall f | f in pq'
      ensures IsEdge(adj, f) && (m[f.v] || m[f.w])
    {
      if f !in pq - multiset{e} {
        assert f in adj[x] && EndOf(f, x);
      }
    }
  }

  /** Every edge at a marked vertex, x included once visited, ends at marked vertices or
      waits on the heap. */
  lemma AcceptClosed(adj: seq<seq<Edge>>, marked: seq<bool>, m: seq<bool>, pq: multiset<Edge>, pq': multiset<Edge>, e: Edge, x: nat, P: multiset<Edge>)
    requires WellFormed(adj) && |marked| == |adj| && x < |adj| && EndOf(e, x) && !marked[x]
    requires m == marked[x := true] && pq' == (pq - multiset{e}) + P
    requires forall f :: f in adj[x] && !m[Other(f, x)] ==> f in P
    requires Closed(adj, marked, pq)
    ensures Closed(adj, m, pq')
  {
    forall u, f | 0 <= u < |adj| && m[u] && f in adj[u]
      ensures f.v < |adj| && f.w < |adj| && ((m[f.v] && m[f.w]) || f in pq')
    {
      if u == x && !(m[f.v] && m[f.w]) {
        assert EndOf(f, x) && !m[Other(f, x)];
      }
    }
  }

  /** Accepting a popped edge e whose end x is unmarked: e joins the tree and x is visited. */
  lemma AcceptKeeps(adj: seq<seq<Edge>>, marked: seq<bool>, pq: multiset<Edge>, mst: seq<Edge>, e: Edge, x: nat, P: multiset<Edge>)
    requires WellFormed(adj) && Inv(adj, marked, pq, mst) && e in pq
    requires EndOf(e, x) && x < |adj| && !marked[x]
    requires forall f :: f in P ==> f in adj[x]
    requires forall f :: f in adj[x] && !marked[x := true][Other(f, x)] ==> f in P
    ensures Inv(adj, marked[x := true], (pq - multiset{e}) + P, mst + [e])
  {
    var m := marked[x := true];
    var mst' := mst + [e];
    var pq' := (pq - multiset{e}) + P;
    assert IsEdge(adj, e) && marked[Other(e, x)];
    AcceptForest(adj, marked, mst, e, x);
    AcceptMarked(adj, marked, m, mst, mst', e, x);
    AcceptJoined(marked, m, mst, mst', e, x);
    AcceptHeap(adj, marked, m, pq, pq', e, x, P);
    AcceptClosed(adj, marked, m, pq, pq', e, x, P);
    TrueSetMark(marked, x);
  }

  /** When the loop stops, the marked vertices are exactly those connected to 0: with the
      heap empty no graph edge leaves them, and with n - 1 tree edges all n are marked. */
  lemma InvFinish(adj: seq<seq<Edge>>, marked: seq<bool>, pq: multiset<Edge>, mst: seq<Edge>)
    requires WellFormed(adj) && Inv(adj, marked, pq, mst)
    requires pq == multiset{} || |mst| >= |adj| - 1
    ensures forall u :: 0 <= u < |adj| ==> (marked[u] <==> Joined(GraphEdges(adj), 0, u))
  {
    FinishReached(adj, marked, mst);
    if pq == multiset{} {
      FinishEmpty(adj, marked);
    } else {
      TrueSetSize(marked);
    }
  }

  /** With the heap empty, every vertex connected to 0 is marked. */
  lemma FinishEmpty(adj: seq<seq<Edge>>, marked: seq<bool>)
    requires WellFormed(adj) && |marked| == |adj| && 0 < |adj| && marked[0]
    requires Closed(adj, marked, multiset{})
    ensures forall u :: 0 <= u < |adj| && Joined(GraphEdges(adj), 0, u) ==> marked[u]
  {
    forall u, f | 0 <= u < |adj| && marked[u] && f in adj[u]
      ensures marked[f.v] && marked[f.w]
    {
    }
    ClosedMarks(adj, marked);
  }

  class LazyPrimMST {
    const adj: seq<seq<Edge>>
    var marked: seq<bool>
    var pq: multiset<Edge>
    var mst: seq<Edge>

    /** The result: the tree's edges are graph edges between marked vertices, they form a
        forest with one edge fewer than there are marked vertices and connect every marked
        vertex to 0, and the marked vertices are exactly those connected to 0 in the graph:
        a spanning tree of the component of vertex 0. */
    ghost predicate Valid()
      reads this
    {
      && |marked| == |adj|
      && (forall e :: e in mst ==> IsEdge(adj, e) && marked[e.v] && marked[e.w])
      && Forest(mst) && |mst| + 1 == |TrueSet(marked)|
      && (forall u :: 0 <= u < |adj| ==> (marked[u] <==> Joined(GraphEdges(adj), 0, u)))
      && (forall u :: 0 <= u < |adj| && marked[u] ==> Joined(Elems(mst), 0, u))
    }

    /** Visits 0, then pops the lightest edge while the heap is not empty and the tree has
        fewer than n - 1 edges. The graph must have a vertex 0. */
    constructor (adj: seq<seq<Edge>>)
      requires WellFormed(adj) && 0 < |adj|
      ensures this.adj == adj && Valid()
    {
      this.adj := adj;
      mst := [];
      pq := multiset{};
      marked := seq(|adj|, _ => false);
      new;
      assert marked[0 := true] == seq(|adj|, u => u == 0);
      Visit(0);
      InvStart(adj);
      while pq != multiset{} && |mst| < |adj| - 1
        invariant Inv(adj, marked, pq, mst)
        decreases |adj| - |mst|, |pq|
      {
        Step();
      }
      InvFinish(adj, marked, pq, mst);
    }

    /** One pass of the main loop: pop the lightest edge; drop it when both ends are
        marked, otherwise add it to the tree and visit whichever end is unmarked. */
    method Step()
      requires WellFormed(adj) && Inv(adj, marked, pq, mst) && pq != multiset{}
      modifies this
      ensures Inv(adj, marked, pq, mst)
      ensures (mst == old(mst) && |pq| < old(|pq|)) || |mst| == old(|mst|) + 1
    {
      var e, rest := HeapPop(pq);
      var v := Either(e);
      var w := Other(e, v);
      assert v == e.v && w == e.w;
      if marked[v] && marked[w] {
        SkipKeeps(adj, marked, pq, mst, e);
        pq := rest;
        return;
      }
      Accept(e, rest);
    }

    /** The popped edge e has exactly one unmarked end: it joins the tree, and whichever
        end is unmarked is visited. */
    method Accept(e: Edge, rest: multiset<Edge>)
      requires WellFormed(adj) && Inv(adj, marked, pq, mst) && e in pq && rest == pq - multiset{e}
      requires !(marked[e.v] && marked[e.w])
      modifies this
      ensures Inv(adj, marked, pq, mst) && mst == old(mst) + [e]
    {
      var v := e.v;
      var w := e.w;
      ghost var x := if !marked[v] then v else w;
      ghost var m := marked[x := true];
      ghost var P := Pushed(adj[x], x, m);
      PushedMembers(adj[x], x, m);
      AcceptKeeps(adj, marked, pq, mst, e, x, P);
      pq := rest;
      mst := mst + [e];
      if !marked[v] {
        Visit(v);
      }
      assert marked[v] && (marked[w] <==> x == v);
      if !marked[w] {
        Visit(w);
      }
      assert marked == m && pq == rest + P;
    }

    /** `_visit(vertex)`: marks it and pushes each of its edges whose other end is unmarked. */
    method Visit(v: nat)
      requires WellFormed(adj) && |marked| == |adj| && v < |adj|
      modifies this
      ensures marked == old(marked)[v := true] && mst == old(mst)
      ensures pq == old(pq) + Pushed(adj[v], v, marked)
    {
      var m := marked[v := true];
      var edges := adj[v];
      var pushed: multiset<Edge> := multiset{};
      for i := 0 to |edges|
        invariant pushed == Pushed(edges[..i], v, m)
        modifies {}
      {
        PushedStep(edges, i, v, m);
        if !m[Other(edges[i], v)] {
          pushed := pushed + multiset{edges[i]};
        }
      }
      assert edges[..|edges|] == edges;
      marked := m;
      pq := pq + pushed;
    }

    /** `edges()`: the tree's edges, a spanning tree of the component of vertex 0. */
    function Edges(): (r: seq<Edge>)
      requires Valid()
      reads this
      ensures Forest(r) && forall e :: e in r ==> e in GraphEdges(adj)
      ensures forall u :: 0 <= u < |adj| && Joined(GraphEdges(adj), 0, u) ==> Joined(Elems(r), 0, u)
      ensures |r| + 1 == |TrueSet(marked)|
    {
      mst
    }
  }
}
