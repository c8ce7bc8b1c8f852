/** `KruskalMST`: the edges are taken from a heap lightest first, and each one whose ends
    the union-find does not yet connect joins the tree, until it has n - 1 edges or the
    heap is empty. The union-find roots track exactly which vertices the chosen edges
    connect, so the result is a forest of graph edges in non-decreasing weight order that
    connects the ends of every graph edge. */
module Kruskal {
  import opened Common
  import opened WeightedEdges
  import opened Connectivity
  import opened EdgeHeap
  import UF = UnionFindModule

  /** Both ends of every edge lie below n. */
  ghost predicate Within(F: set<Edge>, n: nat)
  {
    forall e :: e in F ==> e.v < n && e.w < n
  }

  /** Two vertices share a root exactly when the edges of F connect them. */
  ghost predicate Tracks(F: set<Edge>, rep: seq<nat>)
  {
    forall a, b :: 0 <= a < |rep| && 0 <= b < |rep| ==> (rep[a] == rep[b] <==> Joined(F, a, b))
  }

  /** Weights never decrease along the sequence. */
  ghost predicate Sorted(F: seq<Edge>)
  {
    forall i, j :: 0 <= i < j < |F| ==> F[i].weight <= F[j].weight
  }

  /** Before any union every site is its own root, and with no edges every vertex is
      connected only to itself. */
  lemma TracksStart(rep: seq<nat>)
    requires forall k :: 0 <= k < |rep| ==> rep[k] == k
    ensures Tracks({}, rep)
  {
    forall a, b | 0 <= a < |rep| && 0 <= b < |rep|
      ensures rep[a] == rep[b] <==> Joined({}, a, b)
    {
      if a == b {
        JoinedRefl({}, a);
      } else {
        Untouched({}, a, b);
      }
    }
  }

  /** Vertices the new roots put together are connected once e is added. */
  lemma MergedJoined(F: set<Edge>, rep: seq<nat>, rep': seq<nat>, e: Edge, a: nat, b: nat)
    requires Tracks(F, rep) && e.v < |rep| && e.w < |rep| && |rep'| == |rep|
    requires forall k :: 0 <= k < |rep| ==>
               rep'[k] == if rep[k] == rep[e.v] || rep[k] == rep[e.w] then rep'[e.v] else rep[k]
    requires rep'[e.v] == rep[e.v] || rep'[e.v] == rep[e.w]
    requires a < |rep| && b < |rep| && rep'[a] == rep'[b]
    ensures Joined(F + {e}, a, b)
  {
    var G := F + {e};
    JoinedEdge(G, e);
    if rep[a] == rep[b] {
      JoinedGrow(F, G, a, b);
    } else if rep[a] == rep[e.v] && rep[b] == rep[e.w] {
      JoinedGrow(F, G, a, e.v);
      JoinedGrow(F, G, e.w, b);
      JoinedTrans(G, a, e.v, e.w);
      JoinedTrans(G, a, e.w, b);
    } else if rep[a] == rep[e.w] && rep[b] == rep[e.v] {
      JoinedGrow(F, G, a, e.w);
      JoinedGrow(F, G, e.v, b);
      JoinedTrans(G, a, e.w, e.v);
      JoinedTrans(G, a, e.v, b);
    } else {
      assert false;
    }
  }

  /** `union(v, w)` for an edge whose ends had different roots: the new roots track the
      edges with e added. */
  lemma TracksUnion(F: set<Edge>, rep: seq<nat>, rep': seq<nat>, e: Edge)
    requires Within(F, |rep|) && Tracks(F, rep) && e.v < |rep| && e.w < |rep|
    requires Merged(rep, rep', e.v, e.w)
    ensures Tracks(F + {e}, rep')
  {
    var G := F + {e};
    forall f | f in G
      ensures f.v < |rep'| && f.w < |rep'| && rep'[f.v] == rep'[f.w]
    {
      if f != e {
        JoinedEdge(F, f);
      }
    }
    forall a, b | 0 <= a < |rep'| && 0 <= b < |rep'|
      ensures rep'[a] == rep'[b] <==> Joined(G, a, b)
    {
      if Joined(G, a, b) {
        JoinedSame(G, rep', a, b);
      }
      if rep'[a] == rep'[b] {
        MergedJoined(F, rep, rep', e, a, b);
      }
    }
  }

  /** With a single root every two sites share it. */
  lemma OneRoot(rep: seq<nat>, roots: set<nat>)
    requires |roots| == 1 && forall k :: 0 <= k < |rep| ==> rep[k] in roots
    ensures forall a, b :: 0 <= a < |rep| && 0 <= b < |rep| ==> rep[a] == rep[b]
  {
    var r :| r in roots;
    assert |roots - {r}| == 0;
    assert roots - {r} == {};
    assert roots == {r};
  }

  /** A popped edge is appended only when its ends were not connected, and appending keeps
      the tree's weights in non-decreasing order. */
  lemma AppendKeeps(mst: seq<Edge>, e: Edge)
    requires Forest(mst) && Sorted(mst) && !Joined(Elems(mst), e.v, e.w)
    requires forall f :: f in mst ==> f.weight <= e.weight
    ensures Forest(mst + [e]) && Sorted(mst + [e]) && Elems(mst + [e]) == Elems(mst) + {e}
  {
    ForestAppend(mst, e);
    ElemsAppend(mst, e);
    var s := mst + [e];
    forall i, j | 0 <= i < j < |s|
      ensures s[i].weight <= s[j].weight
    {
      if j == |mst| {
        assert s[i] in mst;
      } else {
        assert s[i] == mst[i] && s[j] == mst[j];
      }
    }
  }

  /** Edges whose ends the tree connected stay connected as the tree grows. */
  lemma PoppedGrow(popped: seq<Edge>, mst: seq<Edge>, mst': seq<Edge>)
    requires forall e :: e in popped ==> Joined(Elems(mst), e.v, e.w)
    requires Elems(mst) <= Elems(mst')
    ensures forall e :: e in popped ==> Joined(Elems(mst'), e.v, e.w)
  {
    forall e | e in popped
      ensures Joined(Elems(mst'), e.v, e.w)
    {
      JoinedGrow(Elems(mst), Elems(mst'), e.v, e.w);
    }
  }

  /** The roots after uniting the components of v and w: both take the root r, which is
      one of the two old roots, and every other site keeps its root. */
  ghost predicate Merged(rep: seq<nat>, rep': seq<nat>, v: nat, w: nat)
    requires v < |rep| && w < |rep|
  {
    && |rep'| == |rep| && rep'[v] == rep'[w] && (rep'[v] == rep[v] || rep'[v] == rep[w])
    && forall k :: 0 <= k < |rep| ==> rep'[k] == if rep[k] == rep[v] || rep[k] == rep[w] then rep'[v] else rep[k]
  }

  /** `if not connected(v, w): union(v, w)`: reports whether the two had different roots,
      in which case their components are merged into one. */
  method Unite(uf: UF.UnionFind, v: nat, w: nat) returns (united: bool)
    requires uf.Valid() && v < uf.n && w < uf.n
    modifies uf, uf.id, uf.size
    ensures uf.Valid() && (united <==> old(uf.Reps())[v] != old(uf.Reps())[w])
    ensures !united ==> uf.Reps() == old(uf.Reps()) && uf.ComponentCount() == old(uf.ComponentCount())
    ensures united ==> Merged(old(uf.Reps()), uf.Reps(), v, w)
    ensures united ==> uf.ComponentCount() == old(uf.ComponentCount()) - 1
  {
    ghost var rep := uf.Reps();
    var connected := uf.Connected(v, w);
    assert uf.Reps() == rep;
    united := connected == Ok(false);
    if united {
      label before:
      var res := uf.Union(v, w);
      ghost var rep' := uf.Reps();
      forall k | 0 <= k < uf.n
        ensures rep'[k] == if rep[k] == rep[v] || rep[k] == rep[w] then rep'[v] else rep[k]
      {
        assert rep[k] == old@before(uf.Rep(k)) && rep[v] == old@before(uf.Rep(v)) && rep[w] == old@before(uf.Rep(w));
        assert rep'[k] == uf.Rep(k) && rep'[v] == uf.Rep(v);
      }
    }
  }

  /** The `heappush` loop: the heap holds every edge. */
  method PushAll(edges: seq<Edge>) returns (pq: multiset<Edge>)
    ensures pq == multiset(edges)
  {
    pq := multiset{};
    for i := 0 to |edges|
      invariant pq == multiset(edges[..i])
    {
      assert edges[..i + 1] == edges[..i] + [edges[i]];
      pq := pq + multiset{edges[i]};
    }
    assert edges[..|edges|] == edges;
  }

  /** The result Kruskal promises for a graph on n vertices: a forest of graph edges,
      lightest first, of fewer than n edges (none when n is 0), that connects the two ends
      of every graph edge, so each component of the graph is spanned by a tree. */
  ghost predicate SpanningForest(edges: seq<Edge>, n: nat, mst: seq<Edge>)
  {
    && (forall e :: e in mst ==> e in edges)
    && Forest(mst) && Sorted(mst)
    && (mst == [] || |mst| < n)
    && forall e :: e in edges ==> Joined(Elems(mst), e.v, e.w)
  }

  /** The state of the main loop: the heap and the popped edges together are the graph's
      edges; the roots track the tree's components, whose number is n less the tree's
      size; every popped edge has its ends connected by the tree; and the tree is a sorted
      forest of graph edges no heavier than anything left on the heap. */
  ghost predicate Inv(edges: seq<Edge>, n: nat, pq: multiset<Edge>, popped: seq<Edge>, mst: seq<Edge>, rep: seq<nat>, count: nat)
  {
    && (forall e :: e in edges ==> e.v < n && e.w < n)
    && |rep| == n && multiset(edges) == pq + multiset(popped)
    && (forall e :: e in mst ==> e in edges)
    && Tracks(Elems(mst), rep)
    && (forall e :: e in popped ==> Joined(Elems(mst), e.v, e.w))
    && Forest(mst) && Sorted(mst) && (mst == [] || |mst| < n)
    && (forall e, f :: e in mst && f in pq ==> e.weight <= f.weight)
    && count + |mst| == n
  }

  /** Before the loop: every edge on the heap, every site its own root, n components. */
  lemma InvStart(edges: seq<Edge>, n: nat, rep: seq<nat>)
    requires forall e :: e in edges ==> e.v < n && e.w < n
    requires |rep| == n && forall k :: 0 <= k < n ==> rep[k] == k
    ensures Inv(edges, n, multiset(edges), [], [], rep, n)
  {
    TracksStart(rep);
    assert Elems([]) == {};
  }

  /** Popping e from the heap: the graph's edges are still split between the heap and the
      popped edges, and the tree, with e or without it, stays no heavier than the heap. */
  lemma HeapStep(edges: seq<Edge>, pq: multiset<Edge>, popped: seq<Edge>, mst: seq<Edge>, e: Edge, mst': seq<Edge>)
    requires multiset(edges) == pq + multiset(popped) && (forall e :: e in mst ==> e in edges)
    requires forall e, f :: e in mst && f in pq ==> e.weight <= f.weight
    requires e in pq && forall f :: f in pq ==> e.weight <= f.weight
    requires mst' == mst || mst' == mst + [e]
    ensures e in edges && multiset(edges) == (pq - multiset{e}) + multiset(popped + [e])
    ensures (forall f :: f in mst' ==> f in edges) && (forall f :: f in mst ==> f.weight <= e.weight)
    ensures forall f, g :: f in mst' && g in pq - multiset{e} ==> f.weight <= g.weight
  {
    assert e in multiset(edges);
    assert pq == (pq - multiset{e}) + multiset{e};
  }

  /** A popped edge whose ends had different roots joins the tree: the merged roots track
      the grown tree, which is still a sorted forest and still connects every popped edge. */
  lemma UniteStep(n: nat, popped: seq<Edge>, mst: seq<Edge>, rep: seq<nat>, e: Edge, rep': seq<nat>)
    requires |rep| == n && Within(Elems(mst), n) && Tracks(Elems(mst), rep)
    requires forall f :: f in popped ==> Joined(Elems(mst), f.v, f.w)
    requires Forest(mst) && Sorted(mst) && forall f :: f in mst ==> f.weight <= e.weight
    requires e.v < n && e.w < n && rep[e.v] != rep[e.w] && Merged(rep, rep', e.v, e.w)
    ensures Tracks(Elems(mst + [e]), rep') && Forest(mst + [e]) && Sorted(mst + [e])
    ensures forall f :: f in popped + [e] ==> Joined(Elems(mst + [e]), f.v, f.w)
  {
    TracksUnion(Elems(mst), rep, rep', e);
    AppendKeeps(mst, e);
    JoinedEdge(Elems(mst + [e]), e);
    PoppedGrow(popped, mst, mst + [e]);
  }

  /** One turn of the loop: pop a lightest edge e; when its ends had different roots,
      their components merge and e joins the tree. */
  lemma InvStep(edges: seq<Edge>, n: nat, pq: multiset<Edge>, popped: seq<Edge>, mst: seq<Edge>, rep: seq<nat>, count: nat,
                e: Edge, united: bool, rep': seq<nat>, count': nat)
    requires Inv(edges, n, pq, popped, mst, rep, count) && |mst| < n - 1
    requires e in pq && forall f :: f in pq ==> e.weight <= f.weight
    requires e.v < n && e.w < n && (united <==> rep[e.v] != rep[e.w])
    requires !united ==> rep' == rep && count' == count
    requires united ==> Merged(rep, rep', e.v, e.w) && count' + 1 == count
    ensures Inv(edges, n, pq - multiset{e}, popped + [e], if united then mst + [e] else mst, rep', count')
  {
    var mst' := if united then mst + [e] else mst;
    HeapStep(edges, pq, popped, mst, e, mst');
    if united {
      assert Within(Elems(mst), n);
      UniteStep(n, popped, mst, rep, e, rep');
    } else {
      assert Joined(Elems(mst), e.v, e.w);
    }
  }

  /** After the loop: either every edge was popped, so the ends of each are connected, or
      the tree has n - 1 edges, so a single root is left and every two vertices are
      connected. */
  lemma InvFinish(edges: seq<Edge>, n: nat, pq: multiset<Edge>, popped: seq<Edge>, mst: seq<Edge>, rep: seq<nat>, roots: set<nat>)
    requires Inv(edges, n, pq, popped, mst, rep, |roots|)
    requires pq == multiset{} || |mst| >= n - 1
    requires forall k :: 0 <= k < n ==> rep[k] in roots
    ensures SpanningForest(edges, n, mst)
  {
    if pq != multiset{} && n >= 1 {
      OneRoot(rep, roots);
    }
    forall e | e in edges
      ensures Joined(Elems(mst), e.v, e.w)
    {
      if pq == multiset{} {
        assert e in multiset(edges);
        assert e in multiset(popped);
      }
    }
  }

  /** One turn of the loop: pop a lightest edge; it joins the tree exactly when the
      union-find did not yet connect its ends. */
  method Round(uf: UF.UnionFind, ghost edges: seq<Edge>, n: nat, pq: multiset<Edge>, ghost popped: seq<Edge>, tree: seq<Edge>)
      returns (rest: multiset<Edge>, ghost popped': seq<Edge>, tree': seq<Edge>)
    requires uf.Valid() && uf.n == n && pq != multiset{} && |tree| < n - 1
    requires Inv(edges, n, pq, popped, tree, uf.Reps(), uf.ComponentCount())
    modifies uf, uf.id, uf.size
    ensures uf.Valid() && |rest| < |pq|
    ensures Inv(edges, n, rest, popped', tree', uf.Reps(), uf.ComponentCount())
  {
    var e;
    e, rest := HeapPop(pq);
    var v := Either(e);
    var w := Other(e, v);
    assert e in multiset(edges);
    assert v == e.v && w == e.w && v < n && w < n;
    ghost var rep, count := uf.Reps(), uf.ComponentCount();
    var united := Unite(uf, v, w);
    InvStep(edges, n, pq, popped, tree, rep, count, e, united, uf.Reps(), uf.ComponentCount());
    tree' := if united then tree + [e] else tree;
    popped' := popped + [e];
  }

  class KruskalMST {
    const n: nat
    const edges: seq<Edge>
    var mst: seq<Edge>

    /** The result: a spanning forest of the graph. */
    ghost predicate Valid()
      reads this
    {
      SpanningForest(edges, n, mst)
    }

    /** Pushes every edge on the heap, then pops them lightest first while the tree has
        fewer than n - 1 edges, keeping each edge that joins two components. */
    constructor (n: nat, edges: seq<Edge>)
      requires forall e :: e in edges ==> e.v < n && e.w < n
      ensures this.n == n && this.edges == edges && Valid()
    {
      this.n := n;
      this.edges := edges;
      var tree: seq<Edge> := [];
      var pq := PushAll(edges);
      var uf := new UF.UnionFind(n);
      InvStart(edges, n, uf.Reps());
      ghost var popped: seq<Edge> := [];
      while pq != multiset{} && |tree| < n - 1
        invariant uf.Valid() && uf.n == n && fresh(uf.id) && fresh(uf.size)
        invariant Inv(edges, n, pq, popped, tree, uf.Reps(), uf.ComponentCount())
        decreases |pq|
      {
        pq, popped, tree := Round(uf, edges, n, pq, popped, tree);
      }
      UF.RootsAreFinds(uf.id[..], uf.rank, uf.bound);
      InvFinish(edges, n, pq, popped, tree, uf.Reps(), UF.Roots(uf.id[..]));
      mst := tree;
    }

    /** `edges()`: the tree's edges, a spanning forest of graph edges in the order they
        were chosen. */
    function Edges(): (r: seq<Edge>)
      requires Valid()
      reads this
      ensures Forest(r) && Sorted(r) && forall e :: e in r ==> e in edges
      ensures forall e :: e in edges ==> Joined(Elems(r), e.v, e.w)
    {
      mst
    }
  }
}
