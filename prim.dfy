/** The invariants of eager Prim, stated over the values of its fields, and the lemmas
    that carry them through a round. */
module PrimInvariants {
  import opened Common
  import opened WeightedEdges
  import opened Connectivity
  import opened WeightedGraphs
  import opened GrowingTree
  import opened PriorityQueue

  /** `dist_to[w]`: the weight of the lightest edge found from the tree to w, or infinity. */
  datatype Dist = Inf | Fin(value: int)

  /** `edge.weight < dist_to[w]`: every weight is below infinity. */
  predicate Lighter(x: int, d: Dist)
  {
    d.Inf? || x < d.value
  }

  /** A finite distance no larger than x. */
  predicate Below(d: Dist, x: int)
  {
    d.Fin? && d.value <= x
  }

  /** The parent edges of the marked vertices, as a multiset. */
  ghost function MarkedParents(edgeTo: seq<Option<Edge>>, marked: seq<bool>): multiset<Edge>
    requires |edgeTo| == |marked|
    decreases |edgeTo|
  {
    if edgeTo == [] then multiset{}
    else
      var k := |edgeTo| - 1;
      MarkedParents(edgeTo[..k], marked[..k]) +
        if marked[k] && edgeTo[k].Some? then multiset{edgeTo[k].value} else multiset{}
  }

  /** `edges()`: the parent edges in vertex order, skipping the vertices without one. */
  function Somes(edgeTo: seq<Option<Edge>>): seq<Edge>
    decreases |edgeTo|
  {
    if edgeTo == [] then []
    else
      var k := |edgeTo| - 1;
      Somes(edgeTo[..k]) + if edgeTo[k].Some? then [edgeTo[k].value] else []
  }

  /** Marking one more vertex adds its parent edge, if it has one. */
  lemma {:induction false} MarkedParentsMark(edgeTo: seq<Option<Edge>>, marked: seq<bool>, x: nat)
    requires |edgeTo| == |marked| && x < |marked| && !marked[x]
    ensures MarkedParents(edgeTo, marked[x := true]) ==
            MarkedParents(edgeTo, marked) + if edgeTo[x].Some? then multiset{edgeTo[x].value} else multiset{}
    decreases |edgeTo|
  {
    var k := |edgeTo| - 1;
    if x < k {
      assert marked[x := true][..k] == marked[..k][x := true];
      MarkedParentsMark(edgeTo[..k], marked[..k], x);
    } else {
      assert marked[x := true][..k] == marked[..k];
    }
  }

  /** Changing the parent of an unmarked vertex leaves the marked parents alone. */
  lemma {:induction false} MarkedParentsUnmarked(edgeTo: seq<Option<Edge>>, marked: seq<bool>, w: nat, o: Option<Edge>)
    requires |edgeTo| == |marked| && w < |marked| && !marked[w]
    ensures MarkedParents(edgeTo[w := o], marked) == MarkedParents(edgeTo, marked)
    decreases |edgeTo|
  {
    var k := |edgeTo| - 1;
    if w < k {
      assert edgeTo[w := o][..k] == edgeTo[..k][w := o];
      MarkedParentsUnmarked(edgeTo[..k], marked[..k], w, o);
    } else {
      assert edgeTo[w := o][..k] == edgeTo[..k];
    }
  }

  /** When only marked vertices have parents, the marked parents are all the parents. */
  lemma {:induction false} MarkedParentsAll(edgeTo: seq<Option<Edge>>, marked: seq<bool>)
    requires |edgeTo| == |marked|
    requires forall k :: 0 <= k < |edgeTo| && edgeTo[k].Some? ==> marked[k]
    ensures MarkedParents(edgeTo, marked) == multiset(Somes(edgeTo))
    decreases |edgeTo|
  {
    if edgeTo != [] {
      var k := |edgeTo| - 1;
      MarkedParentsAll(edgeTo[..k], marked[..k]);
    }
  }

  /** Vertex 0 has distance 0 and no parent edge; any other vertex has a finite distance
      exactly when it has a parent edge, which is a graph edge joining it to a marked
      vertex and as heavy as its distance; marked vertices have finite distances. */
  ghost predicate ParentsOk(adj: seq<seq<Edge>>, marked: seq<bool>, edgeTo: seq<Option<Edge>>, dist: seq<Dist>)
    requires |marked| == |adj| && |edgeTo| == |adj| && |dist| == |adj| && 0 < |adj|
  {
    && dist[0] == Fin(0) && edgeTo[0].None?
    && (forall w :: 0 < w < |adj| ==> (dist[w].Fin? <==> edgeTo[w].Some?))
    && (forall w :: 0 <= w < |adj| && marked[w] ==> dist[w].Fin?)
    && (forall w :: 0 <= w < |adj| && edgeTo[w].Some? ==>
          var f := edgeTo[w].value;
          IsEdge(adj, f) && EndOf(f, w) && marked[Other(f, w)] && dist[w] == Fin(f.weight))
  }

  /** The heap holds unmarked vertices keyed by their distances, and every unmarked vertex
      with a finite distance is on it. Before vertex 0 is marked, the heap holds 0 alone
      and nothing is marked. */
  ghost predicate QueueOk(adj: seq<seq<Edge>>, marked: seq<bool>, dist: seq<Dist>, contents: map<int, int>)
    requires |marked| == |adj| && |dist| == |adj| && 0 < |adj|
  {
    && (forall q :: q in contents ==> 0 <= q < |adj| && !marked[q] && dist[q] == Fin(contents[q]))
    && (forall w :: 0 <= w < |adj| && !marked[w] && dist[w].Fin? ==> w in contents)
    && (!marked[0] ==> contents == map[0 := 0] && forall u :: 0 <= u < |adj| ==> !marked[u])
  }

  /** An end of f that is unmarked has a distance no larger than f's weight. */
  ghost predicate Offered(marked: seq<bool>, dist: seq<Dist>, f: Edge)
    requires |dist| == |marked|
  {
    f.v < |marked| && f.w < |marked|
    && (marked[f.v] || Below(dist[f.v], f.weight))
    && (marked[f.w] || Below(dist[f.w], f.weight))
  }

  /** The cut invariant: every edge at a marked vertex other than x has been offered. */
  ghost predicate CutExcept(adj: seq<seq<Edge>>, marked: seq<bool>, dist: seq<Dist>, x: int)
    requires |marked| == |adj| && |dist| == |adj|
  {
    forall u, f :: 0 <= u < |adj| && u != x && marked[u] && f in adj[u] ==> Offered(marked, dist, f)
  }

  /** The parent edges of the marked vertices form the tree: a forest of graph edges
      between marked vertices connecting each of them to 0, one edge fewer than the
      marked vertices once 0 is marked. */
  ghost predicate TreeOk(adj: seq<seq<Edge>>, marked: seq<bool>, edgeTo: seq<Option<Edge>>, tree: seq<Edge>)
    requires |marked| == |adj| && |edgeTo| == |adj| && 0 < |adj|
  {
    && TreeMarked(adj, marked, tree) && Reaches(marked, tree) && Forest(tree)
    && |TrueSet(marked)| == |tree| + (if marked[0] then 1 else 0)
    && MarkedParents(edgeTo, marked) == multiset(tree)
  }

  /** What the rounds keep, apart from the cut. */
  ghost predicate Base(adj: seq<seq<Edge>>, marked: seq<bool>, edgeTo: seq<Option<Edge>>, dist: seq<Dist>, contents: map<int, int>, tree: seq<Edge>)
  {
    && WellFormed(adj) && |marked| == |adj| && |edgeTo| == |adj| && |dist| == |adj| && 0 < |adj|
    && ParentsOk(adj, marked, edgeTo, dist)
    && QueueOk(adj, marked, dist, contents)
    && TreeOk(adj, marked, edgeTo, tree)
  }

  /** The state between rounds. */
  ghost predicate Inv(adj: seq<seq<Edge>>, marked: seq<bool>, edgeTo: seq<Option<Edge>>, dist: seq<Dist>, contents: map<int, int>, tree: seq<Edge>)
  {
    Base(adj, marked, edgeTo, dist, contents, tree) && CutExcept(adj, marked, dist, -1)
  }

  /** The state while the marked vertex x offers its edges: the first i have been offered. */
  ghost predicate Scanning(adj: seq<seq<Edge>>, marked: seq<bool>, edgeTo: seq<Option<Edge>>, dist: seq<Dist>, contents: map<int, int>, tree: seq<Edge>, x: nat, i: nat)
  {
    && Base(adj, marked, edgeTo, dist, contents, tree)
    && x < |adj| && marked[x] && i <= |adj[x]|
    && CutExcept(adj, marked, dist, x)
    && (forall j :: 0 <= j < i ==> Offered(marked, dist, adj[x][j]))
  }

  /** The initial distances: 0 at vertex 0, infinity elsewhere. */
  function InitialDist(n: nat): (d: seq<Dist>)
    ensures |d| == n && forall u :: 0 <= u < n ==> d[u] == if u == 0 then Fin(0) else Inf
  {
    seq(n, u => if u == 0 then Fin(0) else Inf)
  }

  /** Before the first round: nothing marked, no parents, vertex 0 alone on the heap. */
  lemma InvStart(adj: seq<seq<Edge>>)
    requires WellFormed(adj) && 0 < |adj|
    ensures Inv(adj, seq(|adj|, _ => false), seq(|adj|, _ => None), InitialDist(|adj|), map[0 := 0], [])
  {
    var n := |adj|;
    var marked: seq<bool> := seq(n, _ => false);
    var edgeTo: seq<Option<Edge>> := seq(n, _ => None);
    assert TrueSet(marked) == {};
    MarkedParentsAll(edgeTo, marked);
    NoParents(edgeTo);
    assert Elems([]) == {};
  }

  /** Without parent edges `edges()` is empty. */
  lemma {:induction false} NoParents(edgeTo: seq<Option<Edge>>)
    requires forall k :: 0 <= k < |edgeTo| ==> edgeTo[k].None?
    ensures Somes(edgeTo) == []
    decreases |edgeTo|
  {
    if edgeTo != [] {
      NoParents(edgeTo[..|edgeTo| - 1]);
    }
  }

  /** The tree once x is marked: grown by x's parent edge, when x has one. */
  ghost function Grown(tree: seq<Edge>, edgeTo: seq<Option<Edge>>, x: nat): seq<Edge>
    requires x < |edgeTo|
  {
    if edgeTo[x].Some? then tree + [edgeTo[x].value] else tree
  }

  /** Marking the removed vertex x: the heap loses it and the tree gains its parent edge. */
  lemma MarkQueue(adj: seq<seq<Edge>>, marked: seq<bool>, m: seq<bool>, dist: seq<Dist>, contents: map<int, int>, x: nat)
    requires |marked| == |adj| && |dist| == |adj| && 0 < |adj| && x < |adj| && m == marked[x := true]
    requires QueueOk(adj, marked, dist, contents) && x in contents
    ensures QueueOk(adj, m, dist, contents - {x})
    ensures x == 0 <==> !marked[0]
  {
  }

  lemma MarkParents(adj: seq<seq<Edge>>, marked: seq<bool>, m: seq<bool>, edgeTo: seq<Option<Edge>>, dist: seq<Dist>, x: nat)
    requires |marked| == |adj| && |edgeTo| == |adj| && |dist| == |adj| && 0 < |adj| && x < |adj|
    requires m == marked[x := true] && ParentsOk(adj, marked, edgeTo, dist) && dist[x].Fin?
    ensures ParentsOk(adj, m, edgeTo, dist)
  {
  }

  lemma MarkCut(adj: seq<seq<Edge>>, marked: seq<bool>, m: seq<bool>, dist: seq<Dist>, x: nat)
    requires |marked| == |adj| && |dist| == |adj| && x < |adj| && m == marked[x := true]
    requires CutExcept(adj, marked, dist, -1)
    ensures CutExcept(adj, m, dist, x)
  {
    forall u, f | 0 <= u < |adj| && u != x && m[u] && f in adj[u]
      ensures Offered(m, dist, f)
    {
      assert Offered(marked, dist, f);
    }
  }

  /** The root is marked first, with no edge; any later vertex brings its parent edge. */
  lemma MarkTree(adj: seq<seq<Edge>>, marked: seq<bool>, m: seq<bool>, edgeTo: seq<Option<Edge>>, dist: seq<Dist>, tree: seq<Edge>, tree': seq<Edge>, x: nat)
    requires |marked| == |adj| && |edgeTo| == |adj| && |dist| == |adj| && 0 < |adj| && x < |adj|
    requires m == marked[x := true] && !marked[x] && tree' == Grown(tree, edgeTo, x)
    requires x == 0 <==> !marked[0]
    requires !marked[0] ==> forall u :: 0 <= u < |adj| ==> !marked[u]
    requires ParentsOk(adj, marked, edgeTo, dist) && dist[x].Fin?
    requires TreeOk(adj, marked, edgeTo, tree)
    ensures TreeOk(adj, m, edgeTo, tree')
  {
    MarkedParentsMark(edgeTo, marked, x);
    TrueSetMark(marked, x);
    if x == 0 {
      assert TrueSet(marked) == {};
      forall u | 0 <= u < |m| && m[u]
        ensures Joined(Elems(tree'), 0, u)
      {
        JoinedRefl(Elems(tree'), 0);
      }
    } else {
      var f := edgeTo[x].value;
      AcceptForest(adj, marked, tree, f, x);
      AcceptMarked(adj, marked, m, tree, tree', f, x);
      AcceptJoined(marked, m, tree, tree', f, x);
    }
  }

  /** `del_min` then marking: the removed vertex x is marked, its parent edge joins the
      tree, and x starts offering its edges. */
  lemma MarkKeeps(adj: seq<seq<Edge>>, marked: seq<bool>, edgeTo: seq<Option<Edge>>, dist: seq<Dist>, contents: map<int, int>, tree: seq<Edge>, x: nat)
    requires Inv(adj, marked, edgeTo, dist, contents, tree) && x in contents
    ensures x < |adj| && !marked[x] && x < |edgeTo|
    ensures Scanning(adj, marked[x := true], edgeTo, dist, contents - {x}, Grown(tree, edgeTo, x), x, 0)
  {
    var m := marked[x := true];
    MarkQueue(adj, marked, m, dist, contents, x);
    MarkParents(adj, marked, m, edgeTo, dist, x);
    MarkCut(adj, marked, m, dist, x);
    MarkTree(adj, marked, m, edgeTo, dist, tree, Grown(tree, edgeTo, x), x);
  }

  /** Offering edge i of x to an end that is marked already changes nothing. */
  lemma ScanMarked(adj: seq<seq<Edge>>, marked: seq<bool>, edgeTo: seq<Option<Edge>>, dist: seq<Dist>, contents: map<int, int>, tree: seq<Edge>, x: nat, i: nat)
    requires Scanning(adj, marked, edgeTo, dist, contents, tree, x, i) && i < |adj[x]|
    requires marked[Other(adj[x][i], x)]
    ensures Scanning(adj, marked, edgeTo, dist, contents, tree, x, i + 1)
  {
    assert EndOf(adj[x][i], x);
  }

  /** Offering an edge no lighter than the far end's distance changes nothing. */
  lemma ScanHeavier(adj: seq<seq<Edge>>, marked: seq<bool>, edgeTo: seq<Option<Edge>>, dist: seq<Dist>, contents: map<int, int>, tree: seq<Edge>, x: nat, i: nat)
    requires Scanning(adj, marked, edgeTo, dist, contents, tree, x, i) && i < |adj[x]|
    requires var w := Other(adj[x][i], x); w < |dist| && !Lighter(adj[x][i].weight, dist[w])
    ensures Scanning(adj, marked, edgeTo, dist, contents, tree, x, i + 1)
  {
    assert EndOf(adj[x][i], x);
  }

  /** Offering edge i of x, in each of the three cases `_visit` distinguishes. */
  lemma ScanStep(adj: seq<seq<Edge>>, marked: seq<bool>, edgeTo: seq<Option<Edge>>, dist: seq<Dist>, contents: map<int, int>, tree: seq<Edge>, x: nat, i: nat)
    requires Scanning(adj, marked, edgeTo, dist, contents, tree, x, i) && i < |adj[x]|
    ensures var f := adj[x][i]; var w := Other(f, x);
            && EndOf(f, x) && f.v < |adj| && f.w < |adj| && w < |adj|
            && (!marked[w] && Lighter(f.weight, dist[w]) ==>
                  Scanning(adj, marked, edgeTo[w := Some(f)], dist[w := Fin(f.weight)], contents[w := f.weight], tree, x, i + 1))
            && (!(!marked[w] && Lighter(f.weight, dist[w])) ==>
                  Scanning(adj, marked, edgeTo, dist, contents, tree, x, i + 1))
  {
    var f := adj[x][i];
    FarEnd(adj, x, f);
    var w := Other(f, x);
    if marked[w] {
      ScanMarked(adj, marked, edgeTo, dist, contents, tree, x, i);
    } else if Lighter(f.weight, dist[w]) {
      ScanLighter(adj, marked, edgeTo, dist, contents, tree, x, i);
    } else {
      ScanHeavier(adj, marked, edgeTo, dist, contents, tree, x, i);
    }
  }

  /** The end of edge f at x: a vertex, and the one f leads to from x. */
  lemma FarEnd(adj: seq<seq<Edge>>, x: nat, f: Edge)
    requires WellFormed(adj) && x < |adj| && f in adj[x]
    ensures EndOf(f, x) && Other(f, x) < |adj| && Other(f, Other(f, x)) == x && IsEdge(adj, f)
  {
  }

  /** A lighter edge f from x to the unmarked w becomes w's parent, and w's distance and
      key drop to its weight. */
  lemma ScanLighter(adj: seq<seq<Edge>>, marked: seq<bool>, edgeTo: seq<Option<Edge>>, dist: seq<Dist>, contents: map<int, int>, tree: seq<Edge>, x: nat, i: nat)
    requires Scanning(adj, marked, edgeTo, dist, contents, tree, x, i) && i < |adj[x]|
    requires var w := Other(adj[x][i], x); w < |dist| && !marked[w] && Lighter(adj[x][i].weight, dist[w])
    ensures var f := adj[x][i]; var w := Other(f, x);
            Scanning(adj, marked, edgeTo[w := Some(f)], dist[w := Fin(f.weight)], contents[w := f.weight], tree, x, i + 1)
  {
    var f := adj[x][i];
    var w := Other(f, x);
    FarEnd(adj, x, f);
    ScanParents(adj, marked, edgeTo, dist, x, f, w);
    ScanQueue(adj, marked, dist, contents, w, f.weight);
    ScanCut(adj, marked, dist, x, i, w, f.weight);
    ScanTree(adj, marked, edgeTo, tree, w, Some(f));
    ScanAssemble(adj, marked, edgeTo[w := Some(f)], dist[w := Fin(f.weight)], contents[w := f.weight], tree, x, i + 1);
  }

  /** A new parent for an unmarked vertex leaves the tree as it was. */
  lemma ScanTree(adj: seq<seq<Edge>>, marked: seq<bool>, edgeTo: seq<Option<Edge>>, tree: seq<Edge>, w: nat, o: Option<Edge>)
    requires |marked| == |adj| && |edgeTo| == |adj| && 0 < |adj| && w < |adj| && !marked[w]
    requires TreeOk(adj, marked, edgeTo, tree)
    ensures TreeOk(adj, marked, edgeTo[w := o], tree)
  {
    MarkedParentsUnmarked(edgeTo, marked, w, o);
  }

  /** The scan state from its parts. */
  lemma ScanAssemble(adj: seq<seq<Edge>>, marked: seq<bool>, edgeTo: seq<Option<Edge>>, dist: seq<Dist>, contents: map<int, int>, tree: seq<Edge>, x: nat, i: nat)
    requires WellFormed(adj) && |marked| == |adj| && |edgeTo| == |adj| && |dist| == |adj| && 0 < |adj|
    requires ParentsOk(adj, marked, edgeTo, dist) && QueueOk(adj, marked, dist, contents) && TreeOk(adj, marked, edgeTo, tree)
    requires x < |adj| && marked[x] && i <= |adj[x]| && CutExcept(adj, marked, dist, x)
    requires forall j :: 0 <= j < i ==> Offered(marked, dist, adj[x][j])
    ensures Scanning(adj, marked, edgeTo, dist, contents, tree, x, i)
  {
  }

  /** The heap operation of a lighter edge to the unmarked w is allowed: `decrease_key`
      gets a strictly smaller key, and `insert` finds room. */
  lemma OfferQueue(adj: seq<seq<Edge>>, marked: seq<bool>, dist: seq<Dist>, contents: map<int, int>, w: nat, z: int)
    requires |marked| == |adj| && |dist| == |adj| && 0 < |adj| && w < |adj| && !marked[w]
    requires QueueOk(adj, marked, dist, contents) && Lighter(z, dist[w])
    ensures w in contents ==> z < contents[w]
    ensures w !in contents ==> |contents| < |adj|
  {
    if w !in contents {
      SubsetBound(contents.Keys + {w}, |adj|);
    }
  }

  lemma ScanParents(adj: seq<seq<Edge>>, marked: seq<bool>, edgeTo: seq<Option<Edge>>, dist: seq<Dist>, x: nat, f: Edge, w: nat)
    requires |marked| == |adj| && |edgeTo| == |adj| && |dist| == |adj| && 0 < |adj| && x < |adj| && marked[x]
    requires IsEdge(adj, f) && EndOf(f, x) && w == Other(f, x) && Other(f, w) == x && w < |adj| && !marked[w] && marked[0]
    requires ParentsOk(adj, marked, edgeTo, dist)
    ensures ParentsOk(adj, marked, edgeTo[w := Some(f)], dist[w := Fin(f.weight)])
  {
  }

  lemma ScanQueue(adj: seq<seq<Edge>>, marked: seq<bool>, dist: seq<Dist>, contents: map<int, int>, w: nat, z: int)
    requires |marked| == |adj| && |dist| == |adj| && 0 < |adj| && w < |adj| && !marked[w] && marked[0]
    requires QueueOk(adj, marked, dist, contents)
    ensures QueueOk(adj, marked, dist[w := Fin(z)], contents[w := z])
  {
  }

  lemma ScanCut(adj: seq<seq<Edge>>, marked: seq<bool>, dist: seq<Dist>, x: nat, i: nat, w: nat, z: int)
    requires |marked| == |adj| && |dist| == |adj| && x < |adj| && i < |adj[x]| && w < |adj| && !marked[w]
    requires Lighter(z, dist[w]) && Offered(marked, dist[w := Fin(z)], adj[x][i])
    requires CutExcept(adj, marked, dist, x) && forall j :: 0 <= j < i ==> Offered(marked, dist, adj[x][j])
    ensures CutExcept(adj, marked, dist[w := Fin(z)], x)
    ensures forall j :: 0 <= j < i + 1 ==> Offered(marked, dist[w := Fin(z)], adj[x][j])
  {
    var d := dist[w := Fin(z)];
    forall u, f | 0 <= u < |adj| && u != x && marked[u] && f in adj[u]
      ensures Offered(marked, d, f)
    {
      assert Offered(marked, dist, f);
    }
    forall j | 0 <= j < i + 1
      ensures Offered(marked, d, adj[x][j])
    {
      if j < i {
        assert Offered(marked, dist, adj[x][j]);
      }
    }
  }

  /** Once x has offered all its edges, the cut invariant covers x too. */
  lemma ScanDone(adj: seq<seq<Edge>>, marked: seq<bool>, edgeTo: seq<Option<Edge>>, dist: seq<Dist>, contents: map<int, int>, tree: seq<Edge>, x: nat)
    requires x < |adj| && Scanning(adj, marked, edgeTo, dist, contents, tree, x, |adj[x]|)
    ensures Inv(adj, marked, edgeTo, dist, contents, tree)
  {
    forall u, f | 0 <= u < |adj| && u != -1 && marked[u] && f in adj[u]
      ensures Offered(marked, dist, f)
    {
      if u == x {
        var j :| 0 <= j < |adj[x]| && adj[x][j] == f;
      }
    }
  }

  /** With the heap empty, vertex 0 is marked, only marked vertices have parents, and
      every edge at a marked vertex ends at marked vertices. */
  lemma EmptyQueue(adj: seq<seq<Edge>>, marked: seq<bool>, edgeTo: seq<Option<Edge>>, dist: seq<Dist>)
    requires |marked| == |adj| && |edgeTo| == |adj| && |dist| == |adj| && 0 < |adj|
    requires ParentsOk(adj, marked, edgeTo, dist) && QueueOk(adj, marked, dist, map[])
    requires CutExcept(adj, marked, dist, -1)
    ensures marked[0]
    ensures forall k :: 0 <= k < |edgeTo| && edgeTo[k].Some? ==> marked[k]
    ensures forall u, f :: 0 <= u < |adj| && marked[u] && f in adj[u] ==>
              f.v < |adj| && f.w < |adj| && marked[f.v] && marked[f.w]
  {
    forall u, f | 0 <= u < |adj| && marked[u] && f in adj[u]
      ensures f.v < |adj| && f.w < |adj| && marked[f.v] && marked[f.w]
    {
      assert Offered(marked, dist, f);
    }
  }

  /** With the heap empty the marked vertices are exactly those connected to 0, only they
      have parents, and `edges()` lists the tree's edges. */
  lemma InvFinish(adj: seq<seq<Edge>>, marked: seq<bool>, edgeTo: seq<Option<Edge>>, dist: seq<Dist>, tree: seq<Edge>)
    requires Inv(adj, marked, edgeTo, dist, map[], tree)
    ensures marked[0] && |TrueSet(marked)| == |tree| + 1
    ensures forall u :: 0 <= u < |adj| ==> (marked[u] <==> Joined(GraphEdges(adj), 0, u))
    ensures forall w :: 0 < w < |adj| ==> (edgeTo[w].Some? <==> marked[w])
    ensures multiset(Somes(edgeTo)) == multiset(tree)
  {
    EmptyQueue(adj, marked, edgeTo, dist);
    ClosedMarks(adj, marked);
    FinishReached(adj, marked, tree);
    MarkedParentsAll(edgeTo, marked);
  }

  /** A reordering of the tree has the same edges and as many. */
  lemma Reordered(adj: seq<seq<Edge>>, marked: seq<bool>, r: seq<Edge>, tree: seq<Edge>)
    requires |marked| == |adj| && TreeMarked(adj, marked, tree) && multiset(r) == multiset(tree)
    ensures Elems(r) == Elems(tree) && |r| == |tree|
    ensures forall e :: e in r ==> e in GraphEdges(adj)
  {
    forall e
      ensures e in r <==> e in tree
    {
      assert e in r <==> e in multiset(r);
      assert e in tree <==> e in multiset(tree);
    }
    assert |r| == |multiset(r)| == |multiset(tree)| == |tree|;
    forall e | e in r
      ensures e in GraphEdges(adj)
    {
      EdgeListed(adj, e);
    }
  }
}


/** `PrimMST`, the eager version: an indexed min-heap holds every unmarked vertex that
    some tree edge reaches, keyed by the weight of the lightest edge from the tree to it
    (`dist_to`), and that edge is kept as its parent (`edge_to`). Each round removes the
    vertex of smallest key, marks it, and offers each of its edges to the far end. The
    parent edges of the marked vertices form a tree spanning the component of vertex 0. */
module Prim {
  import opened Common
  import opened WeightedEdges
  import opened Connectivity
  import opened WeightedGraphs
  import opened GrowingTree
  import opened PriorityQueue
  import opened PrimInvariants

  class PrimMST {
    const adj: seq<seq<Edge>>
    var marked: seq<bool>
    var edgeTo: seq<Option<Edge>>
    var distTo: seq<Dist>
    const pq: IndexMinPQ
    /** The parent edges of the marked vertices, in the order the vertices were marked. */
    ghost var tree: seq<Edge>

    /** The result: the marked vertices are exactly those connected to 0; every other
        marked vertex has a parent edge, a graph edge to a marked vertex as heavy as its
        distance; and the parent edges, taken in the order their vertices were marked,
        form a forest that connects every marked vertex to 0. */
    ghost predicate Valid()
      reads this
    {
      && |marked| == |adj| && |edgeTo| == |adj| && |distTo| == |adj| && 0 < |adj|
      && (forall u :: 0 <= u < |adj| ==> (marked[u] <==> Joined(GraphEdges(adj), 0, u)))
      && ParentsOk(adj, marked, edgeTo, distTo)
      && (forall w :: 0 < w < |adj| ==> (edgeTo[w].Some? <==> marked[w]))
      && TreeMarked(adj, marked, tree) && Reaches(marked, tree) && Forest(tree)
      && |TrueSet(marked)| == |tree| + 1
      && multiset(Somes(edgeTo)) == multiset(tree)
    }

    ghost predicate Running()
      reads this, pq, pq.keys, pq.pq, pq.qp
    {
      pq.Valid() && pq.maxN == |adj| && Inv(adj, marked, edgeTo, distTo, pq.Contents(), tree)
    }

    /** Queues vertex 0 with distance 0, then visits the vertex removed from the heap
        while it is not empty. The graph must have a vertex 0. */
    constructor (adj: seq<seq<Edge>>)
      requires WellFormed(adj) && 0 < |adj|
      ensures this.adj == adj && Valid()
    {
      var n := |adj|;
      this.adj := adj;
      marked := seq(n, _ => false);
      edgeTo := seq(n, _ => None);
      distTo := InitialDist(n);
      pq := new IndexMinPQ(n);
      tree := [];
      new;
      pq.Insert(0, 0);
      InvStart(adj);
      while pq.NonEmpty()
        invariant Running()
        invariant fresh(pq) && fresh(pq.keys) && fresh(pq.pq) && fresh(pq.qp)
        decreases |adj| - |TrueSet(marked)|
      {
        TrueSetSize(marked);
        ghost var before := pq.Contents();
        var r := pq.DelMin();
        Visit(r.value, before);
        TrueSetSize(marked);
      }
      InvFinish(adj, marked, edgeTo, distTo, tree);
    }

    /** `_visit(vertex)`: marks v, just removed from the heap, and offers each of its
        edges to the far end. */
    method Visit(v: nat, ghost before: map<int, int>)
      requires pq.Valid() && pq.maxN == |adj| && Inv(adj, marked, edgeTo, distTo, before, tree)
      requires v in before && pq.Contents() == before - {v}
      modifies this, pq, pq.keys, pq.pq, pq.qp
      ensures Running() && |TrueSet(marked)| == old(|TrueSet(marked)|) + 1
    {
      ghost var m, et, d, t := marked, edgeTo, distTo, tree;
      MarkKeeps(adj, m, et, d, before, t, v);
      TrueSetMark(m, v);
      Mark(v);
      OfferAll(v, m[v := true], et, d, before - {v}, Grown(t, et, v));
    }

    /** `self.marked[vertex_v] = True`; the tree gains v's parent edge. */
    method Mark(v: nat)
      requires v < |marked| && v < |edgeTo|
      modifies this
      ensures marked == old(marked)[v := true] && tree == Grown(old(tree), old(edgeTo), v)
      ensures edgeTo == old(edgeTo) && distTo == old(distTo)
    {
      tree := Grown(tree, edgeTo, v);
      marked := marked[v := true];
    }

    /** The loop of `_visit` over the edges of the marked vertex v. */
    method OfferAll(v: nat, ghost m: seq<bool>, ghost et: seq<Option<Edge>>, ghost d: seq<Dist>, ghost c: map<int, int>, ghost t: seq<Edge>)
      requires pq.Valid() && pq.maxN == |adj|
      requires marked == m && tree == t && edgeTo == et && distTo == d && pq.Contents() == c
      requires Scanning(adj, m, et, d, c, t, v, 0)
      modifies this, pq, pq.keys, pq.pq, pq.qp
      ensures Running() && marked == old(marked)
    {
      ghost var et, d, c := et, d, c;
      var edges := adj[v];
      for i := 0 to |edges|
        invariant pq.Valid() && pq.maxN == |adj|
        invariant marked == m && tree == t && edgeTo == et && distTo == d && pq.Contents() == c
        invariant Scanning(adj, m, et, d, c, t, v, i)
      {
        ScanStep(adj, m, et, d, c, t, v, i);
        Offer(edges[i], v);
        et, d, c := edgeTo, distTo, pq.Contents();
      }
      ScanDone(adj, m, et, d, c, t, v);
    }

    /** The loop body of `_visit`: an edge to an unmarked vertex that is lighter than its
        distance becomes its parent, and the vertex is queued with the new distance. */
    method Offer(e: Edge, v: nat)
      requires pq.Valid() && pq.maxN == |adj| && |marked| == |adj| && |edgeTo| == |adj| && |distTo| == |adj| && 0 < |adj|
      requires EndOf(e, v) && e.v < |adj| && e.w < |adj| && QueueOk(adj, marked, distTo, pq.Contents())
      modifies this, pq, pq.keys, pq.pq, pq.qp
      ensures pq.Valid() && marked == old(marked) && tree == old(tree)
      ensures var w := Other(e, v);
              if !marked[w] && Lighter(e.weight, old(distTo)[w]) then
                && edgeTo == old(edgeTo)[w := Some(e)] && distTo == old(distTo)[w := Fin(e.weight)]
                && pq.Contents() == old(pq.Contents())[w := e.weight]
              else
                edgeTo == old(edgeTo) && distTo == old(distTo) && pq.Contents() == old(pq.Contents())
    {
      var w := Other(e, v);
      if marked[w] {
        return;
      }
      if Lighter(e.weight, distTo[w]) {
        OfferQueue(adj, marked, distTo, pq.Contents(), w, e.weight);
        edgeTo := edgeTo[w := Some(e)];
        distTo := distTo[w := Fin(e.weight)];
        Enqueue(w, e.weight);
      }
    }

    /** Queues w with the given key: `decrease_key` when w is queued already, with a key
        that must be strictly smaller, and `insert` otherwise, when there is room. */
    method Enqueue(w: nat, key: int)
      requires pq.Valid() && w < pq.maxN
      requires w in pq.Contents() ==> key < pq.Contents()[w]
      requires w !in pq.Contents() ==> |pq.Contents()| < pq.maxN
      modifies pq, pq.keys, pq.pq, pq.qp
      ensures pq.Valid() && pq.Contents() == old(pq.Contents())[w := key]
    {
      QueueSize(pq.pq[..], pq.qp[..], pq.keys[..], pq.n);
      if pq.Contains(w) {
        var r := pq.DecreaseKey(w, key);
        assert r == Pass;
      } else {
        pq.Insert(w, key);
      }
    }

    /** `edges()`: the parent edges in vertex order. They are graph edges, one fewer than
        the vertices connected to 0, they connect all of those to 0, and in the order their
        vertices were marked they form a forest. */
    function Edges(): (r: seq<Edge>)
      requires Valid()
      reads this
      ensures multiset(r) == multiset(tree) && Forest(tree)
      ensures forall e :: e in r ==> e in GraphEdges(adj)
      ensures forall u :: 0 <= u < |adj| && Joined(GraphEdges(adj), 0, u) ==> Joined(Elems(r), 0, u)
      ensures |r| + 1 == |TrueSet(marked)|
    {
      var r := Somes(edgeTo);
      Reordered(adj, marked, r, tree);
      r
    }
  }
}
