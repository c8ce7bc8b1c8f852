/**
  `ConnectedComponents` of undirected_graph_algorithms: a depth-first search from each
  vertex not yet marked, in increasing order, giving every vertex it reaches the number of
  the search. The numbers are the connected components, numbered in order of their least
  vertex.
*/
module UndirectedComponents {
  import opened Common
  import opened DepthFirst
  import opened UndirectedGraphs

  /** `IndexError`: a vertex outside the `marked` and `id` lists. */
  datatype QueryError = OutOfRange

  /** What holds throughout: the searches started at increasing roots, each marked vertex
      carries the number of a search, was reached from that search's root, and is no
      smaller than that root. */
  ghost predicate Numbered(adj: seq<set<nat>>, marked: seq<bool>, id: seq<nat>, roots: seq<nat>)
  {
    && |marked| == |adj| && |id| == |adj|
    && (forall i :: 0 <= i < |roots| ==> roots[i] < |adj| && (marked[roots[i]] ==> id[roots[i]] == i))
    && (forall i, j :: 0 <= i < j < |roots| ==> roots[i] < roots[j])
    && (forall u :: 0 <= u < |adj| && marked[u] ==>
          id[u] < |roots| && roots[id[u]] <= u && Connected(adj, roots[id[u]], u))
  }

  /** Every marked vertex off the stack has its neighbours marked, with its own number. */
  ghost predicate Spread(adj: seq<set<nat>>, marked: seq<bool>, id: seq<nat>, stack: seq<nat>)
    requires |marked| == |adj| && |id| == |adj|
  {
    forall u: nat, x: nat {:trigger x in adj[u]} :: u < |adj| && marked[u] && u !in stack && x in adj[u] && x < |adj| ==>
      marked[x] && id[x] == id[u]
  }

  /** The stack holds marked vertices of the component c. */
  ghost predicate Current(adj: seq<set<nat>>, marked: seq<bool>, id: seq<nat>, c: nat, stack: seq<nat>)
    requires |marked| == |adj| && |id| == |adj|
  {
    forall k :: 0 <= k < |stack| ==> stack[k] < |adj| && marked[stack[k]] && id[stack[k]] == c
  }

  /** The state during the search from the last root: the stack in its component, every
      vertex below the root marked. */
  ghost predicate Exploring(adj: seq<set<nat>>, marked: seq<bool>, id: seq<nat>, roots: seq<nat>, stack: seq<nat>)
  {
    && roots != [] && Numbered(adj, marked, id, roots)
    && Spread(adj, marked, id, stack)
    && Current(adj, marked, id, |roots| - 1, stack)
    && (forall u :: 0 <= u < roots[|roots| - 1] ==> marked[u])
  }

  /** A new root, the least unmarked vertex, starts a search. */
  lemma Begin(adj: seq<set<nat>>, marked: seq<bool>, id: seq<nat>, roots: seq<nat>, r: nat)
    requires Numbered(adj, marked, id, roots) && Spread(adj, marked, id, [])
    requires r < |adj| && !marked[r] && (forall u :: 0 <= u < r ==> marked[u])
    requires forall i :: 0 <= i < |roots| ==> roots[i] < r
    ensures Exploring(adj, marked, id, roots + [r], []) && Connected(adj, r, r)
  {
    ConnectedRefl(adj, r);
    var roots' := roots + [r];
    forall u | 0 <= u < |adj| && marked[u]
      ensures id[u] < |roots'| && roots'[id[u]] <= u && Connected(adj, roots'[id[u]], u)
    {
      assert roots'[id[u]] == roots[id[u]];
    }
  }

  /** Marking v, unmarked and reached from the last root, with that root's number keeps
      the numbering. */
  lemma MarkNumbered(adj: seq<set<nat>>, marked: seq<bool>, id: seq<nat>, roots: seq<nat>, v: nat)
    requires roots != [] && Numbered(adj, marked, id, roots)
    requires forall u :: 0 <= u < roots[|roots| - 1] ==> marked[u]
    requires v < |adj| && !marked[v] && Connected(adj, roots[|roots| - 1], v)
    ensures Numbered(adj, marked[v := true], id[v := |roots| - 1], roots)
  {
    var c := |roots| - 1;
    var m, d := marked[v := true], id[v := c];
    forall i | 0 <= i < |roots|
      ensures roots[i] < |adj| && (m[roots[i]] ==> d[roots[i]] == i)
    {
    }
    forall u | 0 <= u < |adj| && m[u]
      ensures d[u] < |roots| && roots[d[u]] <= u && Connected(adj, roots[d[u]], u)
    {
    }
  }

  /** The vertex on top of the stack is marked, in the component c. */
  lemma Top(adj: seq<set<nat>>, marked: seq<bool>, id: seq<nat>, c: nat, stack: seq<nat>, v: nat)
    requires |marked| == |adj| && |id| == |adj| && Current(adj, marked, id, c, stack + [v])
    ensures v < |adj| && marked[v] && id[v] == c
  {
    assert (stack + [v])[|stack|] == v;
  }

  /** Marking v with the number c and pushing it keeps the stack in the component c. */
  lemma MarkCurrent(adj: seq<set<nat>>, marked: seq<bool>, id: seq<nat>, c: nat, stack: seq<nat>, v: nat)
    requires |marked| == |adj| && |id| == |adj| && Current(adj, marked, id, c, stack) && v < |adj|
    ensures Current(adj, marked[v := true], id[v := c], c, stack + [v])
  {
    var m, d := marked[v := true], id[v := c];
    forall k | 0 <= k < |stack + [v]|
      ensures (stack + [v])[k] < |adj| && m[(stack + [v])[k]] && d[(stack + [v])[k]] == c
    {
      if k < |stack| {
        assert (stack + [v])[k] == stack[k];
      }
    }
  }

  /** Every vertex of s is marked. */
  ghost predicate AllMarked(s: set<nat>, marked: seq<bool>)
  {
    forall x :: x in s ==> x < |marked| && marked[x]
  }

  /** Marks are never cleared, so a marked set stays marked. */
  lemma GrowsAllMarked(s: set<nat>, m0: seq<bool>, m1: seq<bool>)
    requires AllMarked(s, m0) && Grows(m0, m1)
    ensures AllMarked(s, m1)
  {
  }

  /** Taking a marked w out of the neighbours still to visit. */
  lemma AllMarkedTake(s: set<nat>, rest: set<nat>, w: nat, marked: seq<bool>)
    requires AllMarked(s - rest, marked) && w < |marked| && marked[w]
    ensures AllMarked(s - (rest - {w}), marked)
  {
  }

  /** Marking an unmarked v and pushing it keeps the vertices off the stack settled. */
  lemma MarkSpread(adj: seq<set<nat>>, marked: seq<bool>, id: seq<nat>, stack: seq<nat>, v: nat, c: nat)
    requires |marked| == |adj| && |id| == |adj| && Spread(adj, marked, id, stack)
    requires v < |adj| && !marked[v]
    ensures Spread(adj, marked[v := true], id[v := c], stack + [v])
  {
    var m, d := marked[v := true], id[v := c];
    forall u: nat, x: nat | u < |adj| && m[u] && u !in stack + [v] && x in adj[u] && x < |adj|
      ensures m[x] && d[x] == d[u]
    {
      assert u != v && u !in stack;
      assert marked[x];
    }
  }

  /** Marking v and pushing it. */
  lemma Mark(adj: seq<set<nat>>, marked: seq<bool>, id: seq<nat>, roots: seq<nat>, stack: seq<nat>, v: nat)
    requires Exploring(adj, marked, id, roots, stack)
    requires v < |adj| && !marked[v] && Connected(adj, roots[|roots| - 1], v)
    ensures Exploring(adj, marked[v := true], id[v := |roots| - 1], roots, stack + [v])
  {
    MarkNumbered(adj, marked, id, roots, v);
    MarkSpread(adj, marked, id, stack, v, |roots| - 1);
    MarkCurrent(adj, marked, id, |roots| - 1, stack, v);
  }

  /** Once every neighbour of v is marked, popping v keeps the stack state: a neighbour on
      the stack is in v's component, and one off it is settled with v as its neighbour. */
  lemma FinishSpread(adj: seq<set<nat>>, marked: seq<bool>, id: seq<nat>, c: nat, stack: seq<nat>, v: nat)
    requires Symmetric(adj) && |marked| == |adj| && |id| == |adj| && v < |adj|
    requires Spread(adj, marked, id, stack + [v]) && Current(adj, marked, id, c, stack + [v])
    requires AllMarked(adj[v], marked)
    ensures Spread(adj, marked, id, stack) && Current(adj, marked, id, c, stack)
  {
    assert (stack + [v])[|stack|] == v;
    forall u: nat, x: nat | u < |adj| && marked[u] && u !in stack && x in adj[u] && x < |adj|
      ensures marked[x] && id[x] == id[u]
    {
      if u != v {
        assert u !in stack + [v];
      } else if x in stack {
        var k :| 0 <= k < |stack| && stack[k] == x;
        assert (stack + [v])[k] == x;
      } else if x != v {
        assert x !in stack + [v];
        assert v in adj[x];
      }
    }
    forall k | 0 <= k < |stack|
      ensures stack[k] < |adj| && marked[stack[k]] && id[stack[k]] == c
    {
      assert stack[k] == (stack + [v])[k];
    }
  }

  /** Popping v once every neighbour of it is marked keeps the search state. */
  lemma Finish(adj: seq<set<nat>>, marked: seq<bool>, id: seq<nat>, roots: seq<nat>, stack: seq<nat>, v: nat)
    requires Symmetric(adj) && Exploring(adj, marked, id, roots, stack + [v]) && v < |adj|
    requires AllMarked(adj[v], marked)
    ensures Exploring(adj, marked, id, roots, stack)
  {
    FinishSpread(adj, marked, id, |roots| - 1, stack, v);
  }

  /** A search from the last root that has emptied its stack leaves every vertex up to
      that root marked and the marked vertices settled. */
  lemma Ended(adj: seq<set<nat>>, marked: seq<bool>, id: seq<nat>, roots: seq<nat>)
    requires Exploring(adj, marked, id, roots, [])
    requires roots[|roots| - 1] < |adj| && marked[roots[|roots| - 1]]
    ensures Numbered(adj, marked, id, roots) && Spread(adj, marked, id, [])
    ensures forall u :: 0 <= u <= roots[|roots| - 1] ==> marked[u]
  {
  }

  /** Strictly increasing naturals are at least their positions. */
  lemma {:induction false} RootsAbove(roots: seq<nat>, i: nat)
    requires forall a, b :: 0 <= a < b < |roots| ==> roots[a] < roots[b]
    requires i < |roots|
    ensures i <= roots[i]
  {
    if i > 0 {
      RootsAbove(roots, i - 1);
    }
  }

  /** When every vertex is marked and every component complete, the numbers are exactly
      the components: two vertices share one exactly when a path joins them. */
  lemma Components(adj: seq<set<nat>>, marked: seq<bool>, id: seq<nat>, roots: seq<nat>)
    requires Symmetric(adj) && Numbered(adj, marked, id, roots) && Spread(adj, marked, id, [])
    requires forall u :: 0 <= u < |adj| ==> marked[u]
    ensures forall v, w :: 0 <= v < |adj| && 0 <= w < |adj| ==> (Connected(adj, v, w) <==> id[v] == id[w])
    ensures forall v :: 0 <= v < |adj| ==> id[v] <= v
  {
    assert Uniform(adj, id);
    forall v, w | 0 <= v < |adj| && 0 <= w < |adj|
      ensures Connected(adj, v, w) <==> id[v] == id[w]
    {
      if Connected(adj, v, w) {
        UniformConnected(adj, id, v, w);
      }
      if id[v] == id[w] {
        var r := roots[id[v]];
        ConnectedSym(adj, r, v);
        ConnectedTrans(adj, v, r, w);
      }
    }
    forall v | 0 <= v < |adj|
      ensures id[v] <= v
    {
      RootsAbove(roots, id[v]);
    }
  }

  class ConnectedComponents {
    const adj: seq<set<nat>>
    var marked: seq<bool>
    var id: seq<nat>
    var component: nat
    /** The vertex each search started from. */
    ghost var roots: seq<nat>

    /** The result: every vertex is marked and numbered below the count, two vertices
        share a number exactly when they are connected, and the components are numbered
        in order of their least vertex, the search roots. */
    ghost predicate Valid()
      reads this
    {
      && |marked| == |adj| && |id| == |adj| && component == |roots|
      && (forall v :: 0 <= v < |adj| ==> marked[v] && id[v] < component && id[v] <= v)
      && (forall v, w :: 0 <= v < |adj| && 0 <= w < |adj| ==> (UndirectedGraphs.Connected(adj, v, w) <==> id[v] == id[w]))
      && (forall i :: 0 <= i < |roots| ==> roots[i] < |adj| && id[roots[i]] == i)
      && (forall i, j :: 0 <= i < j < |roots| ==> roots[i] < roots[j])
      && (forall v :: 0 <= v < |adj| ==> roots[id[v]] <= v)
    }

    /** Searches from every vertex not yet marked, in increasing order, numbering the
        searches from 0. */
    constructor (adj: seq<set<nat>>)
      requires Symmetric(adj)
      ensures this.adj == adj && Valid()
    {
      this.adj := adj;
      marked := seq(|adj|, _ => false);
      id := seq(|adj|, _ => 0);
      component := 0;
      roots := [];
      new;
      for vertex := 0 to |adj|
        invariant Numbered(adj, marked, id, roots) && Spread(adj, marked, id, []) && component == |roots|
        invariant forall u :: 0 <= u < vertex ==> marked[u]
        invariant forall i :: 0 <= i < |roots| ==> roots[i] < vertex
      {
        Visit(vertex);
      }
      Components(adj, marked, id, roots);
    }

    /** The body of the constructor's loop: a new search, numbered `component`, from a
        vertex no earlier search reached. */
    method Visit(vertex: nat)
      requires Symmetric(adj) && vertex < |adj|
      requires Numbered(adj, marked, id, roots) && Spread(adj, marked, id, []) && component == |roots|
      requires forall u :: 0 <= u < vertex ==> marked[u]
      requires forall i :: 0 <= i < |roots| ==> roots[i] < vertex
      modifies this
      ensures Numbered(adj, marked, id, roots) && Spread(adj, marked, id, []) && component == |roots|
      ensures forall u :: 0 <= u <= vertex ==> marked[u]
      ensures forall i :: 0 <= i < |roots| ==> roots[i] <= vertex
    {
      if !marked[vertex] {
        Begin(adj, marked, id, roots, vertex);
        roots := roots + [vertex];
        Dfs(vertex, []);
        Ended(adj, marked, id, roots);
        component := component + 1;
      }
    }

    /** `_dfs(vertex, component)`: marks v with the current number, then visits its
        neighbours. */
    method Dfs(v: nat, ghost stack: seq<nat>)
      requires Symmetric(adj) && Exploring(adj, marked, id, roots, stack) && component == |roots| - 1
      requires v < |adj| && !marked[v] && UndirectedGraphs.Connected(adj, roots[component], v)
      modifies this
      ensures Exploring(adj, marked, id, roots, stack) && roots == old(roots) && component == old(component)
      ensures Grows(old(marked), marked) && marked[v]
      decreases Unmarked(marked), 0
    {
      Mark(adj, marked, id, roots, stack, v);
      marked := marked[v := true];
      id := id[v := component];
      assert v in Unmarked(old(marked)) && Unmarked(marked) < Unmarked(old(marked));
      Neighbours(v, stack);
      Finish(adj, marked, id, roots, stack, v);
    }

    /** The loop of `_dfs` over the neighbours of v, in any order: afterwards all of them
        are marked. */
    method Neighbours(v: nat, ghost stack: seq<nat>)
      requires Symmetric(adj) && Exploring(adj, marked, id, roots, stack + [v]) && component == |roots| - 1
      requires v < |adj|
      modifies this
      ensures Exploring(adj, marked, id, roots, stack + [v]) && roots == old(roots) && component == old(component)
      ensures Grows(old(marked), marked) && AllMarked(adj[v], marked)
      decreases Unmarked(marked), 2
    {
      var rest := adj[v];
      while rest != {}
        invariant Exploring(adj, marked, id, roots, stack + [v]) && roots == old(roots) && component == old(component)
        invariant Grows(old(marked), marked) && rest <= adj[v]
        invariant AllMarked(adj[v] - rest, marked)
        decreases rest
      {
        var w :| w in rest;
        ghost var before := marked;
        GrowsUnmarked(old(marked), marked);
        Top(adj, marked, id, component, stack, v);
        Step(v, w, stack);
        GrowsAllMarked(adj[v] - rest, before, marked);
        AllMarkedTake(adj[v], rest, w, marked);
        rest := rest - {w};
      }
    }

    /** The body of that loop for the neighbour w of v: a search from w when it is
        unmarked. */
    method Step(v: nat, w: nat, ghost stack: seq<nat>)
      requires Symmetric(adj) && Exploring(adj, marked, id, roots, stack + [v]) && component == |roots| - 1
      requires v < |adj| && marked[v] && id[v] == component && w in adj[v]
      modifies this
      ensures Exploring(adj, marked, id, roots, stack + [v]) && roots == old(roots) && component == old(component)
      ensures Grows(old(marked), marked) && marked[w]
      decreases Unmarked(marked), 1
    {
      if !marked[w] {
        ConnectedStep(adj, roots[component], v, w);
        Dfs(w, stack + [v]);
      }
    }

    /** `connected(v, w)`: whether v and w carry the same number, that is, whether a path
        joins them; `IndexError` outside the graph. */
    function Connected(v: nat, w: nat): (r: Result<bool, QueryError>)
      requires Valid()
      reads this
      ensures r.Ok? <==> v < |adj| && w < |adj|
      ensures r.Ok? ==> (r.value <==> UndirectedGraphs.Connected(adj, v, w))
    {
      if v < |id| && w < |id| then Ok(id[v] == id[w]) else Err(OutOfRange)
    }

    /** `count()`: the number of searches, which is the number of components: every
        vertex is numbered below it and every number below it has its root. */
    function Count(): (r: nat)
      requires Valid()
      reads this
      ensures forall v :: 0 <= v < |adj| ==> id[v] < r
      ensures |roots| == r && forall i :: 0 <= i < r ==> roots[i] < |adj| && id[roots[i]] == i
    {
      component
    }

    /** `id_vertex(v)`: the number of v's component, no larger than v; `IndexError`
        outside the graph. */
    function IdVertex(v: nat): (r: Result<nat, QueryError>)
      requires Valid()
      reads this
      ensures r.Ok? <==> v < |adj|
      ensures r.Ok? ==> r.value == id[v] && r.value < Count() && r.value <= v
    {
      if v < |id| then Ok(id[v]) else Err(OutOfRange)
    }
  }
}
