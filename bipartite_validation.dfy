/**
  `BipartiteValidation` of undirected_graph_algorithms: a depth-first search from each
  vertex not yet marked, in increasing order, giving every vertex it reaches the colour
  opposite to the vertex it was reached from, and clearing the flag when an edge joins two
  marked vertices of one colour. The roots keep their initial colour -1, and no new search
  starts once the flag is clear.

  The numbering of the searches is kept as ghost state, the same as the numbering
  `ConnectedComponents` stores: it tells that the two ends of an edge the search looks at
  lie in one search tree.
*/
module BipartiteValidations {
  import opened DepthFirst
  import opened UndirectedGraphs
  import opened UndirectedComponents

  /** A colouring of the vertices by two colours that gives the ends of every edge
      different colours. */
  ghost predicate Proper(adj: seq<set<nat>>, col: seq<bool>)
  {
    |col| == |adj| && forall u, x :: 0 <= u < |adj| && x in adj[u] && x < |adj| ==> col[u] != col[x]
  }

  /** The graph is bipartite: it has such a colouring. */
  ghost predicate TwoColourable(adj: seq<set<nat>>)
  {
    exists col :: Proper(adj, col)
  }

  /** A path runs from r to u over an even number of edges when `even` holds, over an odd
      number otherwise. */
  ghost predicate Walk(adj: seq<set<nat>>, r: nat, u: nat, even: bool)
  {
    exists p :: IsPath(adj, p) && p[0] == r && p[|p| - 1] == u && (|p| % 2 == 1 <==> even)
  }

  /** Every colour is -1 or 1. */
  ghost predicate Colours(color: seq<int>)
  {
    forall u :: 0 <= u < |color| ==> color[u] == -1 || color[u] == 1
  }

  /** Every unmarked vertex has the initial colour -1. */
  ghost predicate Blank(marked: seq<bool>, color: seq<int>)
  {
    |color| == |marked| && forall u :: 0 <= u < |marked| && !marked[u] ==> color[u] == -1
  }

  /** Every marked vertex is reached from the root of its search over an even number of
      edges exactly when it has the root's colour -1. */
  ghost predicate Parity(adj: seq<set<nat>>, marked: seq<bool>, id: seq<nat>, roots: seq<nat>, color: seq<int>)
  {
    && |marked| == |adj| && |id| == |adj| && |color| == |adj|
    && forall u :: 0 <= u < |adj| && marked[u] ==> id[u] < |roots| && Walk(adj, roots[id[u]], u, color[u] == -1)
  }

  /** Every marked vertex off the stack has the opposite colour to each of its neighbours. */
  ghost predicate Opposite(adj: seq<set<nat>>, marked: seq<bool>, color: seq<int>, stack: seq<nat>)
    requires |marked| == |adj| && |color| == |adj|
  {
    forall u: nat, x: nat {:trigger x in adj[u]} :: u < |adj| && marked[u] && u !in stack && x in adj[u] && x < |adj| ==>
      color[x] == -color[u]
  }

  /** The neighbours of v in `done` have the opposite colour to v. */
  ghost predicate Examined(color: seq<int>, v: nat, done: set<nat>)
    requires v < |color|
  {
    forall x :: x in done ==> x < |color| && color[x] == -color[v]
  }

  /** The colours of the vertices marked in m are the same in c0 and c1. */
  ghost predicate Kept(m: seq<bool>, c0: seq<int>, c1: seq<int>)
  {
    |c0| == |m| && |c1| == |m| && forall u :: 0 <= u < |m| && m[u] ==> c1[u] == c0[u]
  }

  /** The colours of a graph whose every edge joins opposite colours, read as a two-colouring. */
  function TwoColours(color: seq<int>): (col: seq<bool>)
    ensures |col| == |color| && forall u :: 0 <= u < |color| ==> (col[u] <==> color[u] == 1)
  {
    seq(|color|, u requires 0 <= u < |color| => color[u] == 1)
  }

  /** Along a path, a proper colouring changes at every edge: the ends of a path over an
      even number of edges have one colour, those of a path over an odd number two. */
  lemma {:induction false} Alternates(adj: seq<set<nat>>, col: seq<bool>, p: seq<nat>)
    requires Proper(adj, col) && IsPath(adj, p)
    ensures col[p[|p| - 1]] == col[p[0]] <==> |p| % 2 == 1
    decreases |p|
  {
    if |p| > 1 {
      var q := p[..|p| - 1];
      assert IsPath(adj, q);
      Alternates(adj, col, q);
      assert p[|p| - 1] in adj[p[|p| - 2]];
    }
  }

  /** Two walks from one root whose parities agree, ending at the two ends of an edge,
      make an odd closed walk, which no proper colouring has. */
  lemma Clash(adj: seq<set<nat>>, r: nat, u: nat, x: nat, even: bool)
    requires Walk(adj, r, u, even) && Walk(adj, r, x, even)
    requires u < |adj| && x in adj[u] && x < |adj|
    ensures !TwoColourable(adj)
  {
    if col :| Proper(adj, col) {
      var p :| IsPath(adj, p) && p[0] == r && p[|p| - 1] == u && (|p| % 2 == 1 <==> even);
      var q :| IsPath(adj, q) && q[0] == r && q[|q| - 1] == x && (|q| % 2 == 1 <==> even);
      Alternates(adj, col, p);
      Alternates(adj, col, q);
    }
  }

  /** The root starts with the one-vertex walk, over no edges. */
  lemma WalkRefl(adj: seq<set<nat>>, r: nat)
    requires r < |adj|
    ensures Walk(adj, r, r, true)
  {
    assert IsPath(adj, [r]);
  }

  /** A walk to u goes on to a neighbour w of u, one edge longer. */
  lemma WalkStep(adj: seq<set<nat>>, r: nat, u: nat, w: nat, even: bool)
    requires Walk(adj, r, u, even) && u < |adj| && w in adj[u] && w < |adj|
    ensures Walk(adj, r, w, !even)
  {
    var p :| IsPath(adj, p) && p[0] == r && p[|p| - 1] == u && (|p| % 2 == 1 <==> even);
    var q := p + [w];
    assert IsPath(adj, q) && q[0] == r && q[|q| - 1] == w;
  }

  /** A proper colouring read from colours that are opposite along every edge. */
  lemma Coloured(adj: seq<set<nat>>, marked: seq<bool>, color: seq<int>)
    requires |marked| == |adj| && |color| == |adj| && Colours(color)
    requires Opposite(adj, marked, color, []) && forall u :: 0 <= u < |adj| ==> marked[u]
    ensures Proper(adj, TwoColours(color)) && TwoColourable(adj)
  {
    var col := TwoColours(color);
    forall u, x | 0 <= u < |adj| && x in adj[u] && x < |adj|
      ensures col[u] != col[x]
    {
      assert color[x] == -color[u];
    }
  }

  /** The state between two searches: the parities of the marked vertices, their
      neighbours marked with their number, colours -1 and 1, the unmarked vertices with
      colour -1; while the flag holds every marked vertex has its neighbours' opposite
      colour, and once it is clear the graph is not bipartite. */
  ghost predicate Between(adj: seq<set<nat>>, marked: seq<bool>, id: seq<nat>, roots: seq<nat>, color: seq<int>, flag: bool)
  {
    && Parity(adj, marked, id, roots, color) && Spread(adj, marked, id, [])
    && Colours(color) && Blank(marked, color)
    && (flag ==> Opposite(adj, marked, color, []))
    && (!flag ==> !TwoColourable(adj))
  }

  /** The state during the search from the last root, with the stack of active vertices:
      as between searches, with the vertices on the stack not yet finished and numbered
      with the last root. */
  ghost predicate State(adj: seq<set<nat>>, marked: seq<bool>, id: seq<nat>, roots: seq<nat>, color: seq<int>, flag: bool, stack: seq<nat>)
  {
    && roots != [] && Parity(adj, marked, id, roots, color)
    && Spread(adj, marked, id, stack) && Current(adj, marked, id, |roots| - 1, stack)
    && Colours(color)
    && (flag ==> Opposite(adj, marked, color, stack))
    && (!flag ==> !TwoColourable(adj))
  }

  /** A new search from an unmarked vertex r: r joins the roots, reached over no edges
      with its initial colour -1, and the walks of the vertices marked before keep their
      roots. */
  lemma Root(adj: seq<set<nat>>, marked: seq<bool>, id: seq<nat>, roots: seq<nat>, color: seq<int>, flag: bool, r: nat)
    requires Between(adj, marked, id, roots, color, flag) && r < |adj| && !marked[r]
    ensures State(adj, marked, id, roots + [r], color, flag, []) && Walk(adj, r, r, color[r] == -1)
  {
    WalkRefl(adj, r);
    var roots' := roots + [r];
    forall u | 0 <= u < |adj| && marked[u]
      ensures id[u] < |roots'| && Walk(adj, roots'[id[u]], u, color[u] == -1)
    {
      assert roots'[id[u]] == roots[id[u]];
    }
  }

  /** A search that has emptied its stack leaves the state between searches. */
  lemma Settle(adj: seq<set<nat>>, marked: seq<bool>, id: seq<nat>, roots: seq<nat>, color: seq<int>, flag: bool)
    requires State(adj, marked, id, roots, color, flag, []) && Blank(marked, color)
    ensures Between(adj, marked, id, roots, color, flag)
  {
  }

  /** Marking v, reached from the current root over a walk whose parity matches its
      colour, with the current number keeps the parities and, with v pushed, the
      opposite colours of the finished vertices. */
  lemma Enter(adj: seq<set<nat>>, marked: seq<bool>, id: seq<nat>, roots: seq<nat>, color: seq<int>, stack: seq<nat>, v: nat)
    requires Parity(adj, marked, id, roots, color) && roots != []
    requires v < |adj| && !marked[v] && Walk(adj, roots[|roots| - 1], v, color[v] == -1)
    ensures Parity(adj, marked[v := true], id[v := |roots| - 1], roots, color)
    ensures Opposite(adj, marked, color, stack) ==> Opposite(adj, marked[v := true], color, stack + [v])
  {
    var m := marked[v := true];
    if Opposite(adj, marked, color, stack) {
      forall u: nat, x: nat | u < |adj| && m[u] && u !in stack + [v] && x in adj[u] && x < |adj|
        ensures color[x] == -color[u]
      {
        assert u != v && marked[u] && u !in stack;
      }
    }
  }

  /** Two colours of -1 and 1 have a positive product exactly when they are equal, and are
      opposite otherwise. */
  lemma SameSign(a: int, b: int)
    requires (a == -1 || a == 1) && (b == -1 || b == 1)
    ensures (a * b > 0 <==> a == b) && (a != b <==> b == -a)
  {
  }

  /** The colours of marked vertices that two steps keep are kept by both. */
  lemma KeptTrans(m0: seq<bool>, m1: seq<bool>, c0: seq<int>, c1: seq<int>, c2: seq<int>)
    requires Kept(m0, c0, c1) && Kept(m1, c1, c2) && Grows(m0, m1)
    ensures Kept(m0, c0, c2)
  {
  }

  /** The roots of the searches so far and the new root r keep colour -1 when the
      search from r keeps the colours of the vertices marked before it and of r. */
  lemma RootsKept(m0: seq<bool>, c0: seq<int>, c1: seq<int>, roots: seq<nat>, r: nat)
    requires r < |m0| && Kept(m0[r := true], c0, c1) && c0[r] == -1
    requires forall i :: 0 <= i < |roots| ==> roots[i] < r && c0[roots[i]] == -1
    requires forall u :: 0 <= u < r ==> m0[u]
    ensures forall i :: 0 <= i < |roots + [r]| ==> (roots + [r])[i] <= r && c1[(roots + [r])[i]] == -1
  {
    forall i | 0 <= i < |roots + [r]|
      ensures (roots + [r])[i] <= r && c1[(roots + [r])[i]] == -1
    {
      if i < |roots| {
        assert (roots + [r])[i] == roots[i] && m0[r := true][roots[i]];
      }
    }
  }

  /** Marks are never cleared: the vertices up to r stay marked once r is. */
  lemma GrowsUpTo(m0: seq<bool>, m1: seq<bool>, r: nat)
    requires Grows(m0, m1) && r < |m1| && m1[r] && forall u :: 0 <= u < r ==> m0[u]
    ensures forall u :: 0 <= u <= r ==> m1[u]
  {
  }

  /** One more neighbour of v looked at, with the opposite colour. */
  lemma Look(color: seq<int>, v: nat, done: set<nat>, w: nat, marked: seq<bool>)
    requires v < |color| && Examined(color, v, done) && w < |color| && color[w] == -color[v]
    ensures Examined(color, v, done + {w})
  {
  }

  /** Colours kept on marked vertices keep the neighbours looked at opposite to v. */
  lemma KeptExamined(marked: seq<bool>, c0: seq<int>, c1: seq<int>, v: nat, done: set<nat>)
    requires Kept(marked, c0, c1) && v < |marked| && marked[v] && AllMarked(done, marked)
    requires Examined(c0, v, done)
    ensures Examined(c1, v, done)
  {
  }

  /** Once every neighbour of v has the opposite colour, popping v keeps the finished
      vertices opposite to their neighbours. */
  lemma Leave(adj: seq<set<nat>>, marked: seq<bool>, color: seq<int>, stack: seq<nat>, v: nat)
    requires |marked| == |adj| && |color| == |adj|
    requires Opposite(adj, marked, color, stack + [v]) && v < |adj|
    requires Examined(color, v, adj[v])
    ensures Opposite(adj, marked, color, stack)
  {
    forall u: nat, x: nat | u < |adj| && marked[u] && u !in stack && x in adj[u] && x < |adj|
      ensures color[x] == -color[u]
    {
      if u != v {
        assert u !in stack + [v];
      }
    }
  }

  /** Marking v, reached over a walk whose parity matches its colour, and pushing it. */
  lemma Descend(adj: seq<set<nat>>, marked: seq<bool>, id: seq<nat>, roots: seq<nat>, color: seq<int>, flag: bool, stack: seq<nat>, v: nat)
    requires State(adj, marked, id, roots, color, flag, stack)
    requires v < |adj| && !marked[v] && Walk(adj, roots[|roots| - 1], v, color[v] == -1)
    ensures State(adj, marked[v := true], id[v := |roots| - 1], roots, color, flag, stack + [v])
  {
    Enter(adj, marked, id, roots, color, stack, v);
    MarkSpread(adj, marked, id, stack, v, |roots| - 1);
    MarkCurrent(adj, marked, id, |roots| - 1, stack, v);
  }

  /** Colouring the unmarked neighbour w of v with the colour opposite to v keeps the
      state: neither the marked vertices nor, by the numbering, the neighbours of the
      finished ones include w, and only w loses the initial colour. The walk to v, one
      edge longer, reaches w with the parity of its new colour. */
  lemma Paint(adj: seq<set<nat>>, marked: seq<bool>, id: seq<nat>, roots: seq<nat>, color: seq<int>, flag: bool, stack: seq<nat>, v: nat, w: nat)
    requires State(adj, marked, id, roots, color, flag, stack) && Blank(marked, color)
    requires v < |adj| && marked[v] && id[v] == |roots| - 1 && w in adj[v] && w < |adj| && !marked[w]
    ensures State(adj, marked, id, roots, color[w := -color[v]], flag, stack)
    ensures Blank(marked[w := true], color[w := -color[v]]) && Kept(marked, color, color[w := -color[v]])
    ensures Walk(adj, roots[|roots| - 1], w, color[w := -color[v]][w] == -1)
  {
    var c := color[w := -color[v]];
    forall u | 0 <= u < |adj| && marked[u]
      ensures id[u] < |roots| && Walk(adj, roots[id[u]], u, c[u] == -1)
    {
      assert c[u] == color[u];
    }
    if flag {
      forall u: nat, x: nat | u < |adj| && marked[u] && u !in stack && x in adj[u] && x < |adj|
        ensures c[x] == -c[u]
      {
        assert marked[x];
      }
    }
    WalkStep(adj, roots[|roots| - 1], v, w, color[v] == -1);
    assert (c[w] == -1) == !(color[v] == -1);
  }

  /** Once every neighbour of v is marked and, while the flag holds, of the opposite
      colour, v is popped. */
  lemma Retreat(adj: seq<set<nat>>, marked: seq<bool>, id: seq<nat>, roots: seq<nat>, color: seq<int>, flag: bool, stack: seq<nat>, v: nat)
    requires Symmetric(adj) && State(adj, marked, id, roots, color, flag, stack + [v]) && v < |adj|
    requires AllMarked(adj[v], marked) && (flag ==> Examined(color, v, adj[v]))
    ensures State(adj, marked, id, roots, color, flag, stack)
  {
    FinishSpread(adj, marked, id, |roots| - 1, stack, v);
    if flag {
      Leave(adj, marked, color, stack, v);
    }
  }

  /** An edge from v on the stack to a marked w of the same colour: both are in the
      current search tree, so their walks from its root have one parity, the graph has an
      odd closed walk, and clearing the flag keeps the state. */
  lemma Conflict(adj: seq<set<nat>>, marked: seq<bool>, id: seq<nat>, roots: seq<nat>, color: seq<int>, flag: bool, stack: seq<nat>, v: nat, w: nat)
    requires Symmetric(adj) && State(adj, marked, id, roots, color, flag, stack + [v])
    requires v < |adj| && marked[v] && id[v] == |roots| - 1 && w in adj[v] && marked[w] && color[w] == color[v]
    ensures !TwoColourable(adj) && State(adj, marked, id, roots, color, false, stack + [v])
  {
    assert w < |adj| && v in adj[w];
    if w in stack + [v] {
      var k :| 0 <= k < |stack + [v]| && (stack + [v])[k] == w;
    }
    assert id[w] == id[v];
    Clash(adj, roots[id[v]], v, w, color[v] == -1);
  }

  class BipartiteValidation {
    const adj: seq<set<nat>>
    var marked: seq<bool>
    var color: seq<int>
    var bipartite: bool
    /** The number of the search that reached each vertex, and the vertex each search
        started from. */
    ghost var id: seq<nat>
    ghost var roots: seq<nat>

    /** The result: the flag tells whether the graph is bipartite; when it is, the
        colours are a two-colouring; the roots have colour -1 and every colour is -1 or 1. */
    ghost predicate Valid()
      reads this
    {
      && |marked| == |adj| && |color| == |adj| && Colours(color)
      && (bipartite <==> TwoColourable(adj))
      && (bipartite ==> forall u, x :: 0 <= u < |adj| && x in adj[u] && x < |adj| ==> color[x] == -color[u])
      && (forall i :: 0 <= i < |roots| ==> roots[i] < |adj| && color[roots[i]] == -1)
    }

    /** Searches from every vertex not yet marked, in increasing order, while the flag
        holds. */
    constructor (adj: seq<set<nat>>)
      requires Symmetric(adj)
      ensures this.adj == adj && Valid()
    {
      this.adj := adj;
      marked := seq(|adj|, _ => false);
      color := seq(|adj|, _ => -1);
      bipartite := true;
      id := seq(|adj|, _ => 0);
      roots := [];
      new;
      var vertex := 0;
      while vertex < |adj| && bipartite
        invariant vertex <= |adj| && Between(adj, marked, id, roots, color, bipartite)
        invariant forall u :: 0 <= u < vertex ==> marked[u]
        invariant forall i :: 0 <= i < |roots| ==> roots[i] < vertex && color[roots[i]] == -1
      {
        Visit(vertex);
        vertex := vertex + 1;
      }
      if bipartite {
        Coloured(adj, marked, color);
      }
    }

    /** The body of the constructor's loop: a new search from a vertex no earlier search
        reached, its root keeping colour -1. */
    method Visit(vertex: nat)
      requires Symmetric(adj) && vertex < |adj| && Between(adj, marked, id, roots, color, bipartite)
      requires forall u :: 0 <= u < vertex ==> marked[u]
      requires forall i :: 0 <= i < |roots| ==> roots[i] < vertex && color[roots[i]] == -1
      modifies this
      ensures Between(adj, marked, id, roots, color, bipartite)
      ensures forall u :: 0 <= u <= vertex ==> marked[u]
      ensures forall i :: 0 <= i < |roots| ==> roots[i] <= vertex && color[roots[i]] == -1
    {
      if !marked[vertex] {
        Root(adj, marked, id, roots, color, bipartite, vertex);
        ghost var m0, c0, r0 := marked, color, roots;
        assert c0[vertex] == -1;
        roots := roots + [vertex];
        Dfs(vertex, []);
        Settle(adj, marked, id, roots, color, bipartite);
        RootsKept(m0, c0, color, r0, vertex);
        GrowsUpTo(m0, marked, vertex);
      }
    }

    /** `_dfs(vertex)`: marks v, then looks at its neighbours. */
    method Dfs(v: nat, ghost stack: seq<nat>)
      requires Symmetric(adj) && State(adj, marked, id, roots, color, bipartite, stack)
      requires v < |adj| && !marked[v] && Walk(adj, roots[|roots| - 1], v, color[v] == -1)
      requires Blank(marked[v := true], color)
      modifies this
      ensures State(adj, marked, id, roots, color, bipartite, stack) && Blank(marked, color)
      ensures roots == old(roots) && (!old(bipartite) ==> !bipartite)
      ensures Grows(old(marked), marked) && marked[v] && Kept(old(marked)[v := true], old(color), color)
      decreases Unmarked(marked), 0
    {
      Descend(adj, marked, id, roots, color, bipartite, stack, v);
      marked := marked[v := true];
      id := id[v := |roots| - 1];
      assert v in Unmarked(old(marked)) && Unmarked(marked) < Unmarked(old(marked));
      Scan(v, stack);
    }

    /** The loop of `_dfs` over the neighbours of v, in any order: afterwards all of them
        are marked and, while the flag holds, of the opposite colour; v is popped. */
    method Scan(v: nat, ghost stack: seq<nat>)
      requires Symmetric(adj) && State(adj, marked, id, roots, color, bipartite, stack + [v]) && Blank(marked, color)
      requires v < |adj| && marked[v] && id[v] == |roots| - 1
      modifies this
      ensures State(adj, marked, id, roots, color, bipartite, stack) && Blank(marked, color)
      ensures roots == old(roots) && (!old(bipartite) ==> !bipartite)
      ensures Grows(old(marked), marked) && Kept(old(marked), old(color), color)
      decreases Unmarked(marked), 2
    {
      var rest := adj[v];
      while rest != {}
        invariant State(adj, marked, id, roots, color, bipartite, stack + [v]) && Blank(marked, color)
        invariant roots == old(roots) && (!old(bipartite) ==> !bipartite)
        invariant Grows(old(marked), marked) && Kept(old(marked), old(color), color) && rest <= adj[v]
        invariant AllMarked(adj[v] - rest, marked) && (bipartite ==> Examined(color, v, adj[v] - rest))
        decreases rest
      {
        var w :| w in rest;
        ghost var m0, c0 := marked, color;
        GrowsUnmarked(old(marked), marked);
        Top(adj, marked, id, |roots| - 1, stack, v);
        Step(v, w, stack);
        KeptTrans(old(marked), m0, old(color), c0, color);
        GrowsAllMarked(adj[v] - rest, m0, marked);
        AllMarkedTake(adj[v], rest, w, marked);
        if bipartite {
          KeptExamined(m0, c0, color, v, adj[v] - rest);
          Look(color, v, adj[v] - rest, w, marked);
          assert adj[v] - (rest - {w}) == (adj[v] - rest) + {w};
        }
        rest := rest - {w};
      }
      Retreat(adj, marked, id, roots, color, bipartite, stack, v);
    }

    /** The body of that loop for the neighbour w of v: an unmarked w gets the colour
        opposite to v and a search of its own; a marked w of v's colour clears the flag. */
    method Step(v: nat, w: nat, ghost stack: seq<nat>)
      requires Symmetric(adj) && State(adj, marked, id, roots, color, bipartite, stack + [v]) && Blank(marked, color)
      requires v < |adj| && marked[v] && id[v] == |roots| - 1 && w in adj[v]
      modifies this
      ensures State(adj, marked, id, roots, color, bipartite, stack + [v]) && Blank(marked, color)
      ensures roots == old(roots) && (!old(bipartite) ==> !bipartite)
      ensures Grows(old(marked), marked) && Kept(old(marked), old(color), color) && marked[w]
      ensures bipartite ==> color[w] == -color[v]
      decreases Unmarked(marked), 1
    {
      assert w < |adj|;
      SameSign(color[v], color[w]);
      if !marked[w] {
        Paint(adj, marked, id, roots, color, bipartite, stack + [v], v, w);
        ghost var m0, c0 := marked, color;
        color := color[w := -color[v]];
        ghost var c1 := color;
        Dfs(w, stack + [v]);
        KeptTrans(m0, m0[w := true], c0, c1, color);
      } else if color[v] * color[w] > 0 {
        Conflict(adj, marked, id, roots, color, bipartite, stack, v, w);
        bipartite := false;
      }
    }

    /** `bipartite`: whether the graph has a two-colouring, and then the colours are one. */
    function Bipartite(): (r: bool)
      requires Valid()
      reads this
      ensures r <==> TwoColourable(adj)
      ensures r ==> Proper(adj, TwoColours(color))
    {
      bipartite
    }
  }
}
