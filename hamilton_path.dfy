/**
  `HamiltonPath` of undirected_graph_algorithms: a backtracking depth-first search from
  every vertex that marks the vertices of the current path, counts the paths that reach
  all n vertices, and unmarks each vertex when its search is over. The count is the
  number of Hamiltonian paths read as vertex sequences, so a path and its reversal are
  counted apart.
*/
module HamiltonPaths {
  import opened Common
  import opened DepthFirst
  import opened UndirectedGraphs

  /** Every neighbour is a vertex, which the search needs to index `marked`. */
  ghost predicate Within(adj: seq<set<nat>>)
  {
    forall v: nat, w: nat {:trigger w in adj[v]} :: v < |adj| && w in adj[v] ==> w < |adj|
  }

  /** A path that does not repeat a vertex. */
  ghost predicate Simple(adj: seq<set<nat>>, p: seq<nat>)
  {
    IsPath(adj, p) && Distinct(p)
  }

  /** A Hamiltonian path as a vertex sequence: a simple path through all n vertices. */
  ghost predicate Hamiltonian(adj: seq<set<nat>>, q: seq<nat>)
  {
    |q| == |adj| && Simple(adj, q)
  }

  /** q starts with p. */
  ghost predicate Extends(q: seq<nat>, p: seq<nat>)
  {
    |p| <= |q| && q[..|p|] == p
  }

  /** The Hamiltonian paths that start with the path p: p itself when it has all n
      vertices, otherwise those continuing with a neighbour of its last vertex not on it. */
  ghost function Paths(adj: seq<set<nat>>, p: seq<nat>): set<seq<nat>>
    requires p != [] && p[|p| - 1] < |adj|
    decreases |adj| - |p|, |adj| + 1
  {
    if |p| == |adj| then {p}
    else if |p| < |adj| then Below(adj, p, |adj|)
    else {}
  }

  /** Those Hamiltonian paths starting with p whose next vertex is below k. */
  ghost function Below(adj: seq<set<nat>>, p: seq<nat>, k: nat): set<seq<nat>>
    requires p != [] && p[|p| - 1] < |adj| && |p| < |adj| && k <= |adj|
    decreases |adj| - |p|, k
  {
    if k == 0 then {}
    else
      Below(adj, p, k - 1)
      + if k - 1 in adj[p[|p| - 1]] && k - 1 !in p then Paths(adj, p + [k - 1]) else {}
  }

  /** The Hamiltonian paths that start below k. */
  ghost function Starts(adj: seq<set<nat>>, k: nat): set<seq<nat>>
    requires k <= |adj|
  {
    if k == 0 then {} else Starts(adj, k - 1) + Paths(adj, [k - 1])
  }

  /** Extending a simple path by a neighbour of its end that is not on it. */
  lemma SimpleStep(adj: seq<set<nat>>, p: seq<nat>, w: nat)
    requires Simple(adj, p) && w < |adj| && w in adj[p[|p| - 1]] && w !in p
    ensures Simple(adj, p + [w])
  {
    var q := p + [w];
    forall k | 0 <= k < |q| - 1
      ensures q[k + 1] in adj[q[k]]
    {
      if k < |p| - 1 {
        assert q[k] == p[k] && q[k + 1] == p[k + 1];
      }
    }
    forall i, j | 0 <= i < j < |q|
      ensures q[i] != q[j]
    {
      if j == |p| {
        assert q[i] == p[i];
      }
    }
  }

  /** The last vertex of a simple path is a vertex and occurs only there. */
  lemma Fresh(adj: seq<set<nat>>, p: seq<nat>, v: nat)
    requires Simple(adj, p + [v])
    ensures v < |adj| && v !in p
  {
    var q := p + [v];
    assert q[|p|] == v;
    forall i | 0 <= i < |p|
      ensures p[i] != v
    {
      assert q[i] == p[i];
    }
  }

  /** The next vertex of a simple path extending p is a neighbour of p's end, not on p,
      and the path up to it both is simple and extends p + [it]. */
  lemma Next(adj: seq<set<nat>>, p: seq<nat>, q: seq<nat>)
    requires p != [] && Simple(adj, q) && Extends(q, p) && |p| < |q|
    ensures q[|p|] < |adj| && q[|p|] in adj[p[|p| - 1]] && q[|p|] !in p && Extends(q, p + [q[|p|]])
  {
    assert q[|p| - 1] == p[|p| - 1];
    forall i | 0 <= i < |p|
      ensures p[i] != q[|p|]
    {
      assert q[i] == p[i];
    }
    assert q[..|p| + 1] == q[..|p|] + [q[|p|]];
  }

  /** The members of `Paths(adj, p)` for a simple path p: exactly the Hamiltonian paths
      that start with p. */
  lemma {:induction false} PathsMember(adj: seq<set<nat>>, p: seq<nat>, q: seq<nat>)
    requires Within(adj) && Simple(adj, p)
    ensures q in Paths(adj, p) <==> Hamiltonian(adj, q) && Extends(q, p)
    decreases |adj| - |p|, |adj| + 1
  {
    if |p| == |adj| {
      if Hamiltonian(adj, q) && Extends(q, p) {
        assert q == q[..|p|];
      }
    } else if |p| < |adj| {
      BelowMember(adj, p, |adj|, q);
      if Hamiltonian(adj, q) && Extends(q, p) {
        if |q| == |p| {
          assert false;
        }
        Next(adj, p, q);
      }
    }
  }

  /** The members of `Below(adj, p, k)`: the Hamiltonian paths that start with p and
      continue with a vertex below k. */
  lemma {:induction false} BelowMember(adj: seq<set<nat>>, p: seq<nat>, k: nat, q: seq<nat>)
    requires Within(adj) && Simple(adj, p) && |p| < |adj| && k <= |adj|
    ensures q in Below(adj, p, k) <==> Hamiltonian(adj, q) && Extends(q, p) && |p| < |q| && q[|p|] < k
    decreases |adj| - |p|, k
  {
    if k > 0 {
      BelowMember(adj, p, k - 1, q);
      var w := k - 1;
      if w in adj[p[|p| - 1]] && w !in p {
        SimpleStep(adj, p, w);
        PathsMember(adj, p + [w], q);
        if Extends(q, p + [w]) {
          assert q[..|p|] == (q[..|p| + 1])[..|p|];
        }
      }
      if Hamiltonian(adj, q) && Extends(q, p) && |p| < |q| && q[|p|] == w {
        Next(adj, p, q);
      }
    }
  }

  /** The members of `Starts(adj, k)`: the Hamiltonian paths whose first vertex is below k. */
  lemma {:induction false} StartsMember(adj: seq<set<nat>>, k: nat, q: seq<nat>)
    requires Within(adj) && k <= |adj|
    ensures q in Starts(adj, k) <==> Hamiltonian(adj, q) && q[0] < k
  {
    if k > 0 {
      StartsMember(adj, k - 1, q);
      assert Simple(adj, [k - 1]);
      PathsMember(adj, [k - 1], q);
      if Hamiltonian(adj, q) {
        assert Extends(q, [q[0]]);
      }
    }
  }

  /** The Hamiltonian paths of the graph, counted by the search. */
  ghost function Hamiltonians(adj: seq<set<nat>>): (h: set<seq<nat>>)
    requires Within(adj)
    ensures forall q :: q in h <==> Hamiltonian(adj, q)
  {
    var h := Starts(adj, |adj|);
    assert forall q :: q in h <==> Hamiltonian(adj, q) by {
      forall q
        ensures q in h <==> Hamiltonian(adj, q)
      {
        StartsMember(adj, |adj|, q);
      }
    }
    h
  }

  /** A new start vertex adds its paths to those of the earlier ones: none of them starts
      at an earlier vertex. */
  lemma StartsCount(adj: seq<set<nat>>, k: nat)
    requires Within(adj) && k < |adj|
    ensures |Starts(adj, k + 1)| == |Starts(adj, k)| + |Paths(adj, [k])|
  {
    assert Simple(adj, [k]);
    forall q | q in Starts(adj, k)
      ensures q !in Paths(adj, [k])
    {
      StartsMember(adj, k, q);
      PathsMember(adj, [k], q);
      assert q[..1] == [q[0]];
    }
    assert Starts(adj, k) * Paths(adj, [k]) == {};
  }

  /** The Hamiltonian paths starting with p whose next vertex is in `done`. */
  ghost function Via(adj: seq<set<nat>>, p: seq<nat>, done: set<nat>): set<seq<nat>>
    requires p != [] && p[|p| - 1] < |adj|
  {
    set q | q in Paths(adj, p) && |p| < |q| && q[|p|] in done
  }

  /** Looking at one more neighbour w of the end of p: a marked w starts no path, an
      unmarked one adds the paths starting with p + [w]. */
  lemma ViaStep(adj: seq<set<nat>>, p: seq<nat>, done: set<nat>, w: nat)
    requires Within(adj) && Simple(adj, p) && w in adj[p[|p| - 1]] && w !in done
    ensures w in p ==> Via(adj, p, done + {w}) == Via(adj, p, done)
    ensures w !in p ==> |Via(adj, p, done + {w})| == |Via(adj, p, done)| + |Paths(adj, p + [w])|
  {
    var last := p[|p| - 1];
    assert w < |adj|;
    forall q | q in Paths(adj, p) && |p| < |q| && q[|p|] == w
      ensures w !in p && q in Paths(adj, p + [w])
    {
      PathsMember(adj, p, q);
      Next(adj, p, q);
      SimpleStep(adj, p, w);
      PathsMember(adj, p + [w], q);
    }
    if w !in p {
      SimpleStep(adj, p, w);
      var slice := set q | q in Paths(adj, p) && |p| < |q| && q[|p|] == w;
      forall q | q in Paths(adj, p + [w])
        ensures q in slice
      {
        PathsMember(adj, p + [w], q);
        PathsMember(adj, p, q);
        assert q[..|p|] == (q[..|p| + 1])[..|p|];
        assert q[|p|] == (q[..|p| + 1])[|p|];
      }
      assert slice == Paths(adj, p + [w]);
      assert Via(adj, p, done + {w}) == Via(adj, p, done) + slice;
      assert Via(adj, p, done) * slice == {};
    } else {
      assert Via(adj, p, done + {w}) == Via(adj, p, done);
    }
  }

  /** Once every neighbour of the end of p is looked at, the paths found are those
      starting with p, less p itself when it already has all n vertices. */
  lemma ViaAll(adj: seq<set<nat>>, p: seq<nat>)
    requires Within(adj) && Simple(adj, p)
    ensures |Paths(adj, p)| == (if |p| == |adj| then 1 else 0) + |Via(adj, p, adj[p[|p| - 1]])|
  {
    var v := Via(adj, p, adj[p[|p| - 1]]);
    if |p| == |adj| {
      assert v == {};
    } else {
      forall q | q in Paths(adj, p)
        ensures q in v
      {
        PathsMember(adj, p, q);
        if |q| == |p| {
          assert false;
        }
        Next(adj, p, q);
      }
      assert v == Paths(adj, p);
    }
  }

  /** Each undirected Hamiltonian path is counted twice: read backwards it is one too,
      and with two or more vertices it differs from its reversal. */
  lemma Reversal(adj: seq<set<nat>>, q: seq<nat>)
    requires Symmetric(adj) && Hamiltonian(adj, q)
    ensures Hamiltonian(adj, Reverse(q)) && (|adj| > 1 ==> Reverse(q) != q)
  {
    var r := Reverse(q);
    ReverseKeeps(q);
    forall k | 0 <= k < |r|
      ensures r[k] < |adj|
    {
      assert r[k] == q[|q| - 1 - k];
    }
    forall k | 0 <= k < |r| - 1
      ensures r[k + 1] in adj[r[k]]
    {
      assert r[k] == q[|q| - 1 - k] && r[k + 1] == q[|q| - 2 - k];
      assert q[|q| - 1 - k] in adj[q[|q| - 2 - k]];
    }
    if |adj| > 1 {
      assert r[0] == q[|q| - 1] && q[0] != q[|q| - 1];
    }
  }

  /** The vertices of p are exactly the marked ones. */
  ghost predicate Marks(marked: seq<bool>, p: seq<nat>)
  {
    forall u :: 0 <= u < |marked| ==> (marked[u] <==> u in p)
  }

  class HamiltonPath {
    const adj: seq<set<nat>>
    var marked: seq<bool>
    var count: nat

    /** Searches from every vertex in turn; afterwards no vertex is marked and the count
        is the number of Hamiltonian paths. */
    constructor (adj: seq<set<nat>>)
      requires Within(adj)
      ensures this.adj == adj && count == |Hamiltonians(adj)|
      ensures marked == seq(|adj|, _ => false)
    {
      this.adj := adj;
      marked := seq(|adj|, _ => false);
      count := 0;
      new;
      for vertex := 0 to |adj|
        invariant marked == seq(|adj|, _ => false) && count == |Starts(adj, vertex)|
      {
        assert Simple(adj, [vertex]) && Marks(marked, []);
        StartsCount(adj, vertex);
        assert [] + [vertex] == [vertex];
        Dfs(vertex, 1, []);
      }
    }

    /** `_dfs(vertex, depth)` with the current path p ending before v: marks v, counts
        the path when it has all n vertices, searches on from every unmarked neighbour,
        and unmarks v. Adds the number of Hamiltonian paths starting with p + [v]. */
    method Dfs(v: nat, depth: nat, ghost p: seq<nat>)
      requires Within(adj) && Simple(adj, p + [v]) && depth == |p| + 1
      requires |marked| == |adj| && Marks(marked, p)
      modifies this
      ensures marked == old(marked) && count == old(count) + |Paths(adj, p + [v])|
      decreases Unmarked(marked), 0
    {
      Fresh(adj, p, v);
      marked := marked[v := true];
      assert v in Unmarked(old(marked)) && Unmarked(marked) < Unmarked(old(marked));
      assert Marks(marked, p + [v]);
      if depth == |adj| {
        count := count + 1;
      }
      Scan(v, depth, p + [v]);
      marked := marked[v := false];
      assert marked == old(marked);
      ViaAll(adj, p + [v]);
    }

    /** The loop of `_dfs` over the neighbours of the end v of the path q: adds the number
        of Hamiltonian paths that continue q. */
    method Scan(v: nat, depth: nat, ghost q: seq<nat>)
      requires Within(adj) && Simple(adj, q) && v == q[|q| - 1] && depth == |q|
      requires |marked| == |adj| && Marks(marked, q)
      modifies this
      ensures marked == old(marked) && count == old(count) + |Via(adj, q, adj[v])|
      decreases Unmarked(marked), 2
    {
      var rest := adj[v];
      assert adj[v] - rest == {};
      while rest != {}
        invariant rest <= adj[v] && marked == old(marked)
        invariant count == old(count) + |Via(adj, q, adj[v] - rest)|
        decreases rest
      {
        var w :| w in rest;
        ViaStep(adj, q, adj[v] - rest, w);
        Step(v, w, depth, q);
        assert adj[v] - (rest - {w}) == (adj[v] - rest) + {w};
        rest := rest - {w};
      }
      assert adj[v] - rest == adj[v];
    }

    /** The body of that loop for the neighbour w: a search from w when it is not on the
        path q. */
    method Step(v: nat, w: nat, depth: nat, ghost q: seq<nat>)
      requires Within(adj) && Simple(adj, q) && v == q[|q| - 1] && w in adj[v] && depth == |q|
      requires |marked| == |adj| && Marks(marked, q)
      modifies this
      ensures marked == old(marked)
      ensures w in q ==> count == old(count)
      ensures w !in q ==> count == old(count) + |Paths(adj, q + [w])|
      decreases Unmarked(marked), 1
    {
      assert w < |adj|;
      if !marked[w] {
        SimpleStep(adj, q, w);
        Dfs(w, depth + 1, q);
      }
    }
  }
}
