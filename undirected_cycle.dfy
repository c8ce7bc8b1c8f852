/** The undirected cycle finder: a depth-first search that passes each vertex its parent
    and stops at the first marked neighbour other than that parent. Until then every
    finished vertex is joined only to its tree parent and its tree children, so the
    closing neighbour lies on the path of parent links from the root, which is recorded
    followed by that neighbour. A search that ends without one has seen a forest. */
module UndirectedCycle {
  import opened Common
  import opened UndirectedGraphs
  import DepthFirst
  import CycleSearch

  /** A cycle of the graph: a self-loop, or at least three distinct vertices joined in a
      ring. */
  ghost predicate IsCycle(adj: seq<set<nat>>, p: seq<nat>)
  {
    && IsPath(adj, p) && Distinct(p)
    && ((|p| == 1 && p[0] in adj[p[0]]) || (|p| >= 3 && p[0] in adj[p[|p| - 1]]))
  }

  /** A graph without cycles. */
  ghost predicate Forest(adj: seq<set<nat>>)
  {
    forall p :: !IsCycle(adj, p)
  }

  /** What `_get_cycle_path` records: a path whose vertices before the last are distinct,
      ending in a neighbour of the one before it that is that vertex itself or one at least
      two steps further back. */
  ghost predicate Recorded(adj: seq<set<nat>>, c: seq<nat>)
  {
    && |c| >= 2 && IsPath(adj, c) && Distinct(c[..|c| - 1])
    && (c[|c| - 1] == c[|c| - 2] || exists k :: 0 <= k < |c| - 3 && c[k] == c[|c| - 1])
  }

  /** A recorded list closes a cycle of the graph. */
  lemma RecordedCycle(adj: seq<set<nat>>, c: seq<nat>)
    requires Recorded(adj, c)
    ensures !Forest(adj)
  {
    var n := |c|;
    if c[n - 1] == c[n - 2] {
      assert IsCycle(adj, [c[n - 2]]);
    } else {
      var k :| 0 <= k < n - 3 && c[k] == c[n - 1];
      var p := c[k..n - 1];
      forall i, j | 0 <= i < j < |p|
        ensures p[i] != p[j]
      {
        assert p[i] == c[..n - 1][k + i] && p[j] == c[..n - 1][k + j];
      }
      forall i | 0 <= i < |p| - 1
        ensures p[i + 1] in adj[p[i]]
      {
        assert p[i] == c[k + i] && p[i + 1] == c[k + i + 1];
      }
      assert p[|p| - 1] == c[n - 2];
      assert IsCycle(adj, p);
    }
  }

  ghost predicate Sized(adj: seq<set<nat>>, marked: seq<bool>, edgeTo: seq<Option<nat>>, depth: seq<nat>)
  {
    |marked| == |adj| && |edgeTo| == |adj| && |depth| == |adj|
  }

  /** The parent links run down the stack, whose vertices are marked and distinct. */
  ghost predicate Chain(marked: seq<bool>, edgeTo: seq<Option<nat>>, stack: seq<nat>)
  {
    && CycleSearch.TreePath(edgeTo, stack) && Distinct(stack)
    && (forall k :: 0 <= k < |stack| ==> stack[k] < |marked| && marked[stack[k]])
  }

  /** A marked vertex with a parent is a neighbour of it, one level below it. */
  ghost predicate Linked(adj: seq<set<nat>>, marked: seq<bool>, edgeTo: seq<Option<nat>>, depth: seq<nat>)
    requires Sized(adj, marked, edgeTo, depth)
  {
    forall u :: 0 <= u < |adj| && marked[u] && edgeTo[u].Some? ==>
      && edgeTo[u].value < |adj| && marked[edgeTo[u].value] && u in adj[edgeTo[u].value]
      && depth[u] == depth[edgeTo[u].value] + 1
  }

  /** The neighbour x of u is marked and is u's parent or one of u's children. */
  ghost predicate Tied(adj: seq<set<nat>>, marked: seq<bool>, edgeTo: seq<Option<nat>>, u: nat, x: nat)
    requires |marked| == |adj| && |edgeTo| == |adj| && u < |adj|
  {
    x < |adj| && marked[x] && (edgeTo[u] == Some(x) || edgeTo[x] == Some(u))
  }

  /** Every finished vertex, marked and off the stack, is tied to all its neighbours. */
  ghost predicate Resolved(adj: seq<set<nat>>, marked: seq<bool>, edgeTo: seq<Option<nat>>, stack: seq<nat>)
    requires |marked| == |adj| && |edgeTo| == |adj|
  {
    forall u: nat, x: nat {:trigger x in adj[u]} :: u < |adj| && marked[u] && u !in stack && x in adj[u] ==>
      Tied(adj, marked, edgeTo, u, x)
  }

  /** The state of the search while no cycle has been found. */
  ghost predicate Forested(adj: seq<set<nat>>, marked: seq<bool>, edgeTo: seq<Option<nat>>, depth: seq<nat>, stack: seq<nat>)
  {
    && Sized(adj, marked, edgeTo, depth) && Chain(marked, edgeTo, stack)
    && Linked(adj, marked, edgeTo, depth) && Resolved(adj, marked, edgeTo, stack)
  }

  /** The neighbours `done` of v examined so far are tied to v, and every marked child of
      v is among them. */
  ghost predicate Examined(adj: seq<set<nat>>, marked: seq<bool>, edgeTo: seq<Option<nat>>, v: nat, done: set<nat>)
    requires |marked| == |adj| && |edgeTo| == |adj| && v < |adj|
  {
    && (forall x :: x in done ==> Tied(adj, marked, edgeTo, v, x))
    && (forall x :: 0 <= x < |adj| && marked[x] && edgeTo[x] == Some(v) ==> x in done)
  }

  /** Examining one more neighbour. */
  lemma TakeOne(all: set<nat>, rest: set<nat>, w: nat)
    requires rest <= all && w in rest
    ensures all - rest + {w} == all - (rest - {w})
  {
  }

  /** The parent links of the vertices marked in m0 are the same in e1 as in e0. */
  ghost predicate Kept(m0: seq<bool>, e0: seq<Option<nat>>, e1: seq<Option<nat>>)
  {
    |e1| == |e0| && forall x :: 0 <= x < |m0| && x < |e0| && m0[x] ==> e1[x] == e0[x]
  }

  /** Every vertex marked in m1 but not in m0, other than v, has a parent not marked in m0. */
  ghost predicate Fresh(m0: seq<bool>, m1: seq<bool>, e1: seq<Option<nat>>, v: nat)
  {
    forall x :: 0 <= x < |m1| && x < |m0| && x < |e1| && m1[x] && !m0[x] && x != v ==>
      e1[x].Some? && e1[x].value < |m0| && !m0[e1[x].value]
  }

  /** The state before the first search. */
  lemma Start(adj: seq<set<nat>>)
    ensures Forested(adj, seq(|adj|, _ => false), seq(|adj|, _ => None), seq(|adj|, _ => 0), [])
    ensures CycleSearch.Unlinked(seq(|adj|, _ => false), seq(|adj|, _ => None), -1)
  {
  }

  /** Marking v, whose parent link names the top of the stack, and pushing it. */
  lemma Enter(adj: seq<set<nat>>, marked: seq<bool>, edgeTo: seq<Option<nat>>, depth: seq<nat>, stack: seq<nat>, v: nat)
    requires Forested(adj, marked, edgeTo, depth, stack) && v < |adj| && !marked[v]
    requires CycleSearch.Unlinked(marked, edgeTo, v)
    requires edgeTo[v] == if stack == [] then None else Some(stack[|stack| - 1])
    requires stack != [] ==> v in adj[stack[|stack| - 1]] && depth[v] == depth[stack[|stack| - 1]] + 1
    ensures Forested(adj, marked[v := true], edgeTo, depth, stack + [v])
    ensures Examined(adj, marked[v := true], edgeTo, v, {})
    ensures CycleSearch.Unlinked(marked[v := true], edgeTo, -1)
  {
    var m, s := marked[v := true], stack + [v];
    forall k | 0 < k < |s|
      ensures edgeTo[s[k]] == Some(s[k - 1])
    {
      if k < |stack| {
        assert s[k] == stack[k] && s[k - 1] == stack[k - 1];
      }
    }
    forall i, j | 0 <= i < j < |s|
      ensures s[i] != s[j]
    {
      if j == |stack| {
        assert s[i] == stack[i];
      }
    }
    forall u: nat, x: nat | u < |adj| && m[u] && u !in s && x in adj[u]
      ensures Tied(adj, m, edgeTo, u, x)
    {
      assert u != v && u !in stack;
      assert Tied(adj, marked, edgeTo, u, x);
    }
  }

  /** `edge_to[w] = v` for an unmarked w, with w one level below v. */
  lemma Link(adj: seq<set<nat>>, marked: seq<bool>, edgeTo: seq<Option<nat>>, depth: seq<nat>, s: seq<nat>, v: nat, done: set<nat>, w: nat)
    requires Forested(adj, marked, edgeTo, depth, s) && v < |adj| && w < |adj| && !marked[w]
    requires Examined(adj, marked, edgeTo, v, done) && CycleSearch.Unlinked(marked, edgeTo, -1)
    ensures Forested(adj, marked, edgeTo[w := Some(v)], depth[w := depth[v] + 1], s)
    ensures Examined(adj, marked, edgeTo[w := Some(v)], v, done)
    ensures CycleSearch.Unlinked(marked, edgeTo[w := Some(v)], w)
  {
    var e, d := edgeTo[w := Some(v)], depth[w := depth[v] + 1];
    assert w !in s;
    forall u | 0 <= u < |adj| && marked[u] && e[u].Some?
      ensures e[u].value < |adj| && marked[e[u].value] && u in adj[e[u].value] && d[u] == d[e[u].value] + 1
    {
      assert u != w && e[u].value != w;
    }
  }

  /** Popping v once every neighbour is examined: v is finished. */
  lemma Leave(adj: seq<set<nat>>, marked: seq<bool>, edgeTo: seq<Option<nat>>, depth: seq<nat>, stack: seq<nat>, v: nat)
    requires Forested(adj, marked, edgeTo, depth, stack + [v]) && v < |adj|
    requires Examined(adj, marked, edgeTo, v, adj[v])
    ensures Forested(adj, marked, edgeTo, depth, stack)
  {
    var s := stack + [v];
    assert s[|stack|] == v;
    forall k | 0 <= k < |stack|
      ensures stack[k] < |marked| && marked[stack[k]]
    {
      assert stack[k] == s[k];
    }
    forall k | 0 < k < |stack|
      ensures edgeTo[stack[k]] == Some(stack[k - 1])
    {
      assert stack[k] == s[k] && stack[k - 1] == s[k - 1];
    }
    forall i, j | 0 <= i < j < |stack|
      ensures stack[i] != stack[j]
    {
      assert stack[i] == s[i] && stack[j] == s[j];
    }
    forall u: nat, x: nat | u < |adj| && marked[u] && u !in stack && x in adj[u]
      ensures Tied(adj, marked, edgeTo, u, x)
    {
      if u != v {
        assert u !in s;
      }
    }
  }

  /** A marked neighbour w of the vertex v on top of the stack that v has not examined and
      that is not v's parent lies on the stack: off it, w would be finished and tied to v,
      so w would be v's parent or an examined child of v. */
  lemma OnPath(adj: seq<set<nat>>, marked: seq<bool>, edgeTo: seq<Option<nat>>, depth: seq<nat>, stack: seq<nat>, v: nat, done: set<nat>, w: nat)
    requires Symmetric(adj) && Forested(adj, marked, edgeTo, depth, stack + [v]) && v < |adj|
    requires Examined(adj, marked, edgeTo, v, done) && w in adj[v] && w !in done && marked[w]
    requires edgeTo[v] != Some(w)
    ensures w in stack + [v]
  {
  }

  /** The parent link of the top of the stack names the entry below it. */
  lemma TopLink(edgeTo: seq<Option<nat>>, stack: seq<nat>, v: nat)
    requires CycleSearch.TreePath(edgeTo, stack + [v])
    ensures v < |edgeTo| && edgeTo[v] == if stack == [] then None else Some(stack[|stack| - 1])
  {
    var s := stack + [v];
    assert s[|s| - 1] == v;
    if stack != [] {
      assert s[|s| - 2] == stack[|stack| - 1];
    }
  }

  /** The stack followed by a neighbour of its top that lies on it and is not the top's
      parent is a recorded cycle. */
  lemma Close(adj: seq<set<nat>>, marked: seq<bool>, edgeTo: seq<Option<nat>>, depth: seq<nat>, s: seq<nat>, w: nat)
    requires Forested(adj, marked, edgeTo, depth, s) && s != [] && s[|s| - 1] < |adj|
    requires w in adj[s[|s| - 1]] && w in s && edgeTo[s[|s| - 1]] != Some(w)
    ensures Recorded(adj, s + [w])
  {
    var c := s + [w];
    forall i | 0 <= i < |c| - 1
      ensures c[i + 1] in adj[c[i]]
    {
      if i + 1 < |s| {
        assert c[i] == s[i] && c[i + 1] == s[i + 1];
        assert edgeTo[s[i + 1]] == Some(s[i]);
      }
    }
    assert c[..|c| - 1] == s;
    var k :| 0 <= k < |s| && s[k] == w;
    if k != |s| - 1 {
      assert k != |s| - 2;
      assert c[k] == w;
    }
  }

  /** Vertices marked in m1 keep their links in e2 from e1, and the vertices marked in m0,
      fewer, keep theirs from e0 to e2 when they keep them from e0 to e1. */
  lemma KeptTrans(m0: seq<bool>, m1: seq<bool>, e0: seq<Option<nat>>, e1: seq<Option<nat>>, e2: seq<Option<nat>>)
    requires Kept(m0, e0, e1) && DepthFirst.Grows(m0, m1) && Kept(m1, e1, e2)
    ensures Kept(m0, e0, e2)
  {
  }

  /** Linking an unmarked w to v keeps the links of every marked vertex. */
  lemma Reparent(m0: seq<bool>, marked: seq<bool>, edgeTo: seq<Option<nat>>, v: nat, w: nat)
    requires Fresh(m0, marked, edgeTo, v) && w < |marked| && w < |edgeTo| && !marked[w]
    ensures Fresh(m0, marked, edgeTo[w := Some(v)], v) && Kept(marked, edgeTo, edgeTo[w := Some(v)])
  {
  }

  /** After the search from the child w of v: w is tied to v and examined, and v has no
      other new child, since every vertex that search reached besides w hangs from one it
      reached. */
  lemma Adopt(adj: seq<set<nat>>, m0: seq<bool>, e0: seq<Option<nat>>, m1: seq<bool>, e1: seq<Option<nat>>, v: nat, done: set<nat>, w: nat)
    requires |m0| == |adj| && |e0| == |adj| && |m1| == |adj| && |e1| == |adj| && v < |adj| && w < |adj|
    requires Examined(adj, m0, e0, v, done) && m0[v] && !m0[w]
    requires DepthFirst.Grows(m0, m1) && Kept(m0, e0, e1) && Fresh(m0, m1, e1, w) && m1[w] && e1[w] == Some(v)
    ensures Examined(adj, m1, e1, v, done + {w})
  {
    forall x | x in done + {w}
      ensures Tied(adj, m1, e1, v, x)
    {
      if x != w {
        assert Tied(adj, m0, e0, v, x);
      }
    }
    forall x | 0 <= x < |adj| && m1[x] && e1[x] == Some(v)
      ensures x in done + {w}
    {
      if m0[x] {
        assert e0[x] == Some(v);
      }
    }
  }

  /** The vertices a search from the child w of v reached hang from v or from vertices
      reached since v was. */
  lemma FreshStep(m0: seq<bool>, mS: seq<bool>, eS: seq<Option<nat>>, m1: seq<bool>, e1: seq<Option<nat>>, v: nat, w: nat)
    requires |m0| == |mS| == |m1| && |eS| == |e1| == |m0| && v < |m0| && w < |m0|
    requires Fresh(m0, mS, eS, v) && DepthFirst.Grows(m0, mS) && DepthFirst.Grows(mS, m1)
    requires Kept(mS, eS, e1) && Fresh(mS, m1, e1, w) && e1[w] == Some(v) && !m0[v]
    ensures Fresh(m0, m1, e1, v)
  {
    forall x | 0 <= x < |m1| && m1[x] && !m0[x] && x != v
      ensures e1[x].Some? && e1[x].value < |m0| && !m0[e1[x].value]
    {
      if mS[x] {
        assert e1[x] == eS[x];
      } else if x != w {
        assert !mS[e1[x].value];
      }
    }
  }

  /** The index of a deepest vertex of p. */
  function Deepest(depth: seq<nat>, p: seq<nat>): (m: nat)
    requires |p| >= 1 && forall k :: 0 <= k < |p| ==> p[k] < |depth|
    ensures m < |p| && forall k :: 0 <= k < |p| ==> depth[p[k]] <= depth[p[m]]
  {
    if |p| == 1 then 0
    else
      var m := Deepest(depth, p[..|p| - 1]);
      assert forall k :: 0 <= k < |p| - 1 ==> p[..|p| - 1][k] == p[k];
      if depth[p[|p| - 1]] > depth[p[m]] then |p| - 1 else m
  }

  /** On a ring of at least three vertices after a finished search, the deepest vertex
      is tied to its two ring neighbours; neither can be its child, so both are its one
      parent and the ring repeats a vertex. */
  lemma RingRepeats(adj: seq<set<nat>>, marked: seq<bool>, edgeTo: seq<Option<nat>>, depth: seq<nat>, p: seq<nat>)
    requires Symmetric(adj) && Forested(adj, marked, edgeTo, depth, [])
    requires forall u :: 0 <= u < |adj| ==> marked[u]
    requires IsPath(adj, p) && |p| >= 3 && p[0] in adj[p[|p| - 1]]
    ensures exists i, j :: 0 <= i < j < |p| && p[i] == p[j]
  {
    var m := Deepest(depth, p);
    var u := p[m];
    var ia := if m + 1 < |p| then m + 1 else 0;
    var ib := if m > 0 then m - 1 else |p| - 1;
    assert p[ia] in adj[u];
    assert u in adj[p[ib]];
    assert p[ib] in adj[u];
    assert Tied(adj, marked, edgeTo, u, p[ia]);
    assert Tied(adj, marked, edgeTo, u, p[ib]);
    assert ia != ib && p[ia] == p[ib];
    if ia < ib {
      assert 0 <= ia < ib < |p| && p[ia] == p[ib];
    } else {
      assert 0 <= ib < ia < |p| && p[ib] == p[ia];
    }
  }

  /** A finished search without a cycle leaves no cycle: a self-loop would make a vertex
      its own parent, and a longer ring repeats a vertex. */
  lemma NoRing(adj: seq<set<nat>>, marked: seq<bool>, edgeTo: seq<Option<nat>>, depth: seq<nat>, p: seq<nat>)
    requires Symmetric(adj) && Forested(adj, marked, edgeTo, depth, [])
    requires forall u :: 0 <= u < |adj| ==> marked[u]
    ensures !IsCycle(adj, p)
  {
    if IsCycle(adj, p) && |p| >= 3 {
      RingRepeats(adj, marked, edgeTo, depth, p);
    }
  }

  /** A search that marked every vertex without finding a cycle has seen a forest. */
  lemma Complete(adj: seq<set<nat>>, marked: seq<bool>, edgeTo: seq<Option<nat>>, depth: seq<nat>)
    requires Symmetric(adj) && Forested(adj, marked, edgeTo, depth, [])
    requires forall u :: 0 <= u < |adj| ==> marked[u]
    ensures Forest(adj)
  {
    forall p
      ensures !IsCycle(adj, p)
    {
      NoRing(adj, marked, edgeTo, depth, p);
    }
  }

  class Cycle {
    const adj: seq<set<nat>>
    var marked: seq<bool>
    var edgeTo: seq<Option<nat>>
    var cycle: seq<nat>
    /** The level of each reached vertex in its search tree. */
    ghost var depth: seq<nat>

    /** The result: a cycle is recorded exactly when the graph has one. */
    ghost predicate Valid()
      reads this
    {
      && (cycle == [] <==> Forest(adj))
      && (cycle != [] ==> Recorded(adj, cycle))
    }

    /** Searches from every vertex not yet marked, in increasing order, until a cycle is
        recorded. */
    constructor (adj: seq<set<nat>>)
      requires Symmetric(adj)
      ensures this.adj == adj && Valid()
    {
      this.adj := adj;
      marked := seq(|adj|, _ => false);
      edgeTo := seq(|adj|, _ => None);
      cycle := [];
      depth := seq(|adj|, _ => 0);
      new;
      Start(adj);
      var vertex := 0;
      while vertex < |adj| && cycle == []
        invariant vertex <= |adj| && Sized(adj, marked, edgeTo, depth)
        invariant cycle != [] ==> Recorded(adj, cycle)
        invariant cycle == [] ==> Forested(adj, marked, edgeTo, depth, []) && CycleSearch.Unlinked(marked, edgeTo, -1)
        invariant cycle == [] ==> forall u :: 0 <= u < vertex ==> marked[u]
      {
        if !marked[vertex] {
          Dfs(vertex, -1, []);
        }
        vertex := vertex + 1;
      }
      if cycle == [] {
        Complete(adj, marked, edgeTo, depth);
      } else {
        RecordedCycle(adj, cycle);
      }
    }

    /** `_dfs(current_vertex, parent_vertex)`: marks v, then examines its neighbours. */
    method Dfs(v: nat, parent: int, ghost stack: seq<nat>)
      requires Symmetric(adj) && cycle == [] && Forested(adj, marked, edgeTo, depth, stack) && v < |adj| && !marked[v]
      requires CycleSearch.Unlinked(marked, edgeTo, v)
      requires parent == if stack == [] then -1 else stack[|stack| - 1]
      requires edgeTo[v] == if stack == [] then None else Some(stack[|stack| - 1])
      requires stack != [] ==> v in adj[stack[|stack| - 1]] && depth[v] == depth[stack[|stack| - 1]] + 1
      modifies this
      ensures Sized(adj, marked, edgeTo, depth) && (cycle != [] ==> Recorded(adj, cycle))
      ensures cycle == [] ==> Forested(adj, marked, edgeTo, depth, stack) && CycleSearch.Unlinked(marked, edgeTo, -1)
      ensures cycle == [] ==> marked[v] && DepthFirst.Grows(old(marked), marked) && edgeTo[v] == old(edgeTo)[v]
      ensures cycle == [] ==> Kept(old(marked), old(edgeTo), edgeTo) && Fresh(old(marked), marked, edgeTo, v)
      decreases DepthFirst.Unmarked(marked), 0
    {
      Enter(adj, marked, edgeTo, depth, stack, v);
      marked := marked[v := true];
      assert v in DepthFirst.Unmarked(old(marked)) && DepthFirst.Unmarked(marked) < DepthFirst.Unmarked(old(marked));
      Scan(v, parent, stack, old(marked));
      if cycle == [] {
        Leave(adj, marked, edgeTo, depth, stack, v);
      }
    }

    /** The loop of `_dfs` over the neighbours of v, in any order, leaving as soon as a
        cycle is recorded. */
    method Scan(v: nat, parent: int, ghost stack: seq<nat>, ghost m0: seq<bool>)
      requires Symmetric(adj) && cycle == [] && Forested(adj, marked, edgeTo, depth, stack + [v]) && v < |adj|
      requires CycleSearch.Unlinked(marked, edgeTo, -1) && Examined(adj, marked, edgeTo, v, {})
      requires parent == if stack == [] then -1 else stack[|stack| - 1]
      requires |m0| == |adj| && !m0[v] && DepthFirst.Grows(m0, marked) && Fresh(m0, marked, edgeTo, v)
      modifies this
      ensures Sized(adj, marked, edgeTo, depth) && (cycle != [] ==> Recorded(adj, cycle))
      ensures cycle == [] ==> Forested(adj, marked, edgeTo, depth, stack + [v]) && CycleSearch.Unlinked(marked, edgeTo, -1)
      ensures cycle == [] ==> Examined(adj, marked, edgeTo, v, adj[v])
      ensures cycle == [] ==> DepthFirst.Grows(old(marked), marked) && Kept(old(marked), old(edgeTo), edgeTo)
      ensures cycle == [] ==> Fresh(m0, marked, edgeTo, v)
      decreases DepthFirst.Unmarked(marked), 2
    {
      var rest := adj[v];
      while rest != {} && cycle == []
        invariant Sized(adj, marked, edgeTo, depth) && rest <= adj[v] && (cycle != [] ==> Recorded(adj, cycle))
        invariant cycle == [] ==> Forested(adj, marked, edgeTo, depth, stack + [v]) && CycleSearch.Unlinked(marked, edgeTo, -1)
        invariant cycle == [] ==> Examined(adj, marked, edgeTo, v, adj[v] - rest)
        invariant cycle == [] ==> DepthFirst.Grows(old(marked), marked) && Kept(old(marked), old(edgeTo), edgeTo)
        invariant cycle == [] ==> DepthFirst.Grows(m0, marked) && Fresh(m0, marked, edgeTo, v)
        decreases rest
      {
        var w :| w in rest;
        ghost var m1, e1 := marked, edgeTo;
        DepthFirst.GrowsUnmarked(old(marked), marked);
        Step(v, w, parent, stack, adj[v] - rest, m0);
        if cycle == [] {
          KeptTrans(old(marked), m1, old(edgeTo), e1, edgeTo);
          TakeOne(adj[v], rest, w);
        }
        rest := rest - {w};
      }
    }

    /** The body of that loop for the neighbour w of v: a search from w when it is
        unmarked, else a cycle when w is not v's parent. */
    method Step(v: nat, w: nat, parent: int, ghost stack: seq<nat>, ghost done: set<nat>, ghost m0: seq<bool>)
      requires Symmetric(adj) && cycle == [] && Forested(adj, marked, edgeTo, depth, stack + [v]) && v < |adj|
      requires CycleSearch.Unlinked(marked, edgeTo, -1) && w in adj[v] && w !in done && Examined(adj, marked, edgeTo, v, done)
      requires parent == if stack == [] then -1 else stack[|stack| - 1]
      requires |m0| == |adj| && !m0[v] && DepthFirst.Grows(m0, marked) && Fresh(m0, marked, edgeTo, v)
      modifies this
      ensures Sized(adj, marked, edgeTo, depth) && (cycle != [] ==> Recorded(adj, cycle))
      ensures cycle == [] ==> Forested(adj, marked, edgeTo, depth, stack + [v]) && CycleSearch.Unlinked(marked, edgeTo, -1)
      ensures cycle == [] ==> Examined(adj, marked, edgeTo, v, done + {w})
      ensures cycle == [] ==> DepthFirst.Grows(old(marked), marked) && Kept(old(marked), old(edgeTo), edgeTo)
      ensures cycle == [] ==> DepthFirst.Grows(m0, marked) && Fresh(m0, marked, edgeTo, v)
      decreases DepthFirst.Unmarked(marked), 1
    {
      var s := stack + [v];
      assert s[|s| - 1] == v && v < |marked| && marked[v];
      assert w < |adj|;
      TopLink(edgeTo, stack, v);
      if !marked[w] {
        Link(adj, marked, edgeTo, depth, s, v, done, w);
        Reparent(m0, marked, edgeTo, v, w);
        ghost var mS, eL := marked, edgeTo[w := Some(v)];
        edgeTo := edgeTo[w := Some(v)];
        depth := depth[w := depth[v] + 1];
        Dfs(w, v, s);
        if cycle == [] {
          Adopt(adj, mS, eL, marked, edgeTo, v, done, w);
          KeptTrans(mS, mS, old(edgeTo), eL, edgeTo);
          FreshStep(m0, mS, eL, marked, edgeTo, v, w);
        }
      } else if w != parent {
        OnPath(adj, marked, edgeTo, depth, stack, v, done, w);
        Close(adj, marked, edgeTo, depth, s, w);
        GetCyclePath(v, w, s);
      }
    }

    /** `_get_cycle_path(v, w)`: follows the parent links from v back to the root, putting
        each vertex in front, then appends w. With the parent links running down the stack
        this records the stack followed by w. */
    method GetCyclePath(v: nat, w: nat, ghost s: seq<nat>)
      requires CycleSearch.TreePath(edgeTo, s) && s != [] && s[|s| - 1] == v
      modifies this
      ensures cycle == s + [w]
      ensures marked == old(marked) && edgeTo == old(edgeTo) && depth == old(depth)
    {
      var path: seq<nat> := [];
      var current: Option<nat> := Some(v);
      ghost var k: nat := |s|;
      while current.Some?
        invariant k <= |s| && path == s[k..]
        invariant current == if k > 0 then Some(s[k - 1]) else None
        decreases k
      {
        assert [s[k - 1]] + s[k..] == s[k - 1..];
        path := [current.value] + path;
        current := edgeTo[current.value];
        k := k - 1;
      }
      assert path == s;
      cycle := path + [w];
    }

    /** `has_cycle`: whether a cycle was recorded, which is whether the graph has one. */
    function HasCycle(): (r: bool)
      requires Valid()
      reads this
      ensures r <==> !Forest(adj)
    {
      cycle != []
    }

    /** `get_cycle`: the recorded cycle, or None for a forest. */
    function GetCycle(): (r: Option<seq<nat>>)
      requires Valid()
      reads this
      ensures r.None? <==> Forest(adj)
      ensures r.Some? ==> Recorded(adj, r.value)
    {
      if cycle == [] then None else Some(cycle)
    }
  }
}
