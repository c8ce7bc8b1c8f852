/** `EulerianGraph` of undirected_graph_algorithms: a multigraph kept as one list of
    neighbours per vertex, the degree and connectivity checks that decide whether it has an
    Eulerian cycle or path, and the bridge test the tour walker relies on. */
module Eulerian {
  import opened Common
  import opened DepthFirst
  import opened FinishingOrder
  import KosarajuSharir
  import UndirectedGraphs

  /** `list.remove(x)`: the first occurrence of x is taken out, the rest keeps its order. */
  function RemoveFirst(s: seq<nat>, x: nat): (r: seq<nat>)
    requires x in s
    ensures |r| == |s| - 1
  {
    if s[0] == x then s[1..] else [s[0]] + RemoveFirst(s[1..], x)
  }

  /** Removing leaves what came before the first x and what came after it. */
  lemma {:induction false} RemoveShape(s: seq<nat>, x: nat)
    requires x in s
    ensures RemoveFirst(s, x) == s[..IndexOf(s, x)] + s[IndexOf(s, x) + 1..]
  {
    if s[0] != x {
      var t := s[1..];
      var i := IndexOf(s, x);
      RemoveShape(t, x);
      assert i == IndexOf(t, x) + 1;
      var r, e := RemoveFirst(s, x), s[..i] + s[i + 1..];
      forall k | 0 <= k < |r|
        ensures r[k] == e[k]
      {
        if k > 0 {
          assert r[k] == RemoveFirst(t, x)[k - 1];
        }
      }
    }
  }

  /** Removing takes exactly one x out of the multiset of entries. */
  lemma RemoveCount(s: seq<nat>, x: nat)
    requires x in s
    ensures multiset(RemoveFirst(s, x)) == multiset(s) - multiset{x}
  {
    var i := IndexOf(s, x);
    RemoveShape(s, x);
    var front, back := s[..i], s[i + 1..];
    assert s == front + [x] + back;
    assert multiset(s) == multiset(front) + multiset{x} + multiset(back);
  }

  /** Each edge is listed at both of its ends: w appears as often in the list of v as v in
      the list of w, and a loop appears twice in its own list for every copy of it. */
  ghost predicate Balanced(graph: seq<seq<nat>>)
  {
    && (forall v, w :: 0 <= v < |graph| && 0 <= w < |graph| ==> multiset(graph[v])[w] == multiset(graph[w])[v])
    && (forall v :: 0 <= v < |graph| ==> multiset(graph[v])[v] % 2 == 0)
  }

  /** The sum of the degrees of the vertices below k. */
  function Degrees(graph: seq<seq<nat>>, k: nat): nat
    requires k <= |graph|
  {
    if k == 0 then 0 else Degrees(graph, k - 1) + |graph[k - 1]|
  }

  /** Replacing one list changes the sum by the change in its length. */
  lemma {:induction false} DegreesUpdate(graph: seq<seq<nat>>, k: nat, i: nat, s: seq<nat>)
    requires i < k <= |graph|
    ensures Degrees(graph[i := s], k) + |graph[i]| == Degrees(graph, k) + |s|
  {
    if i < k - 1 {
      DegreesUpdate(graph, k - 1, i, s);
    } else {
      DegreesSame(graph, graph[i := s], k - 1);
    }
  }

  lemma {:induction false} DegreesSame(g: seq<seq<nat>>, h: seq<seq<nat>>, k: nat)
    requires k <= |g| && k <= |h| && forall u :: 0 <= u < k ==> |g[u]| == |h[u]|
    ensures Degrees(g, k) == Degrees(h, k)
  {
    if k > 0 {
      DegreesSame(g, h, k - 1);
    }
  }

  /** The vertices below k of odd degree. */
  ghost function OddBelow(graph: seq<seq<nat>>, k: nat): set<nat>
    requires k <= |graph|
  {
    set v: nat | v < k && |graph[v]| % 2 != 0
  }

  /** The vertices of odd degree. */
  ghost function OddVertices(graph: seq<seq<nat>>): set<nat>
  {
    OddBelow(graph, |graph|)
  }

  /** How many vertices below k have odd degree; it has the parity of their degree sum. */
  function OddCount(graph: seq<seq<nat>>, k: nat): (r: nat)
    requires k <= |graph|
    ensures r == |OddBelow(graph, k)|
    ensures r % 2 == Degrees(graph, k) % 2
  {
    if k == 0 then 0
    else
      OddStep(graph, k);
      OddCount(graph, k - 1) + if |graph[k - 1]| % 2 != 0 then 1 else 0
  }

  lemma OddStep(graph: seq<seq<nat>>, k: nat)
    requires 0 < k <= |graph|
    ensures |OddBelow(graph, k)| == |OddBelow(graph, k - 1)| + if |graph[k - 1]| % 2 != 0 then 1 else 0
  {
    assert OddBelow(graph, k) == OddBelow(graph, k - 1) + if |graph[k - 1]| % 2 != 0 then {k - 1} else {};
    assert k - 1 !in OddBelow(graph, k - 1);
  }

  /** With an even degree sum, the number of odd vertices is even: it is never one. */
  lemma Handshake(graph: seq<seq<nat>>)
    requires Degrees(graph, |graph|) % 2 == 0
    ensures |OddVertices(graph)| % 2 == 0
  {
    var r := OddCount(graph, |graph|);
  }

  /** `add_edge(v, w)` on two vertices of the graph: w appended to the list of v, then v
      to the list of w. */
  function Link(graph: seq<seq<nat>>, v: nat, w: nat): (h: seq<seq<nat>>)
    requires v < |graph| && w < |graph|
    ensures |h| == |graph|
  {
    var g1 := graph[v := graph[v] + [w]];
    g1[w := g1[w] + [v]]
  }

  /** Adding v-w lists w once more at v and v once more at w, and nothing else changes. */
  lemma LinkAt(graph: seq<seq<nat>>, v: nat, w: nat, u: nat, y: nat)
    requires v < |graph| && w < |graph| && u < |graph|
    ensures multiset(Link(graph, v, w)[u])[y] ==
      multiset(graph[u])[y] + (if u == v && y == w then 1 else 0) + (if u == w && y == v then 1 else 0)
  {
    var g1 := graph[v := graph[v] + [w]];
    assert multiset(g1[u])[y] == multiset(graph[u])[y] + (if u == v && y == w then 1 else 0);
  }

  /** `remove_edge(v, w)` goes through: w is in the list of v and, once it is taken out, v
      is still in the list of w. */
  ghost predicate Removable(graph: seq<seq<nat>>, v: nat, w: nat)
  {
    v < |graph| && w < |graph| && w in graph[v] && v in graph[v := RemoveFirst(graph[v], w)][w]
  }

  /** `remove_edge(v, w)` on a removable edge: the first w out of the list of v, then the
      first v out of the list of w. */
  function Cut(graph: seq<seq<nat>>, v: nat, w: nat): (h: seq<seq<nat>>)
    requires Removable(graph, v, w)
    ensures |h| == |graph|
    ensures |h[v]| + (if v == w then 2 else 1) == |graph[v]|
  {
    var g1 := graph[v := RemoveFirst(graph[v], w)];
    g1[w := RemoveFirst(g1[w], v)]
  }

  /** Removing v-w lists w once less at v and v once less at w, and nothing else changes. */
  lemma CutAt(graph: seq<seq<nat>>, v: nat, w: nat, u: nat, y: nat)
    requires Removable(graph, v, w) && u < |graph|
    ensures multiset(Cut(graph, v, w)[u])[y] + (if u == v && y == w then 1 else 0) + (if u == w && y == v then 1 else 0) ==
      multiset(graph[u])[y]
  {
    var g1 := graph[v := RemoveFirst(graph[v], w)];
    RemoveCount(graph[v], w);
    RemoveCount(g1[w], v);
    assert multiset(g1[u])[y] + (if u == v && y == w then 1 else 0) == multiset(graph[u])[y];
  }

  /** Adding back an edge just removed restores the multiset of every list. */
  lemma Restored(graph: seq<seq<nat>>, v: nat, w: nat)
    requires Removable(graph, v, w)
    ensures forall u :: 0 <= u < |graph| ==> multiset(Link(Cut(graph, v, w), v, w)[u]) == multiset(graph[u])
  {
    var h := Link(Cut(graph, v, w), v, w);
    forall u | 0 <= u < |graph|
      ensures multiset(h[u]) == multiset(graph[u])
    {
      forall y
        ensures multiset(h[u])[y] == multiset(graph[u])[y]
      {
        CutAt(graph, v, w, u, y);
        LinkAt(Cut(graph, v, w), v, w, u, y);
      }
    }
  }

  /** On a balanced graph every listed edge can be removed. */
  lemma Listed(graph: seq<seq<nat>>, v: nat, w: nat)
    requires Balanced(graph) && v < |graph| && w < |graph| && w in graph[v]
    ensures Removable(graph, v, w)
  {
    var g1 := graph[v := RemoveFirst(graph[v], w)];
    RemoveCount(graph[v], w);
    if v == w {
      assert multiset(graph[v])[v] >= 2;
      assert multiset(g1[w])[v] >= 1;
    } else {
      assert multiset(graph[w])[v] >= 1;
    }
  }

  /** Two counts that differ by nothing or by two are even together. */
  lemma Parity(c: nat, d: nat)
    requires c == d || c == d + 2
    ensures c % 2 == d % 2
  {
  }

  /** Adding an edge keeps the graph closed and balanced and adds two to the degree sum. */
  lemma LinkKeeps(graph: seq<seq<nat>>, v: nat, w: nat)
    requires Closed(graph) && Balanced(graph) && v < |graph| && w < |graph|
    ensures Closed(Link(graph, v, w)) && Balanced(Link(graph, v, w))
    ensures Degrees(Link(graph, v, w), |graph|) == Degrees(graph, |graph|) + 2
  {
    var h := Link(graph, v, w);
    assert Closed(h) by {
      forall u, i | 0 <= u < |h| && 0 <= i < |h[u]|
        ensures h[u][i] < |h|
      {
        var y := h[u][i];
        assert multiset(h[u])[y] > 0;
        LinkAt(graph, v, w, u, y);
        if multiset(graph[u])[y] > 0 {
          var j :| 0 <= j < |graph[u]| && graph[u][j] == y;
        }
      }
    }
    assert Balanced(h) by {
      forall a, b | 0 <= a < |h| && 0 <= b < |h|
        ensures multiset(h[a])[b] == multiset(h[b])[a]
      {
        LinkAt(graph, v, w, a, b);
        LinkAt(graph, v, w, b, a);
      }
      forall a | 0 <= a < |h|
        ensures multiset(h[a])[a] % 2 == 0
      {
        LinkAt(graph, v, w, a, a);
        Parity(multiset(h[a])[a], multiset(graph[a])[a]);
      }
    }
    var g1 := graph[v := graph[v] + [w]];
    DegreesUpdate(graph, |graph|, v, graph[v] + [w]);
    DegreesUpdate(g1, |graph|, w, g1[w] + [v]);
  }

  /** Removing an edge keeps the graph closed and balanced and takes two off the degree sum. */
  lemma CutKeeps(graph: seq<seq<nat>>, v: nat, w: nat)
    requires Closed(graph) && Balanced(graph) && Removable(graph, v, w)
    ensures Closed(Cut(graph, v, w)) && Balanced(Cut(graph, v, w))
    ensures Degrees(Cut(graph, v, w), |graph|) + 2 == Degrees(graph, |graph|)
  {
    var h := Cut(graph, v, w);
    assert Closed(h) by {
      forall u, i | 0 <= u < |h| && 0 <= i < |h[u]|
        ensures h[u][i] < |h|
      {
        CutEdge(graph, v, w, u, h[u][i]);
        var j :| 0 <= j < |graph[u]| && graph[u][j] == h[u][i];
      }
    }
    assert Balanced(h) by {
      forall a, b | 0 <= a < |h| && 0 <= b < |h|
        ensures multiset(h[a])[b] == multiset(h[b])[a]
      {
        CutAt(graph, v, w, a, b);
        CutAt(graph, v, w, b, a);
      }
      forall a | 0 <= a < |h|
        ensures multiset(h[a])[a] % 2 == 0
      {
        CutAt(graph, v, w, a, a);
        Parity(multiset(graph[a])[a], multiset(h[a])[a]);
      }
    }
    var g1 := graph[v := RemoveFirst(graph[v], w)];
    DegreesUpdate(graph, |graph|, v, RemoveFirst(graph[v], w));
    DegreesUpdate(g1, |graph|, w, RemoveFirst(g1[w], v));
  }

  /** Cutting one copy of the edge v-w leaves every other edge in place. */
  lemma CutEdge(graph: seq<seq<nat>>, v: nat, w: nat, x: nat, y: nat)
    requires Removable(graph, v, w) && x < |graph|
    ensures y in Cut(graph, v, w)[x] ==> y in graph[x]
    ensures y in graph[x] && y !in Cut(graph, v, w)[x] ==> (x == v && y == w) || (x == w && y == v)
  {
    CutAt(graph, v, w, x, y);
    assert multiset(Cut(graph, v, w)[x])[y] > 0 <==> y in Cut(graph, v, w)[x];
    assert multiset(graph[x])[y] > 0 <==> y in graph[x];
  }

  /** A walk after the cut is a walk before it. */
  lemma CutWalk(graph: seq<seq<nat>>, v: nat, w: nat, p: seq<nat>)
    requires Removable(graph, v, w) && IsWalk(Cut(graph, v, w), p)
    ensures IsWalk(graph, p)
  {
    var h := Cut(graph, v, w);
    forall k | 0 <= k < |p| - 1
      ensures p[k + 1] in Succ(graph, p[k])
    {
      CutEdge(graph, v, w, p[k], p[k + 1]);
    }
  }

  /** When w is still reachable from v after the cut, so is everything reachable before it:
      a walk over the cut edge can go round by the other way from v to w. */
  lemma {:induction false} Reroute(graph: seq<seq<nat>>, v: nat, w: nat, p: seq<nat>)
    requires Removable(graph, v, w) && IsWalk(graph, p) && p[0] == v
    requires Reaches(Cut(graph, v, w), v, w)
    ensures Reaches(Cut(graph, v, w), v, p[|p| - 1])
    decreases |p|
  {
    var h := Cut(graph, v, w);
    if |p| == 1 {
      ReachesRefl(h, v);
    } else {
      var q := p[..|p| - 1];
      assert IsWalk(graph, q) by {
        forall k | 0 <= k < |q| - 1
          ensures q[k + 1] in Succ(graph, q[k])
        {
          assert q[k] == p[k] && q[k + 1] == p[k + 1];
        }
      }
      Reroute(graph, v, w, q);
      var x, y := p[|p| - 2], p[|p| - 1];
      assert x == q[|q| - 1] && y in graph[x];
      CutEdge(graph, v, w, x, y);
      if y in h[x] {
        assert IsWalk(h, [x, y]);
        ReachesTrans(h, v, x, y);
      } else if y == v {
        ReachesRefl(h, v);
      }
    }
  }

  /** The vertices reachable from s, s included. */
  ghost function ReachSet(graph: seq<seq<nat>>, s: nat): set<nat>
  {
    set x: nat | x < |graph| && Reaches(graph, s, x)
  }

  /** Cutting an edge takes reachable vertices away and adds none. */
  lemma CutFewer(graph: seq<seq<nat>>, v: nat, w: nat)
    requires Removable(graph, v, w)
    ensures ReachSet(Cut(graph, v, w), v) <= ReachSet(graph, v)
  {
    var h := Cut(graph, v, w);
    forall x | x in ReachSet(h, v)
      ensures x in ReachSet(graph, v)
    {
      var p :| IsWalk(h, p) && p[0] == v && p[|p| - 1] == x;
      CutWalk(graph, v, w, p);
    }
  }

  /** While w stays reachable from v, the cut takes nothing away. */
  lemma CutSame(graph: seq<seq<nat>>, v: nat, w: nat)
    requires Removable(graph, v, w) && Reaches(Cut(graph, v, w), v, w)
    ensures ReachSet(Cut(graph, v, w), v) == ReachSet(graph, v)
  {
    CutFewer(graph, v, w);
    forall x | x in ReachSet(graph, v)
      ensures x in ReachSet(Cut(graph, v, w), v)
    {
      var p :| IsWalk(graph, p) && p[0] == v && p[|p| - 1] == x;
      Reroute(graph, v, w, p);
    }
  }

  /** After cutting one copy of v-w, as many vertices are reachable from v as before
      exactly when w still is: the comparison of counts in the bridge test. */
  lemma BridgeTest(graph: seq<seq<nat>>, v: nat, w: nat)
    requires Closed(graph) && Removable(graph, v, w)
    ensures |ReachSet(Cut(graph, v, w), v)| == |ReachSet(graph, v)| <==> Reaches(Cut(graph, v, w), v, w)
  {
    var A, B := ReachSet(Cut(graph, v, w), v), ReachSet(graph, v);
    if |A| == |B| {
      CutFewer(graph, v, w);
      assert |B - A| == |B| - |A|;
      assert B - A == {};
      assert graph[v][IndexOf(graph[v], w)] == w;
      assert IsWalk(graph, [v, w]);
      assert w in B;
    }
    if Reaches(Cut(graph, v, w), v, w) {
      CutSame(graph, v, w);
    }
  }

  /** Every vertex marked so far is reachable from the root. */
  ghost predicate Found(graph: seq<seq<nat>>, marked: seq<bool>, root: nat)
  {
    forall u :: 0 <= u < |marked| && marked[u] ==> Reaches(graph, root, u)
  }

  /** A search started from root with nothing marked that has returned marked exactly the
      vertices reachable from root. */
  lemma Reached(graph: seq<seq<nat>>, marked: seq<bool>, root: nat)
    requires KosarajuSharir.Open(graph, marked, []) && Found(graph, marked, root)
    requires root < |graph| && marked[root]
    ensures TrueSet(marked) == ReachSet(graph, root)
  {
    assert KosarajuSharir.Shut(graph, marked) by {
      forall u, x | 0 <= u < |graph| && marked[u] && x in graph[u]
        ensures x < |graph| && marked[x]
      {
      }
    }
    forall x | x in ReachSet(graph, root)
      ensures x in TrueSet(marked)
    {
      KosarajuSharir.ShutReaches(graph, marked, root, x);
    }
  }

  /** All reachable from vertex 0. */
  ghost predicate Connected(graph: seq<seq<nat>>)
  {
    forall x :: 0 <= x < |graph| ==> Reaches(graph, 0, x)
  }

  /** All marked exactly when the marks count every vertex. */
  lemma {:induction false} AllMarked(marked: seq<bool>)
    ensures |TrueSet(marked)| == |marked| <==> forall k :: 0 <= k < |marked| ==> marked[k]
    decreases |marked|
  {
    TrueSetSize(marked);
    if marked != [] && forall k :: 0 <= k < |marked| ==> marked[k] {
      var m' := marked[..|marked| - 1];
      AllMarked(m');
      assert TrueSet(marked) == TrueSet(m') + {|marked| - 1};
      assert |marked| - 1 !in TrueSet(m');
    }
  }

  /** An even count of at most two is none or two. */
  lemma SmallEven(n: nat)
    requires n % 2 == 0
    ensures n <= 2 <==> n == 0 || n == 2
  {
  }

  /** A set of two elements is a pair of distinct ones. */
  lemma Pair(s: set<nat>)
    ensures |s| == 2 <==> exists a, b :: a in s && b in s && a != b && s == {a, b}
  {
    if |s| == 2 {
      var a :| a in s;
      assert |s - {a}| == 1;
      var b :| b in s - {a};
      assert |s - {a} - {b}| == 0;
      assert s == {a, b};
    }
  }

  class EulerianGraph {
    /** The neighbour list of every vertex: `_graph`, keyed 0 through n - 1. */
    var graph: seq<seq<nat>>

    /** Every listed neighbour is a vertex, each edge is listed at both ends, and the
        degrees add up to an even number. */
    ghost predicate Valid()
      reads this
    {
      Closed(graph) && Balanced(graph) && Degrees(graph, |graph|) % 2 == 0
    }

    /** `__init__`: the given number of vertices, no edges. */
    constructor(vertices: nat)
      ensures graph == seq(vertices, _ => []) && Valid()
    {
      graph := seq(vertices, _ => []);
      new;
      DegreesSame(graph, seq(vertices, _ => []), vertices);
      NoDegrees(vertices, vertices);
    }

    static lemma {:induction false} NoDegrees(vertices: nat, k: nat)
      requires k <= vertices
      ensures Degrees(seq(vertices, _ => []), k) == 0
    {
      if k > 0 {
        NoDegrees(vertices, k - 1);
      }
    }

    /** `add_edge(v, w)`: w appended to the list of v, then v to the list of w. A v
        outside the graph is a missing key before anything changes; a w outside it is one
        after w has been appended to the list of v. */
    method AddEdge(v: nat, w: nat) returns (r: Outcome<UndirectedGraphs.GraphError>)
      modifies this
      ensures v >= |old(graph)| ==> r == Fail(UndirectedGraphs.MissingVertex) && graph == old(graph)
      ensures v < |old(graph)| <= w ==>
        r == Fail(UndirectedGraphs.MissingVertex) && graph == old(graph)[v := old(graph)[v] + [w]]
      ensures v < |old(graph)| && w < |old(graph)| ==> r == Pass && graph == Link(old(graph), v, w)
      ensures r == Pass && old(Valid()) ==> Valid()
    {
      if v >= |graph| {
        return Fail(UndirectedGraphs.MissingVertex);
      }
      if w >= |graph| {
        graph := graph[v := graph[v] + [w]];
        return Fail(UndirectedGraphs.MissingVertex);
      }
      if Valid() {
        LinkKeeps(graph, v, w);
      }
      graph := Link(graph, v, w);
      return Pass;
    }

    /** `remove_edge(v, w)`: the first w out of the list of v, then the first v out of the
        list of w. A missing key or list entry fails, and a failure in the second step
        leaves the first one done. */
    method RemoveEdge(v: nat, w: nat) returns (r: Outcome<UndirectedGraphs.GraphError>)
      modifies this
      ensures v >= |old(graph)| ==> r == Fail(UndirectedGraphs.MissingVertex) && graph == old(graph)
      ensures v < |old(graph)| && w !in old(graph)[v] ==>
        r == Fail(UndirectedGraphs.MissingEdge) && graph == old(graph)
      ensures v < |old(graph)| && w in old(graph)[v] && w >= |old(graph)| ==>
        r == Fail(UndirectedGraphs.MissingVertex) && graph == old(graph)[v := RemoveFirst(old(graph)[v], w)]
      ensures v < |old(graph)| && w in old(graph)[v] && w < |old(graph)| && !Removable(old(graph), v, w) ==>
        r == Fail(UndirectedGraphs.MissingEdge) && graph == old(graph)[v := RemoveFirst(old(graph)[v], w)]
      ensures Removable(old(graph), v, w) ==> r == Pass && graph == Cut(old(graph), v, w)
      ensures old(Valid()) && v < |old(graph)| && w < |old(graph)| ==> (r == Pass <==> w in old(graph)[v])
      ensures r == Pass && old(Valid()) ==> Valid()
    {
      if v >= |graph| {
        return Fail(UndirectedGraphs.MissingVertex);
      }
      if w !in graph[v] {
        return Fail(UndirectedGraphs.MissingEdge);
      }
      var g1 := graph[v := RemoveFirst(graph[v], w)];
      if w >= |graph| {
        graph := g1;
        return Fail(UndirectedGraphs.MissingVertex);
      }
      if Valid() {
        Listed(graph, v, w);
      }
      if v !in g1[w] {
        graph := g1;
        return Fail(UndirectedGraphs.MissingEdge);
      }
      if Valid() {
        CutKeeps(graph, v, w);
        Parity(Degrees(graph, |graph|), Degrees(Cut(graph, v, w), |graph|));
      }
      graph := Cut(graph, v, w);
      return Pass;
    }

    /** `_dfs_count(v, marked)`: marks v and, through unmarked neighbours, every vertex the
        search can still reach, and returns how many vertices it marked. The ghost stack
        holds the calls still active, from the root of the first call. */
    method DfsCount(v: nat, marked: array<bool>, ghost root: nat, ghost stack: seq<nat>) returns (count: nat)
      requires Closed(graph) && marked.Length == |graph| && v < |graph| && !marked[v]
      requires KosarajuSharir.Trail(graph, stack, root, v) && KosarajuSharir.Open(graph, marked[..], stack)
      requires Found(graph, marked[..], root)
      modifies marked
      ensures Grows(old(marked[..]), marked[..]) && marked[v]
      ensures KosarajuSharir.Open(graph, marked[..], stack) && Found(graph, marked[..], root)
      ensures count + |TrueSet(old(marked[..]))| == |TrueSet(marked[..])|
      decreases Unmarked(marked[..])
    {
      KosarajuSharir.TrailReaches(graph, stack, root, v);
      ghost var entry := marked[..];
      marked[v] := true;
      assert marked[..] == entry[v := true];
      TrueSetMark(entry, v);
      assert v in Unmarked(entry) && Unmarked(marked[..]) < Unmarked(entry);
      ghost var walk := stack + [v];
      count := 1;
      var adjacent := graph[v];
      for i := 0 to |adjacent|
        invariant Grows(entry, marked[..]) && marked[v] && Unmarked(marked[..]) < Unmarked(entry)
        invariant KosarajuSharir.Open(graph, marked[..], walk) && Found(graph, marked[..], root)
        invariant count + |TrueSet(entry)| == |TrueSet(marked[..])|
        invariant forall t :: 0 <= t < i ==> adjacent[t] < |graph| && marked[adjacent[t]]
      {
        var w := adjacent[i];
        ghost var before := marked[..];
        if !marked[w] {
          KosarajuSharir.Deeper(graph, stack, root, v, w);
          var c := DfsCount(w, marked, root, walk);
          GrowsUnmarked(before, marked[..]);
          count := count + c;
        }
        KosarajuSharir.Visited(before, marked[..], adjacent, i);
      }
      KosarajuSharir.Leave(graph, marked[..], stack, v);
    }

    /** A count from a fresh marked list: the number of vertices reachable from v. */
    method CountFrom(v: nat) returns (count: nat)
      requires Closed(graph) && v < |graph|
      ensures count == |ReachSet(graph, v)|
    {
      var marked := new bool[|graph|](_ => false);
      assert TrueSet(marked[..]) == {};
      KosarajuSharir.TrailReaches(graph, [], v, v);
      count := DfsCount(v, marked, v, []);
      Reached(graph, marked[..], v);
    }

    /** `_all_connected`: whether the count from vertex 0 takes in every vertex. With no
        vertices there is no vertex 0 and the source fails with an index error. */
    method AllConnected() returns (r: Result<bool, UndirectedGraphs.GraphError>)
      requires Closed(graph)
      ensures |graph| == 0 ==> r == Err(UndirectedGraphs.NoVertices)
      ensures |graph| > 0 ==> r == Ok(Connected(graph))
    {
      if |graph| == 0 {
        return Err(UndirectedGraphs.NoVertices);
      }
      var marked := new bool[|graph|](_ => false);
      assert TrueSet(marked[..]) == {};
      KosarajuSharir.TrailReaches(graph, [], 0, 0);
      var count := DfsCount(0, marked, 0, []);
      Reached(graph, marked[..], 0);
      AllMarked(marked[..]);
      if forall k :: 0 <= k < marked.Length ==> marked[k] {
        forall x | 0 <= x < |graph|
          ensures Reaches(graph, 0, x)
        {
          assert x in TrueSet(marked[..]);
        }
      }
      if Connected(graph) {
        forall k | 0 <= k < marked.Length
          ensures marked[k]
        {
          assert k in ReachSet(graph, 0);
        }
      }
      return Ok(count == |graph|);
    }

    /** `_number_of_odd_vertices`: how many vertices have odd degree; an even number on a
        valid graph. */
    function NumberOfOddVertices(): (r: nat)
      reads this
      ensures r == |OddVertices(graph)|
      ensures Valid() ==> r % 2 == 0
    {
      OddCount(graph, |graph|)
    }

    /** `_has_eulerian_cycle`: no vertex has odd degree. */
    function HasEulerianCycle(): (r: bool)
      reads this
      ensures r <==> OddVertices(graph) == {}
    {
      NumberOfOddVertices() == 0
    }

    /** `_has_eulerian_path`: exactly two vertices have odd degree. */
    function HasEulerianPath(): (r: bool)
      reads this
      ensures r <==> exists a, b :: a in OddVertices(graph) && b in OddVertices(graph) && a != b && OddVertices(graph) == {a, b}
    {
      Pair(OddVertices(graph));
      NumberOfOddVertices() == 2
    }

    /** `_valid_eulerian`: everything reachable from vertex 0, and zero or two vertices of
        odd degree; no vertices is the index error of `_all_connected`. */
    method ValidEulerian() returns (r: Result<bool, UndirectedGraphs.GraphError>)
      requires Valid()
      ensures |graph| == 0 ==> r == Err(UndirectedGraphs.NoVertices)
      ensures |graph| > 0 ==> r == Ok(Connected(graph) && |OddVertices(graph)| <= 2)
    {
      r := AllConnected();
      if r == Ok(true) {
        var odd := NumberOfOddVertices();
        var path, cycle := HasEulerianPath(), HasEulerianCycle();
        Pair(OddVertices(graph));
        assert path <==> odd == 2;
        assert cycle <==> odd == 0;
        SmallEven(odd);
        r := Ok(path || cycle);
      }
    }

    /** `_edge_is_not_bridge(vertex, neighbor)`: true at degree one; otherwise whether the
        count from vertex stays the same once one copy of the edge is removed, which is
        whether neighbor can still be reached. The edge is put back at the end of both lists. */
    method EdgeIsNotBridge(vertex: nat, neighbor: nat) returns (r: bool)
      requires Valid() && vertex < |graph| && neighbor in graph[vertex]
      modifies this
      ensures Valid() && Removable(old(graph), vertex, neighbor)
      ensures |old(graph)[vertex]| == 1 ==> r && graph == old(graph)
      ensures |old(graph)[vertex]| != 1 ==> graph == Link(Cut(old(graph), vertex, neighbor), vertex, neighbor)
      ensures |graph| == |old(graph)| && forall u :: 0 <= u < |graph| ==> multiset(graph[u]) == multiset(old(graph)[u])
      ensures r <==> |old(graph)[vertex]| == 1 || Reaches(Cut(old(graph), vertex, neighbor), vertex, neighbor)
    {
      assert neighbor < |graph| by {
        var j :| 0 <= j < |graph[vertex]| && graph[vertex][j] == neighbor;
      }
      Listed(graph, vertex, neighbor);
      if |graph[vertex]| == 1 {
        return true;
      }
      var count := CountFrom(vertex);
      ghost var g0 := graph;
      Restored(g0, vertex, neighbor);
      BridgeTest(g0, vertex, neighbor);
      var removed := RemoveEdge(vertex, neighbor);
      assert graph == Cut(g0, vertex, neighbor) && Valid();
      var countWithoutEdge := CountFrom(vertex);
      var added := AddEdge(vertex, neighbor);
      r := count == countWithoutEdge;
    }
  }
}
