/**
  The undirected graph of undirected_graph_algorithms: one set of neighbours per vertex
  0..n-1, an edge v-w putting w in the set of v and v in the set of w, a loop v-v putting v
  in its own set once. With it, the paths every search of the package follows.
*/
module UndirectedGraphs {
  import opened Common

  /** `KeyError` for a vertex outside 0..n-1 or an edge that is not there to remove;
      `ValueError` for the largest degree of a graph without vertices. */
  datatype GraphError = MissingVertex | MissingEdge | NoVertices

  /** Every neighbour is a vertex, and each edge is seen from both of its ends. */
  ghost predicate Symmetric(adj: seq<set<nat>>)
  {
    forall v: nat, w: nat {:trigger w in adj[v]} :: v < |adj| && w in adj[v] ==> w < |adj| && v in adj[w]
  }

  /** A non-empty vertex sequence whose consecutive entries are neighbours. */
  ghost predicate IsPath(adj: seq<set<nat>>, p: seq<nat>)
  {
    && |p| >= 1
    && (forall k :: 0 <= k < |p| ==> p[k] < |adj|)
    && (forall k :: 0 <= k < |p| - 1 ==> p[k + 1] in adj[p[k]])
  }

  /** A path runs from v to w. */
  ghost predicate Connected(adj: seq<set<nat>>, v: nat, w: nat)
  {
    exists p :: IsPath(adj, p) && p[0] == v && p[|p| - 1] == w
  }

  /** Every vertex is connected to itself. */
  lemma ConnectedRefl(adj: seq<set<nat>>, v: nat)
    requires v < |adj|
    ensures Connected(adj, v, v)
  {
    assert IsPath(adj, [v]);
  }

  /** A path to u goes on to any neighbour of u. */
  lemma ConnectedStep(adj: seq<set<nat>>, v: nat, u: nat, w: nat)
    requires Connected(adj, v, u) && u < |adj| && w in adj[u] && w < |adj|
    ensures Connected(adj, v, w)
  {
    var p :| IsPath(adj, p) && p[0] == v && p[|p| - 1] == u;
    var q := p + [w];
    assert IsPath(adj, q) && q[0] == v && q[|q| - 1] == w;
  }

  /** With every edge seen from both ends, a path read backwards is a path. */
  lemma ConnectedSym(adj: seq<set<nat>>, v: nat, w: nat)
    requires Symmetric(adj) && Connected(adj, v, w)
    ensures Connected(adj, w, v)
  {
    var p :| IsPath(adj, p) && p[0] == v && p[|p| - 1] == w;
    var q := Reverse(p);
    forall k | 0 <= k < |q| - 1
      ensures q[k + 1] in adj[q[k]]
    {
      assert q[k] == p[|p| - 1 - k] && q[k + 1] == p[|p| - 2 - k];
      assert p[|p| - 1 - k] in adj[p[|p| - 2 - k]];
    }
    assert IsPath(adj, q) && q[0] == w && q[|q| - 1] == v;
  }

  /** Two paths that meet make one. */
  lemma ConnectedTrans(adj: seq<set<nat>>, u: nat, v: nat, w: nat)
    requires Connected(adj, u, v) && Connected(adj, v, w)
    ensures Connected(adj, u, w)
  {
    var p :| IsPath(adj, p) && p[0] == u && p[|p| - 1] == v;
    var q :| IsPath(adj, q) && q[0] == v && q[|q| - 1] == w;
    var r := p + q[1..];
    forall k | 0 <= k < |r| - 1
      ensures r[k + 1] in adj[r[k]]
    {
      if k < |p| - 1 {
        assert r[k] == p[k] && r[k + 1] == p[k + 1];
      } else {
        assert r[k] == q[k - |p| + 1] && r[k + 1] == q[k - |p| + 2];
      }
    }
    assert IsPath(adj, r) && r[0] == u && r[|r| - 1] == w;
  }

  /** A labelling that gives neighbours equal tags gives every path one tag. */
  ghost predicate Uniform(adj: seq<set<nat>>, tag: seq<nat>)
  {
    |tag| == |adj| && forall u, x :: 0 <= u < |adj| && x in adj[u] && x < |adj| ==> tag[x] == tag[u]
  }

  lemma {:induction false} UniformPath(adj: seq<set<nat>>, tag: seq<nat>, p: seq<nat>)
    requires Uniform(adj, tag) && IsPath(adj, p)
    ensures tag[p[|p| - 1]] == tag[p[0]]
    decreases |p|
  {
    if |p| > 1 {
      var q := p[..|p| - 1];
      assert IsPath(adj, q);
      UniformPath(adj, tag, q);
      assert p[|p| - 1] in adj[p[|p| - 2]];
    }
  }

  /** Connected vertices carry the same tag under a labelling uniform on edges. */
  lemma UniformConnected(adj: seq<set<nat>>, tag: seq<nat>, v: nat, w: nat)
    requires Uniform(adj, tag) && Connected(adj, v, w)
    ensures tag[v] == tag[w]
  {
    var p :| IsPath(adj, p) && p[0] == v && p[|p| - 1] == w;
    UniformPath(adj, tag, p);
  }

  /** The sum of the sizes of the neighbour sets. */
  function DegreeSum(adj: seq<set<nat>>): nat
    decreases |adj|
  {
    if adj == [] then 0 else DegreeSum(adj[..|adj| - 1]) + |adj[|adj| - 1]|
  }

  /** Replacing one set changes the sum by the change in its size. */
  lemma {:induction false} DegreeSumUpdate(adj: seq<set<nat>>, i: nat, s: set<nat>)
    requires i < |adj|
    ensures DegreeSum(adj[i := s]) == DegreeSum(adj) - |adj[i]| + |s|
    decreases |adj|
  {
    var n := |adj|;
    var b := adj[i := s];
    if i < n - 1 {
      assert b[..n - 1] == adj[..n - 1][i := s];
      DegreeSumUpdate(adj[..n - 1], i, s);
    } else {
      assert b[..n - 1] == adj[..n - 1];
    }
  }

  /** The edges between two different vertices, each once, as (smaller, larger). */
  ghost function Links(adj: seq<set<nat>>): set<(nat, nat)>
  {
    set v: nat, w: nat | v < w < |adj| && w in adj[v] :: (v, w)
  }

  /** The vertices with a loop. */
  ghost function Loops(adj: seq<set<nat>>): set<nat>
  {
    set v: nat | v < |adj| && v in adj[v]
  }

  /** The degrees add up to two per edge between different vertices and one per loop. */
  ghost predicate Counted(adj: seq<set<nat>>)
  {
    DegreeSum(adj) == 2 * |Links(adj)| + |Loops(adj)|
  }

  /** The edge as (smaller end, larger end). */
  function Ends(v: nat, w: nat): (nat, nat)
  {
    if v <= w then (v, w) else (w, v)
  }

  /** The sets after `add(w)` on the set of v and then `add(v)` on the set of w. */
  function Join(adj: seq<set<nat>>, v: nat, w: nat): (r: seq<set<nat>>)
    requires v < |adj| && w < |adj|
    ensures |r| == |adj|
  {
    var a := adj[v := adj[v] + {w}];
    a[w := a[w] + {v}]
  }

  /** Adding v-w puts w in the set of v and v in the set of w, and changes no other set. */
  lemma JoinAt(adj: seq<set<nat>>, v: nat, w: nat)
    requires v < |adj| && w < |adj|
    ensures forall u :: 0 <= u < |adj| ==>
      Join(adj, v, w)[u] == adj[u] + (if u == v then {w} else {}) + (if u == w then {v} else {})
  {
  }

  /** The sets after `remove(w)` on the set of v and then `remove(v)` on the set of w. */
  function Split(adj: seq<set<nat>>, v: nat, w: nat): (r: seq<set<nat>>)
    requires v < |adj| && w < |adj|
    ensures |r| == |adj|
  {
    var a := adj[v := adj[v] - {w}];
    a[w := a[w] - {v}]
  }

  /** Removing v-w takes w out of the set of v and v out of the set of w, and changes no
      other set. */
  lemma SplitAt(adj: seq<set<nat>>, v: nat, w: nat)
    requires v < |adj| && w < |adj|
    ensures forall u :: 0 <= u < |adj| ==>
      Split(adj, v, w)[u] == adj[u] - (if u == v then {w} else {}) - (if u == w then {v} else {})
  {
  }

  /** Membership in the links, stated on the pair. */
  lemma InLinks(adj: seq<set<nat>>, x: nat, y: nat)
    ensures (x, y) in Links(adj) <==> x < y < |adj| && y in adj[x]
  {
  }

  /** Sets that differ from adj only in the edge v-w, present in the new sets exactly
      when `present`, have the links and loops of adj with that edge put in or taken out. */
  lemma Relink(adj: seq<set<nat>>, r: seq<set<nat>>, v: nat, w: nat, present: bool)
    requires |r| == |adj| && v < |adj| && w < |adj|
    requires forall u: nat, x: nat :: u < |adj| && !((u == v && x == w) || (u == w && x == v)) ==> (x in r[u] <==> x in adj[u])
    requires present ==> w in r[v] && v in r[w]
    requires !present ==> w !in r[v] && v !in r[w]
    ensures Links(r) == if v == w then Links(adj) else if present then Links(adj) + {Ends(v, w)} else Links(adj) - {Ends(v, w)}
    ensures Loops(r) == if v != w then Loops(adj) else if present then Loops(adj) + {v} else Loops(adj) - {v}
  {
    var e := if v == w then Links(adj) else if present then Links(adj) + {Ends(v, w)} else Links(adj) - {Ends(v, w)};
    forall p | p in Links(r) || p in e
      ensures p in Links(r) <==> p in e
    {
      InLinks(r, p.0, p.1);
      InLinks(adj, p.0, p.1);
    }
    var l := if v != w then Loops(adj) else if present then Loops(adj) + {v} else Loops(adj) - {v};
    forall u | u in Loops(r) || u in l
      ensures u in Loops(r) <==> u in l
    {
    }
  }

  /** Sets that differ from adj only in the edge v-w and see every edge from both ends. */
  lemma Resymmetric(adj: seq<set<nat>>, r: seq<set<nat>>, v: nat, w: nat)
    requires Symmetric(adj) && |r| == |adj| && v < |adj| && w < |adj|
    requires forall u: nat, x: nat :: u < |adj| && !((u == v && x == w) || (u == w && x == v)) ==> (x in r[u] <==> x in adj[u])
    requires (w in r[v] && v in r[w]) || (w !in r[v] && v !in r[w])
    ensures Symmetric(r)
  {
    forall u: nat, x: nat | u < |r| && x in r[u]
      ensures x < |r| && u in r[x]
    {
      if !((u == v && x == w) || (u == w && x == v)) {
        assert x in adj[u];
      }
    }
  }

  /** A new edge between two different vertices adds one to each of their degrees. */
  lemma DegreeSumJoin(adj: seq<set<nat>>, v: nat, w: nat)
    requires v < |adj| && w < |adj| && v != w && w !in adj[v] && v !in adj[w]
    ensures DegreeSum(Join(adj, v, w)) == DegreeSum(adj) + 2
  {
    var a := adj[v := adj[v] + {w}];
    var b, c := adj[v] + {w}, adj[w] + {v};
    assert |b| == |adj[v]| + 1 && |c| == |adj[w]| + 1;
    DegreeSumUpdate(adj, v, b);
    assert a[w] == adj[w] && Join(adj, v, w) == a[w := c];
    DegreeSumUpdate(a, w, c);
  }

  /** Removing an edge between two different vertices takes one from each of their
      degrees. */
  lemma DegreeSumSplit(adj: seq<set<nat>>, v: nat, w: nat)
    requires v < |adj| && w < |adj| && v != w && w in adj[v] && v in adj[w]
    ensures DegreeSum(Split(adj, v, w)) == DegreeSum(adj) - 2
  {
    var a := adj[v := adj[v] - {w}];
    var b, c := adj[v] - {w}, adj[w] - {v};
    assert |b| == |adj[v]| - 1 && |c| == |adj[w]| - 1;
    DegreeSumUpdate(adj, v, b);
    assert a[w] == adj[w] && Split(adj, v, w) == a[w := c];
    DegreeSumUpdate(a, w, c);
  }

  /** Adding a new edge between two different vertices. */
  lemma JoinLink(adj: seq<set<nat>>, v: nat, w: nat)
    requires Symmetric(adj) && Counted(adj) && v < |adj| && w < |adj| && w !in adj[v] && v != w
    ensures var r := Join(adj, v, w);
      Symmetric(r) && Counted(r) && Links(r) == Links(adj) + {Ends(v, w)} && Loops(r) == Loops(adj)
  {
    assert v !in adj[w];
    var r := Join(adj, v, w);
    var e := Ends(v, w);
    assert Symmetric(r) && Links(r) == Links(adj) + {e} && Loops(r) == Loops(adj) by {
      JoinAt(adj, v, w);
      Relink(adj, r, v, w, true);
      Resymmetric(adj, r, v, w);
    }
    DegreeSumJoin(adj, v, w);
    assert |Links(r)| == |Links(adj)| + 1 by {
      InLinks(adj, e.0, e.1);
    }
  }

  /** Adding a new loop. */
  lemma JoinLoop(adj: seq<set<nat>>, v: nat)
    requires Symmetric(adj) && Counted(adj) && v < |adj| && v !in adj[v]
    ensures var r := Join(adj, v, v);
      Symmetric(r) && Counted(r) && Links(r) == Links(adj) && Loops(r) == Loops(adj) + {v}
  {
    var a := adj[v := adj[v] + {v}];
    var r := Join(adj, v, v);
    JoinAt(adj, v, v);
    Relink(adj, r, v, v, true);
    Resymmetric(adj, r, v, v);
    DegreeSumUpdate(adj, v, adj[v] + {v});
    DegreeSumUpdate(a, v, a[v] + {v});
    assert |Loops(r)| == |Loops(adj)| + 1;
  }

  /** Adding an edge that is there already changes nothing. */
  lemma JoinAgain(adj: seq<set<nat>>, v: nat, w: nat)
    requires Symmetric(adj) && v < |adj| && w in adj[v]
    ensures w < |adj| && Join(adj, v, w) == adj
  {
    assert w < |adj| && v in adj[w];
    var r := Join(adj, v, w);
    JoinAt(adj, v, w);
    forall u | 0 <= u < |adj|
      ensures r[u] == adj[u]
    {
    }
  }

  /** Removing an edge between two different vertices that is there keeps the sets
      symmetric and takes the edge out of the links. */
  lemma SplitCount(adj: seq<set<nat>>, v: nat, w: nat)
    requires Symmetric(adj) && Counted(adj) && v < |adj| && w in adj[v] && v != w
    ensures w < |adj|
    ensures var r := Split(adj, v, w);
      && Symmetric(r) && Counted(r) && w !in r[v] && v !in r[w]
      && Links(r) == Links(adj) - {Ends(v, w)} && Loops(r) == Loops(adj)
  {
    assert w < |adj| && v in adj[w];
    var r := Split(adj, v, w);
    var e := Ends(v, w);
    assert Symmetric(r) && w !in r[v] && v !in r[w] && Links(r) == Links(adj) - {e} && Loops(r) == Loops(adj) by {
      SplitAt(adj, v, w);
      Relink(adj, r, v, w, false);
      Resymmetric(adj, r, v, w);
    }
    DegreeSumSplit(adj, v, w);
    assert |Links(r)| == |Links(adj)| - 1 by {
      InLinks(adj, e.0, e.1);
    }
  }

  /** Removing a loop from its vertex's set keeps the sets symmetric and takes the loop
      out of the loops. */
  lemma UnloopCount(adj: seq<set<nat>>, v: nat)
    requires Symmetric(adj) && Counted(adj) && v < |adj| && v in adj[v]
    ensures var r := adj[v := adj[v] - {v}];
      Symmetric(r) && Counted(r) && Links(r) == Links(adj) && Loops(r) == Loops(adj) - {v}
  {
    var r := adj[v := adj[v] - {v}];
    Relink(adj, r, v, v, false);
    Resymmetric(adj, r, v, v);
    DegreeSumUpdate(adj, v, adj[v] - {v});
  }

  /** Removing a loop is one removal from one set. */
  lemma SplitLoop(adj: seq<set<nat>>, v: nat)
    requires v < |adj|
    ensures Split(adj, v, v) == adj[v := adj[v] - {v}]
  {
    var s := Split(adj, v, v);
    SplitAt(adj, v, v);
    forall u | 0 <= u < |adj|
      ensures s[u] == adj[v := adj[v] - {v}][u]
    {
    }
  }

  /** Removing an edge just added, between two vertices it did not join, gives the sets
      back; a loop among them. */
  lemma SplitJoin(adj: seq<set<nat>>, v: nat, w: nat)
    requires Symmetric(adj) && v < |adj| && w < |adj| && w !in adj[v]
    ensures Split(Join(adj, v, w), v, w) == adj
  {
    assert v !in adj[w];
    var r := Split(Join(adj, v, w), v, w);
    JoinAt(adj, v, w);
    SplitAt(Join(adj, v, w), v, w);
    forall u | 0 <= u < |adj|
      ensures r[u] == adj[u]
    {
    }
  }

  /** The empty sets of a new graph. */
  lemma EmptyCount(n: nat)
    ensures var adj := seq(n, _ => {}); Symmetric(adj) && Counted(adj) && Links(adj) == {} && Loops(adj) == {}
  {
    var adj: seq<set<nat>> := seq(n, _ => {});
    EmptySum(adj);
    assert Links(adj) == {};
    assert Loops(adj) == {};
  }

  lemma {:induction false} EmptySum(adj: seq<set<nat>>)
    requires forall u :: 0 <= u < |adj| ==> adj[u] == {}
    ensures DegreeSum(adj) == 0
    decreases |adj|
  {
    if adj != [] {
      EmptySum(adj[..|adj| - 1]);
    }
  }

  /** The largest set size among the first k vertices, with the vertex that has it. */
  function Widest(adj: seq<set<nat>>, k: nat): (r: nat)
    requires 0 < k <= |adj|
    ensures r < k && forall u :: 0 <= u < k ==> |adj[u]| <= |adj[r]|
  {
    if k == 1 then 0
    else
      var r := Widest(adj, k - 1);
      if |adj[k - 1]| > |adj[r]| then k - 1 else r
  }

  class Graph {
    const n: nat
    var adj: seq<set<nat>>

    /** One set per vertex, each edge in the sets of both of its ends, and the degrees
        adding up to two per edge between different vertices and one per loop. */
    ghost predicate Valid()
      reads this
    {
      |adj| == n && Symmetric(adj) && Counted(adj)
    }

    /** A graph of n vertices with no edges. */
    constructor (n: nat)
      ensures Valid() && this.n == n && adj == seq(n, _ => {})
      ensures Links(adj) == {} && Loops(adj) == {}
    {
      this.n := n;
      adj := seq(n, _ => {});
      new;
      EmptyCount(n);
    }

    /** `number_of_edges`: the degrees added up and halved, which is the number of
        edges between different vertices plus half the number of loops, rounded down. */
    function NumberOfEdges(): (r: nat)
      requires Valid()
      reads this
      ensures r == |Links(adj)| + |Loops(adj)| / 2
    {
      DegreeSum(adj) / 2
    }

    /** `add_edge(v, w)`: w into the set of v, then v into the set of w. A v outside the
        graph fails at once; a w outside it fails after w has been put in the set of v.
        Adding an edge that is there already changes nothing. */
    method AddEdge(v: nat, w: nat) returns (r: Outcome<GraphError>)
      requires |adj| == n
      modifies this
      ensures |adj| == n
      ensures v >= n ==> r == Fail(MissingVertex) && adj == old(adj)
      ensures v < n <= w ==> r == Fail(MissingVertex) && adj == old(adj)[v := old(adj)[v] + {w}]
      ensures v < n && w < n ==> r == Pass && adj == Join(old(adj), v, w)
      ensures r.Pass? && old(Valid()) ==> Valid() && w in adj[v] && v in adj[w]
      ensures r.Pass? && old(Valid()) && w in old(adj)[v] ==> adj == old(adj)
      ensures r.Pass? && old(Valid()) && w !in old(adj)[v] && v != w ==>
        Links(adj) == Links(old(adj)) + {Ends(v, w)} && Loops(adj) == Loops(old(adj))
      ensures r.Pass? && old(Valid()) && w !in old(adj)[v] && v == w ==>
        Links(adj) == Links(old(adj)) && Loops(adj) == Loops(old(adj)) + {v}
    {
      if v >= |adj| {
        return Fail(MissingVertex);
      }
      if w >= |adj| {
        adj := adj[v := adj[v] + {w}];
        return Fail(MissingVertex);
      }
      if Valid() {
        if w in adj[v] {
          JoinAgain(adj, v, w);
        } else if v != w {
          JoinLink(adj, v, w);
        } else {
          JoinLoop(adj, v);
        }
        JoinAt(adj, v, w);
      }
      adj := Join(adj, v, w);
      return Pass;
    }

    /** `remove_edge(v, w)`: w out of the set of v, then v out of the set of w, each
        failing when the vertex or the set entry is missing; a failure in the second
        step leaves the first one done. This is how removing a loop v-v fails: the
        first step takes v out of its own set and the second no longer finds it. */
    method RemoveEdge(v: nat, w: nat) returns (r: Outcome<GraphError>)
      requires |adj| == n
      modifies this
      ensures |adj| == n
      ensures v >= n ==> r == Fail(MissingVertex) && adj == old(adj)
      ensures v < n && w !in old(adj)[v] ==> r == Fail(MissingEdge) && adj == old(adj)
      ensures v < n && w in old(adj)[v] && w >= n ==>
        r == Fail(MissingVertex) && adj == old(adj)[v := old(adj)[v] - {w}]
      ensures v < n && w in old(adj)[v] && w < n && v !in (if v == w then old(adj)[v] - {w} else old(adj)[w]) ==>
        r == Fail(MissingEdge) && adj == old(adj)[v := old(adj)[v] - {w}]
      ensures old(Valid()) && v < n && w in old(adj)[v] && v != w ==>
        r == Pass && adj == Split(old(adj), v, w) && Valid()
        && Links(adj) == Links(old(adj)) - {Ends(v, w)} && Loops(adj) == Loops(old(adj))
      ensures old(Valid()) && v < n && v in old(adj)[v] && v == w ==>
        r == Fail(MissingEdge) && adj == old(adj)[v := old(adj)[v] - {v}] && Valid()
    {
      if v >= |adj| {
        return Fail(MissingVertex);
      }
      if w !in adj[v] {
        return Fail(MissingEdge);
      }
      ghost var a0 := adj;
      if Valid() {
        if v != w {
          SplitCount(adj, v, w);
        } else {
          UnloopCount(adj, v);
        }
      }
      adj := adj[v := adj[v] - {w}];
      if w >= |adj| {
        return Fail(MissingVertex);
      }
      if v !in adj[w] {
        return Fail(MissingEdge);
      }
      adj := adj[w := adj[w] - {v}];
      return Pass;
    }

    /** The removal `remove_edge` is meant to be: the edge v-w is taken out of both
        sets, a loop out of its one set, and it fails only when the edge is not there. */
    method RemoveEdgeCorrected(v: nat, w: nat) returns (r: Outcome<GraphError>)
      requires Valid()
      modifies this
      ensures Valid()
      ensures v >= n ==> r == Fail(MissingVertex) && adj == old(adj)
      ensures v < n && w !in old(adj)[v] ==> r == Fail(MissingEdge) && adj == old(adj)
      ensures v < n && w in old(adj)[v] ==> r == Pass && w < n && adj == Split(old(adj), v, w)
      ensures v < n && w in old(adj)[v] && v != w ==>
        Links(adj) == Links(old(adj)) - {Ends(v, w)} && Loops(adj) == Loops(old(adj))
      ensures v < n && v in old(adj)[v] && v == w ==>
        Links(adj) == Links(old(adj)) && Loops(adj) == Loops(old(adj)) - {v}
    {
      if v >= |adj| {
        return Fail(MissingVertex);
      }
      if w !in adj[v] {
        return Fail(MissingEdge);
      }
      if v != w {
        SplitCount(adj, v, w);
      } else {
        UnloopCount(adj, v);
        SplitLoop(adj, v);
      }
      adj := Split(adj, v, w);
      return Pass;
    }

    /** `adjacents(v)`: the set of neighbours of v; `KeyError` outside the graph. */
    function Adjacents(v: nat): (r: Result<set<nat>, GraphError>)
      requires Valid()
      reads this
      ensures r.Ok? <==> v < n
      ensures r.Ok? ==> forall w: nat :: w in r.value <==> w < |adj| && v in adj[w]
    {
      if v < |adj| then Ok(adj[v]) else Err(MissingVertex)
    }

    /** `degree(v)`: the number of neighbours of v; `KeyError` outside the graph. */
    function Degree(v: nat): (r: Result<nat, GraphError>)
      requires |adj| == n
      reads this
      ensures r.Ok? <==> v < n
      ensures r.Ok? ==> r.value == |adj[v]|
    {
      if v < |adj| then Ok(|adj[v]|) else Err(MissingVertex)
    }

    /** `max_degree`: the largest degree, which some vertex has; a graph without
        vertices has none (`max` of an empty list raises). */
    function MaxDegree(): (r: Result<nat, GraphError>)
      requires |adj| == n
      reads this
      ensures r.Err? <==> n == 0
      ensures r.Ok? ==> forall u :: 0 <= u < n ==> |adj[u]| <= r.value
      ensures r.Ok? ==> exists u :: 0 <= u < n && |adj[u]| == r.value
    {
      if n == 0 then Err(NoVertices) else Ok(|adj[Widest(adj, n)]|)
    }
  }
}
