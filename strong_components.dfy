/** `StrongComponents` of directed_graph_algorithms, the Kosaraju-Sharir algorithm: a
    depth-first search of the reverse graph gives a finishing order, and searches of the
    graph itself, started from the unmarked vertices in the reverse of that order, mark one
    strongly connected component each. */
module KosarajuSharir {
  import opened Common
  import opened DepthFirst
  import opened FinishingOrder
  import opened DigraphTopological

  /** The vertices below k with an edge to v, in increasing order. */
  function Preds(g: seq<seq<nat>>, v: nat, k: nat): (r: seq<nat>)
    requires k <= |g|
    ensures forall i :: 0 <= i < |r| ==> r[i] < k
    ensures forall w :: w in r <==> 0 <= w < k && v in g[w]
  {
    if k == 0 then []
    else Preds(g, v, k - 1) + if v in g[k - 1] then [k - 1] else []
  }

  /** `Digraph.reverse_graph`: the same vertices with every edge turned around. */
  function ReverseGraph(g: seq<seq<nat>>): (h: seq<seq<nat>>)
    ensures |h| == |g| && Closed(h)
    ensures forall v, w :: 0 <= v < |g| ==> (w in h[v] <==> 0 <= w < |g| && v in g[w])
  {
    seq(|g|, v requires 0 <= v < |g| => Preds(g, v, |g|))
  }

  /** Every edge of g between vertices of g, turned around, is an edge of h. */
  ghost predicate Turns(g: seq<seq<nat>>, h: seq<seq<nat>>)
  {
    && |h| == |g|
    && forall a, b :: 0 <= a < |g| && b in g[a] && b < |g| ==> a in h[b]
  }

  lemma ReverseTurns(g: seq<seq<nat>>)
    ensures Turns(g, ReverseGraph(g)) && Turns(ReverseGraph(g), g)
  {
  }

  /** A walk of g, read backwards, is a walk of h: its end reaches its start there. */
  lemma {:induction false} TurnWalk(g: seq<seq<nat>>, h: seq<seq<nat>>, p: seq<nat>)
    requires Turns(g, h) && IsWalk(g, p)
    ensures Reaches(h, p[|p| - 1], p[0])
    decreases |p|
  {
    if |p| == 1 {
      ReachesRefl(h, p[0]);
    } else {
      var q := p[1..];
      assert IsWalk(g, q) by {
        forall k | 0 <= k < |q| - 1
          ensures q[k + 1] in Succ(g, q[k])
        {
          assert q[k] == p[k + 1] && q[k + 1] == p[k + 2];
        }
      }
      TurnWalk(g, h, q);
      assert p[1] in Succ(g, p[0]);
      assert IsWalk(h, [p[1], p[0]]);
      ReachesTrans(h, q[|q| - 1], p[1], p[0]);
    }
  }

  /** a reaches b in the reverse graph exactly when b reaches a in the graph. */
  lemma ReverseReaches(g: seq<seq<nat>>, a: nat, b: nat)
    ensures Reaches(ReverseGraph(g), a, b) <==> Reaches(g, b, a)
  {
    var h := ReverseGraph(g);
    ReverseTurns(g);
    if Reaches(h, a, b) {
      var p: seq<nat> :| IsWalk(h, p) && p[0] == a && p[|p| - 1] == b;
      TurnWalk(h, g, p);
    }
    if Reaches(g, b, a) {
      var p: seq<nat> :| IsWalk(g, p) && p[0] == b && p[|p| - 1] == a;
      TurnWalk(g, h, p);
    }
  }

  /** Every successor of a vertex of m is in m. */
  ghost predicate Shut(g: seq<seq<nat>>, m: seq<bool>)
  {
    && |m| == |g|
    && forall u, x :: 0 <= u < |g| && m[u] && x in g[u] ==> x < |g| && m[x]
  }

  /** Nothing leaves a set closed under successors. */
  lemma {:induction false} ShutWalk(g: seq<seq<nat>>, m: seq<bool>, p: seq<nat>)
    requires Shut(g, m) && IsWalk(g, p) && m[p[0]]
    ensures m[p[|p| - 1]]
    decreases |p|
  {
    if |p| > 1 {
      var q := p[..|p| - 1];
      assert IsWalk(g, q) by {
        forall k | 0 <= k < |q| - 1
          ensures q[k + 1] in Succ(g, q[k])
        {
          assert q[k] == p[k] && q[k + 1] == p[k + 1];
        }
      }
      ShutWalk(g, m, q);
      assert p[|p| - 1] in g[p[|p| - 2]];
    }
  }

  lemma ShutReaches(g: seq<seq<nat>>, m: seq<bool>, a: nat, b: nat)
    requires Shut(g, m) && a < |g| && m[a] && Reaches(g, a, b)
    ensures b < |g| && m[b]
  {
    var p :| IsWalk(g, p) && p[0] == a && p[|p| - 1] == b;
    ShutWalk(g, m, p);
  }

  /** post lists every vertex of g exactly once. */
  ghost predicate Permutes(g: seq<seq<nat>>, post: seq<nat>)
  {
    && Distinct(post)
    && (forall k :: 0 <= k < |post| ==> post[k] < |g|)
    && (forall x :: 0 <= x < |g| ==> x in post)
  }

  /** post is a finishing order of a depth-first search of the reverse graph. */
  ghost predicate Finishing(g: seq<seq<nat>>, post: seq<nat>)
  {
    Permutes(g, post) && Prefixes(ReverseGraph(g), post)
  }

  /** The second pass is about to search from post[j]: the vertices marked so far, m0, are
      closed under successors, and so that vertex is the unmarked one finishing last. */
  ghost predicate Rooting(g: seq<seq<nat>>, post: seq<nat>, m0: seq<bool>, j: nat)
  {
    && Finishing(g, post) && Shut(g, m0) && j < |post| && !m0[post[j]]
    && forall k :: j < k < |post| ==> m0[post[k]]
  }

  /** A vertex v that reaches post[j], where post[j] is not among the vertices finished
      before it, has a strongly connected partner outside those vertices: otherwise its
      component would lie in a closed prefix and reach out of it. */
  lemma Escapes(h: seq<seq<nat>>, post: seq<nat>, j: nat, v: nat)
    requires Prefixes(h, post) && j < |post| && post[j] !in post[..j] && Reaches(h, v, post[j])
    ensures exists z: nat :: Mutual(h, v, z) && z !in post[..j]
  {
    assert ClosedPrefix(h, post[..j]);
  }

  /** The heart of Kosaraju-Sharir. The marked set m0 is closed under successors, and s is
      the unmarked vertex finishing last in the search of the reverse graph. Then every
      unmarked vertex v that s reaches reaches s back: the component of v in the reverse
      graph would otherwise lie wholly before s in the finishing order and still reach s. */
  lemma Kosaraju(g: seq<seq<nat>>, post: seq<nat>, m0: seq<bool>, j: nat, v: nat)
    requires Permutes(g, post) && Prefixes(ReverseGraph(g), post)
    requires Shut(g, m0) && j < |post| && !m0[post[j]]
    requires forall k :: j < k < |post| ==> m0[post[k]]
    requires v < |g| && !m0[v] && Reaches(g, post[j], v)
    ensures Reaches(g, v, post[j])
  {
    var h, s := ReverseGraph(g), post[j];
    ReverseReaches(g, v, s);
    assert s !in post[..j];
    Escapes(h, post, j, v);
    var z: nat :| Mutual(h, v, z) && z !in post[..j];
    ReverseReaches(g, v, z);
    ReverseReaches(g, z, v);
    var p: seq<nat> :| IsWalk(g, p) && p[0] == z && p[|p| - 1] == v;
    if m0[z] {
      ShutReaches(g, m0, z, v);
      assert false;
    }
    assert z < |g| && z in post;
    var i :| 0 <= i < |post| && post[i] == z;
    assert i == j;
  }

  /** In the reverse finishing order, the i-th vertex, when unmarked and every earlier one
      marked, is where the next search of the second pass starts. */
  lemma Latest(g: seq<seq<nat>>, post: seq<nat>, order: seq<nat>, marked: seq<bool>, i: nat)
    requires Finishing(g, post) && order == Reverse(post) && Shut(g, marked) && i < |order|
    requires forall k :: 0 <= k < i ==> marked[order[k]]
    requires !marked[order[i]]
    ensures Rooting(g, post, marked, |post| - 1 - i) && post[|post| - 1 - i] == order[i]
  {
    forall k | |post| - 1 - i < k < |post|
      ensures marked[post[k]]
    {
      assert post[k] == order[|post| - 1 - k];
    }
  }

  /** Once every vertex of the reverse finishing order is marked, every vertex is. */
  lemma Every(g: seq<seq<nat>>, post: seq<nat>, order: seq<nat>, marked: seq<bool>)
    requires Finishing(g, post) && order == Reverse(post) && |marked| == |g|
    requires forall k :: 0 <= k < |order| ==> marked[order[k]]
    ensures forall v :: 0 <= v < |g| ==> marked[v]
  {
    ReverseKeeps(post);
    forall v | 0 <= v < |g|
      ensures marked[v]
    {
      assert v in post && v in order;
      var k :| 0 <= k < |order| && order[k] == v;
    }
  }

  /** Every vertex of m is labelled with a component below |roots| whose root it is
      strongly connected to. */
  ghost predicate Labelled(g: seq<seq<nat>>, m: seq<bool>, id: seq<nat>, roots: seq<nat>)
  {
    && |m| == |g| && |id| == |g|
    && forall u :: 0 <= u < |g| && m[u] ==> id[u] < |roots| && Mutual(g, u, roots[id[u]])
  }

  /** Strongly connected vertices of m share their label. */
  ghost predicate Grouped(g: seq<seq<nat>>, m: seq<bool>, id: seq<nat>)
  {
    && |m| == |g| && |id| == |g|
    && forall v, w :: 0 <= v < |g| && 0 <= w < |g| && m[v] && m[w] && Mutual(g, v, w) ==> id[v] == id[w]
  }

  /** Each root is marked and labelled with its own position. */
  ghost predicate Rooted(g: seq<seq<nat>>, m: seq<bool>, id: seq<nat>, roots: seq<nat>)
  {
    && |m| == |g| && |id| == |g|
    && forall c :: 0 <= c < |roots| ==> roots[c] < |g| && m[roots[c]] && id[roots[c]] == c
  }

  /** The state between two searches of the graph. */
  ghost predicate Between(g: seq<seq<nat>>, marked: seq<bool>, id: seq<nat>, roots: seq<nat>)
  {
    Shut(g, marked) && Labelled(g, marked, id, roots) && Grouped(g, marked, id) && Rooted(g, marked, id, roots)
  }

  /** The marked vertices whose search is over have all their successors marked. */
  ghost predicate Open(g: seq<seq<nat>>, marked: seq<bool>, stack: seq<nat>)
  {
    && |marked| == |g|
    && forall u :: 0 <= u < |g| && marked[u] && u !in stack ==> forall x :: x in g[u] ==> x < |g| && marked[x]
  }

  /** The stack leads from root along a walk to a vertex with an edge to v, or v is root. */
  ghost predicate Trail(g: seq<seq<nat>>, stack: seq<nat>, root: nat, v: nat)
  {
    && (stack == [] ==> v == root)
    && (stack != [] ==> IsWalk(g, stack) && stack[0] == root && v in g[stack[|stack| - 1]])
  }

  /** Every vertex marked since m0 carries the label c and is strongly connected to root. */
  ghost predicate Tagged(g: seq<seq<nat>>, marked: seq<bool>, id: seq<nat>, m0: seq<bool>, c: nat, root: nat)
  {
    && |marked| == |g| && |id| == |g| && |m0| == |g|
    && forall u :: 0 <= u < |g| && marked[u] && !m0[u] ==> id[u] == c && Mutual(g, u, root)
  }

  /** A vertex at the end of a trail is reachable from the trail's root. */
  lemma TrailReaches(g: seq<seq<nat>>, stack: seq<nat>, root: nat, v: nat)
    requires Trail(g, stack, root, v) && v < |g|
    ensures Reaches(g, root, v)
  {
    var walk := stack + [v];
    assert IsWalk(g, walk) by {
      if stack != [] {
        forall k | 0 <= k < |walk| - 1
          ensures walk[k + 1] in Succ(g, walk[k])
        {
          if k < |stack| - 1 {
            assert walk[k] == stack[k] && walk[k + 1] == stack[k + 1];
          }
        }
      }
    }
    WalkReaches(g, walk, |stack|);
  }

  /** In the second pass, a vertex the search reaches is strongly connected to its root. */
  lemma Joins(g: seq<seq<nat>>, post: seq<nat>, m0: seq<bool>, j: nat, stack: seq<nat>, v: nat)
    requires Rooting(g, post, m0, j) && Trail(g, stack, post[j], v) && v < |g| && !m0[v]
    ensures Mutual(g, v, post[j])
  {
    TrailReaches(g, stack, post[j], v);
    Kosaraju(g, post, m0, j, v);
  }

  /** Going one edge deeper keeps the stack a trail from the root. */
  lemma Deeper(g: seq<seq<nat>>, stack: seq<nat>, root: nat, v: nat, w: nat)
    requires Trail(g, stack, root, v) && v < |g| && w in g[v]
    ensures Trail(g, stack + [v], root, w)
  {
    var walk := stack + [v];
    if stack != [] {
      forall k | 0 <= k < |walk| - 1
        ensures walk[k + 1] in Succ(g, walk[k])
      {
        if k < |stack| - 1 {
          assert walk[k] == stack[k] && walk[k + 1] == stack[k + 1];
        }
      }
    }
    assert walk[|walk| - 1] == v;
  }

  /** Once all successors of v are marked, v may leave the stack. */
  lemma Leave(g: seq<seq<nat>>, marked: seq<bool>, stack: seq<nat>, v: nat)
    requires Open(g, marked, stack + [v]) && v < |g|
    requires forall t :: 0 <= t < |g[v]| ==> g[v][t] < |g| && marked[g[v][t]]
    ensures Open(g, marked, stack)
  {
    forall u | 0 <= u < |g| && marked[u] && u !in stack
      ensures forall x :: x in g[u] ==> x < |g| && marked[x]
    {
      if u == v {
        forall x | x in g[u]
          ensures x < |g| && marked[x]
        {
          var t :| 0 <= t < |g[v]| && g[v][t] == x;
        }
      } else {
        assert u !in stack + [v];
      }
    }
  }

  /** Marks are kept, so the vertices of a list visited so far stay marked. */
  lemma Visited(before: seq<bool>, marked: seq<bool>, adjacent: seq<nat>, i: nat)
    requires Grows(before, marked) && i < |adjacent|
    requires forall t :: 0 <= t < i ==> adjacent[t] < |before| && before[adjacent[t]]
    requires adjacent[i] < |marked| && marked[adjacent[i]]
    ensures forall t :: 0 <= t <= i ==> adjacent[t] < |marked| && marked[adjacent[t]]
  {
  }

  /** A search that labelled every vertex it marked with c leaves the state between
      searches: a vertex marked before cannot be strongly connected to a new one, since
      the old marked set is closed under successors. */
  lemma Regroup(g: seq<seq<nat>>, m0: seq<bool>, id0: seq<nat>, m1: seq<bool>, id1: seq<nat>,
                roots: seq<nat>, root: nat)
    requires Between(g, m0, id0, roots) && Grows(m0, m1) && |id1| == |g|
    requires Open(g, m1, [])
    requires forall u :: 0 <= u < |g| && m0[u] ==> id1[u] == id0[u]
    requires Tagged(g, m1, id1, m0, |roots|, root)
    requires root < |g| && m1[root] && !m0[root] && id1[root] == |roots|
    ensures Between(g, m1, id1, roots + [root])
  {
    var r1 := roots + [root];
    assert Shut(g, m1) by {
      forall u, x | 0 <= u < |g| && m1[u] && x in g[u]
        ensures x < |g| && m1[x]
      {
        assert u !in [];
      }
    }
    assert Labelled(g, m1, id1, r1) by {
      forall u | 0 <= u < |g| && m1[u]
        ensures id1[u] < |r1| && Mutual(g, u, r1[id1[u]])
      {
        if m0[u] {
          assert r1[id0[u]] == roots[id0[u]];
        }
      }
    }
    assert Rooted(g, m1, id1, r1) by {
      forall c | 0 <= c < |r1|
        ensures r1[c] < |g| && m1[r1[c]] && id1[r1[c]] == c
      {
        if c < |roots| {
          assert r1[c] == roots[c];
        }
      }
    }
    forall v, w | 0 <= v < |g| && 0 <= w < |g| && m1[v] && m1[w] && Mutual(g, v, w)
      ensures id1[v] == id1[w]
    {
      if m0[v] && !m0[w] {
        ShutReaches(g, m0, v, w);
        assert false;
      } else if !m0[v] && m0[w] {
        ShutReaches(g, m0, w, v);
        assert false;
      }
    }
  }

  /** The labels settle the question: with every vertex marked, two vertices share a label
      exactly when they are strongly connected. */
  lemma Labels(g: seq<seq<nat>>, marked: seq<bool>, id: seq<nat>, roots: seq<nat>, v: nat, w: nat)
    requires Labelled(g, marked, id, roots) && Grouped(g, marked, id)
    requires v < |g| && w < |g| && marked[v] && marked[w]
    ensures id[v] == id[w] <==> Mutual(g, v, w)
  {
    if id[v] == id[w] {
      var r := roots[id[v]];
      ReachesTrans(g, v, r, w);
      ReachesTrans(g, w, r, v);
    }
  }

  /** With every vertex marked, the labels partition the vertices into the strongly
      connected components. */
  lemma Partition(g: seq<seq<nat>>, marked: seq<bool>, id: seq<nat>, roots: seq<nat>)
    requires Labelled(g, marked, id, roots) && Grouped(g, marked, id)
    requires forall v :: 0 <= v < |g| ==> marked[v]
    ensures forall v, w :: 0 <= v < |g| && 0 <= w < |g| ==> (id[v] == id[w] <==> Mutual(g, v, w))
  {
    forall v, w | 0 <= v < |g| && 0 <= w < |g|
      ensures id[v] == id[w] <==> Mutual(g, v, w)
    {
      Labels(g, marked, id, roots, v, w);
    }
  }

  /** The first pass: a depth-first search of the reverse graph, run from every vertex in
      increasing order, and the order in which its vertices finish. */
  method FirstPass(g: seq<seq<nat>>) returns (post: seq<nat>)
    requires Closed(g)
    ensures Finishing(g, post)
  {
    var reversed := ReverseGraph(g);
    var topological := new TopologicalOrder(reversed);
    post := topological.reversePostorder;
    forall k | 0 <= k < |post|
      ensures post[k] < |g|
    {
      assert post[k] in topological.reversePostorder;
    }
  }

  class StrongComponents {
    const g: seq<seq<nat>>
    var marked: seq<bool>
    var id: seq<nat>
    /** `_component`, the number of searches started so far. */
    var component: nat
    /** The vertex each search started from. */
    ghost var roots: seq<nat>
    /** The finishing order of the search of the reverse graph. */
    ghost const post: seq<nat>

    ghost predicate Valid()
      reads this
    {
      && Closed(g) && |marked| == |g| && |id| == |g| && component == |roots|
      && (forall v :: 0 <= v < |g| ==> marked[v] && id[v] < component)
      && Labelled(g, marked, id, roots) && Grouped(g, marked, id) && Rooted(g, marked, id, roots)
    }

    /** Runs both passes. Afterwards every vertex has a label below `component`, and two
        vertices share one exactly when they are strongly connected. */
    constructor (g: seq<seq<nat>>)
      requires Closed(g)
      ensures this.g == g && Valid()
      ensures forall v, w :: 0 <= v < |g| && 0 <= w < |g| ==> (id[v] == id[w] <==> Mutual(g, v, w))
    {
      this.g := g;
      var finished := FirstPass(g);
      var order := Reverse(finished);
      post := finished;
      marked := seq(|g|, _ => false);
      id := seq(|g|, _ => 0);
      component := 0;
      roots := [];
      new;
      SecondPass(order);
      Every(g, post, order, marked);
      Partition(g, marked, id, roots);
    }

    /** The second pass: a search of the graph from every vertex not yet marked, taken in
        the reverse of the finishing order, each search labelling one new component. */
    method SecondPass(order: seq<nat>)
      requires Closed(g) && Finishing(g, post) && order == Reverse(post)
      requires Between(g, marked, id, roots) && component == |roots|
      modifies this
      ensures Between(g, marked, id, roots) && component == |roots|
      ensures forall k :: 0 <= k < |order| ==> marked[order[k]]
    {
      for i := 0 to |order|
        invariant Between(g, marked, id, roots) && component == |roots|
        invariant forall k :: 0 <= k < i ==> marked[order[k]]
      {
        var vertex := order[i];
        if !marked[vertex] {
          Component(order, i);
        }
      }
    }

    /** One search of the second pass, from the unmarked vertex at position i of the order,
        which becomes the root of a new component. */
    method Component(order: seq<nat>, i: nat)
      requires Closed(g) && Finishing(g, post) && order == Reverse(post) && i < |order|
      requires Between(g, marked, id, roots) && component == |roots|
      requires forall k :: 0 <= k < i ==> marked[order[k]]
      requires !marked[order[i]]
      modifies this
      ensures Between(g, marked, id, roots) && component == |roots|
      ensures forall k :: 0 <= k <= i ==> marked[order[k]]
    {
      var vertex := order[i];
      ghost var m0, id0, r0 := marked, id, roots;
      ghost var j := |post| - 1 - i;
      Latest(g, post, order, marked, i);
      roots := roots + [vertex];
      Dfs(vertex, component, [], m0, j);
      Regroup(g, m0, id0, marked, id, r0, vertex);
      Visited(m0, marked, order, i);
      component := component + 1;
    }

    /** `_dfs(vertex, component)`: marks v with the label c and searches on from each
        unmarked successor. Every vertex it marks is strongly connected to the root of the
        search, which the stack leads from to v. */
    method Dfs(v: nat, c: nat, ghost stack: seq<nat>, ghost m0: seq<bool>, ghost j: nat)
      requires Closed(g) && c + 1 == |roots|
      requires Rooting(g, post, m0, j) && post[j] == roots[c] && Grows(m0, marked)
      requires Trail(g, stack, roots[c], v) && v < |g| && !marked[v]
      requires Open(g, marked, stack) && Tagged(g, marked, id, m0, c, roots[c])
      modifies this
      ensures component == old(component) && roots == old(roots)
      ensures Grows(old(marked), marked) && marked[v] && Open(g, marked, stack)
      ensures Tagged(g, marked, id, m0, c, roots[c])
      ensures forall u :: 0 <= u < |g| && old(marked)[u] ==> id[u] == old(id)[u]
      decreases Unmarked(marked), 0
    {
      Joins(g, post, m0, j, stack, v);
      marked := marked[v := true];
      id := id[v := c];
      assert v in Unmarked(old(marked)) && Unmarked(marked) < Unmarked(old(marked));
      Neighbours(v, c, stack, m0, j);
      Leave(g, marked, stack, v);
    }

    /** The loop of `_dfs` over the successors of v: afterwards all of them are marked. */
    method Neighbours(v: nat, c: nat, ghost stack: seq<nat>, ghost m0: seq<bool>, ghost j: nat)
      requires Closed(g) && c + 1 == |roots|
      requires Rooting(g, post, m0, j) && post[j] == roots[c] && Grows(m0, marked)
      requires Trail(g, stack, roots[c], v) && v < |g| && marked[v]
      requires Open(g, marked, stack + [v]) && Tagged(g, marked, id, m0, c, roots[c])
      modifies this
      ensures component == old(component) && roots == old(roots)
      ensures Grows(old(marked), marked) && Unmarked(marked) <= Unmarked(old(marked))
      ensures Open(g, marked, stack + [v]) && Tagged(g, marked, id, m0, c, roots[c])
      ensures forall u :: 0 <= u < |g| && old(marked)[u] ==> id[u] == old(id)[u]
      ensures forall t :: 0 <= t < |g[v]| ==> g[v][t] < |g| && marked[g[v][t]]
      decreases Unmarked(marked), 2
    {
      var adjacent := g[v];
      for i := 0 to |adjacent|
        invariant component == old(component) && roots == old(roots)
        invariant Grows(old(marked), marked) && Grows(m0, marked) && Unmarked(marked) <= Unmarked(old(marked))
        invariant Open(g, marked, stack + [v]) && Tagged(g, marked, id, m0, c, roots[c])
        invariant forall u :: 0 <= u < |g| && old(marked)[u] ==> id[u] == old(id)[u]
        invariant forall t :: 0 <= t < i ==> adjacent[t] < |g| && marked[adjacent[t]]
      {
        var w := adjacent[i];
        ghost var before := marked;
        Neighbour(v, w, c, stack, m0, j);
        Visited(before, marked, adjacent, i);
      }
    }

    /** One pass of the loop of `_dfs` over the successors of v: the search goes on from
        the successor w if it is unmarked, and w is marked afterwards. */
    method Neighbour(v: nat, w: nat, c: nat, ghost stack: seq<nat>, ghost m0: seq<bool>, ghost j: nat)
      requires Closed(g) && c + 1 == |roots|
      requires Rooting(g, post, m0, j) && post[j] == roots[c] && Grows(m0, marked)
      requires Trail(g, stack, roots[c], v) && v < |g| && marked[v] && w in g[v]
      requires Open(g, marked, stack + [v]) && Tagged(g, marked, id, m0, c, roots[c])
      modifies this
      ensures component == old(component) && roots == old(roots)
      ensures Grows(old(marked), marked) && Unmarked(marked) <= Unmarked(old(marked))
      ensures w < |g| && marked[w] && Open(g, marked, stack + [v])
      ensures Tagged(g, marked, id, m0, c, roots[c])
      ensures forall u :: 0 <= u < |g| && old(marked)[u] ==> id[u] == old(id)[u]
      decreases Unmarked(marked), 1
    {
      if !marked[w] {
        Deeper(g, stack, roots[c], v, w);
        Dfs(w, c, stack + [v], m0, j);
      }
    }

    /** `connected`: whether v and w are strongly connected. */
    function Connected(v: nat, w: nat): (r: bool)
      requires Valid() && v < |g| && w < |g|
      reads this
      ensures r <==> Mutual(g, v, w)
    {
      Labels(g, marked, id, roots, v, w);
      id[v] == id[w]
    }

    /** `count`: the number of searches, one per strongly connected component. Every
        label lies below it and each is some vertex's. */
    function Count(): (r: nat)
      requires Valid()
      reads this
      ensures forall v :: 0 <= v < |g| ==> id[v] < r
      ensures r == |roots|
      ensures forall c :: 0 <= c < r ==> roots[c] < |g| && id[roots[c]] == c
    {
      component
    }

    /** `id_vertex`: the label of v, shared by exactly the vertices strongly connected to it. */
    function IdVertex(v: nat): (r: nat)
      requires Valid() && v < |g|
      reads this
      ensures r < component
      ensures forall w :: 0 <= w < |g| ==> (id[w] == r <==> Mutual(g, v, w))
    {
      assert forall w :: 0 <= w < |g| ==> (id[v] == id[w] <==> Mutual(g, v, w)) by {
        forall w | 0 <= w < |g|
          ensures id[v] == id[w] <==> Mutual(g, v, w)
        {
          Labels(g, marked, id, roots, v, w);
        }
      }
      id[v]
    }
  }
}
