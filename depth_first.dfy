/** Walks in a directed graph given by successor lists, and the state of a depth-first
    search that records vertices in postorder. Every depth-first search of the package
    keeps a `marked` list; the ones that record an order append a vertex once all the
    searches started from its successors have returned. */
module DepthFirst {
  import opened Common

  /** Every successor is a vertex of the graph. */
  ghost predicate Closed(g: seq<seq<nat>>)
  {
    forall v, i :: 0 <= v < |g| && 0 <= i < |g[v]| ==> g[v][i] < |g|
  }

  /** The successors of v; none outside the graph. */
  ghost function Succ(g: seq<seq<nat>>, v: nat): seq<nat>
  {
    if v < |g| then g[v] else []
  }

  /** A non-empty vertex sequence whose consecutive entries are joined by edges. */
  ghost predicate IsWalk(g: seq<seq<nat>>, p: seq<nat>)
  {
    && |p| >= 1
    && (forall k :: 0 <= k < |p| ==> p[k] < |g|)
    && (forall k :: 0 <= k < |p| - 1 ==> p[k + 1] in Succ(g, p[k]))
  }

  /** No walk of at least one edge returns to where it started. */
  ghost predicate Acyclic(g: seq<seq<nat>>)
  {
    forall p :: IsWalk(g, p) && |p| >= 2 ==> p[0] != p[|p| - 1]
  }

  /** A walk from s to t exists. */
  ghost predicate Reaches(g: seq<seq<nat>>, s: nat, t: nat)
  {
    exists p :: IsWalk(g, p) && p[0] == s && p[|p| - 1] == t
  }

  ghost function Unmarked(marked: seq<bool>): set<nat>
  {
    set v: nat | v < |marked| && !marked[v]
  }

  /** Marks are never cleared. */
  ghost predicate Grows(m0: seq<bool>, m1: seq<bool>)
  {
    |m0| == |m1| && forall v :: 0 <= v < |m0| && m0[v] ==> m1[v]
  }

  /** Marking more vertices leaves fewer unmarked. */
  lemma GrowsUnmarked(m0: seq<bool>, m1: seq<bool>)
    requires Grows(m0, m1)
    ensures Unmarked(m1) <= Unmarked(m0)
  {
  }

  ghost predicate IsPrefix(s0: seq<nat>, s1: seq<nat>)
  {
    |s0| <= |s1| && s1[..|s0|] == s0
  }

  /** Each vertex of `post` comes after all its successors, unless the graph has a cycle. */
  ghost predicate Settled(g: seq<seq<nat>>, post: seq<nat>, k: nat)
    requires k < |post|
  {
    forall x :: x in Succ(g, post[k]) ==> x in post[..k] || !Acyclic(g)
  }

  /** Each vertex of `post` comes after all its successors. */
  ghost predicate Postordered(g: seq<seq<nat>>, post: seq<nat>)
  {
    forall k :: 0 <= k < |post| ==> post[k] < |g| && forall x :: x in Succ(g, post[k]) ==> x in post[..k]
  }

  /** The state of the search: `post` holds the finished vertices in finishing order and
      `stack` the vertices whose calls are active, each a successor of the one below it;
      a vertex is marked exactly when it is in one of them; the successors of a finished
      vertex are all marked and, on an acyclic graph, finished before it. */
  ghost predicate Search(g: seq<seq<nat>>, marked: seq<bool>, post: seq<nat>, stack: seq<nat>)
  {
    && |marked| == |g|
    && Distinct(post + stack)
    && (forall x :: x in post + stack ==> x < |g|)
    && (forall v :: 0 <= v < |g| ==> (marked[v] <==> v in post || v in stack))
    && (forall k :: 0 <= k < |stack| - 1 ==> stack[k + 1] in Succ(g, stack[k]))
    && (forall k :: 0 <= k < |post| ==> Settled(g, post, k))
    && (forall k :: 0 <= k < |post| ==> forall x :: x in Succ(g, post[k]) ==> x < |g| && marked[x])
  }

  lemma Start(g: seq<seq<nat>>)
    ensures Search(g, seq(|g|, _ => false), [], [])
  {
  }

  /** Marking a fresh successor of the top of the stack pushes it. */
  lemma Push(g: seq<seq<nat>>, marked: seq<bool>, post: seq<nat>, stack: seq<nat>, v: nat)
    requires Search(g, marked, post, stack) && v < |g| && !marked[v]
    requires stack == [] || v in Succ(g, stack[|stack| - 1])
    ensures Search(g, marked[v := true], post, stack + [v])
    ensures Unmarked(marked[v := true]) == Unmarked(marked) - {v}
  {
    var s := post + (stack + [v]);
    assert s == (post + stack) + [v];
    assert v !in post + stack;
    forall i, j | 0 <= i < j < |s|
      ensures s[i] != s[j]
    {
      if j == |s| - 1 {
        assert s[i] in post + stack;
      } else {
        assert s[i] == (post + stack)[i] && s[j] == (post + stack)[j];
      }
    }
    var m := marked[v := true];
    forall u | 0 <= u < |g|
      ensures m[u] <==> u in post || u in stack + [v]
    {
      assert u in stack + [v] <==> u in stack || u == v;
    }
    forall k, x | 0 <= k < |post| && x in Succ(g, post[k])
      ensures x < |g| && m[x]
    {
      assert x < |g| && marked[x];
    }
  }

  /** The stack from position k up is a walk. */
  lemma {:induction false} StackWalk(g: seq<seq<nat>>, marked: seq<bool>, post: seq<nat>, stack: seq<nat>, k: nat)
    requires Search(g, marked, post, stack) && k < |stack|
    ensures IsWalk(g, stack[k..])
  {
    assert stack[k] in post + stack;
    forall j | k <= j < |stack|
      ensures stack[j] < |g|
    {
      assert stack[j] in post + stack;
    }
  }

  /** An edge from the top of the stack to a vertex on the stack closes a cycle. */
  lemma BackEdge(g: seq<seq<nat>>, marked: seq<bool>, post: seq<nat>, stack: seq<nat>, x: nat)
    requires Search(g, marked, post, stack) && stack != [] && x in Succ(g, stack[|stack| - 1]) && x in stack
    ensures !Acyclic(g)
  {
    var k :| 0 <= k < |stack| && stack[k] == x;
    StackWalk(g, marked, post, stack, k);
    var p := stack[k..] + [x];
    assert IsWalk(g, p) && |p| >= 2 && p[0] == p[|p| - 1];
  }

  /** Appending the top of the stack to `post` once its successors are handled pops it. */
  lemma Pop(g: seq<seq<nat>>, marked: seq<bool>, post: seq<nat>, stack: seq<nat>, v: nat)
    requires Search(g, marked, post, stack + [v])
    requires forall x :: x in Succ(g, v) ==> x < |g| && marked[x] && (x in post || !Acyclic(g))
    ensures Search(g, marked, post + [v], stack)
  {
    var p := post + [v];
    assert p + stack == post + ([v] + stack);
    assert Distinct(post + (stack + [v]));
    forall i, j | 0 <= i < j < |p + stack|
      ensures (p + stack)[i] != (p + stack)[j]
    {
      var s := post + (stack + [v]);
      var f := (q: int) => if q < |post| then q else if q == |post| then |s| - 1 else q - 1;
      assert (p + stack)[i] == s[f(i)] && (p + stack)[j] == s[f(j)];
    }
    forall x | x in p + stack
      ensures x < |g|
    {
      assert x in post + (stack + [v]);
    }
    forall u | 0 <= u < |g|
      ensures marked[u] <==> u in p || u in stack
    {
      assert u in stack + [v] <==> u in stack || u == v;
    }
    forall k | 0 <= k < |stack| - 1
      ensures stack[k + 1] in Succ(g, stack[k])
    {
      assert stack[k] == (stack + [v])[k] && stack[k + 1] == (stack + [v])[k + 1];
    }
    forall k | 0 <= k < |p|
      ensures Settled(g, p, k)
    {
      assert p[..k] == if k < |post| then post[..k] else post;
      if k < |post| {
        assert Settled(g, post, k);
      }
    }
    forall k, x | 0 <= k < |p| && x in Succ(g, p[k])
      ensures x < |g| && marked[x]
    {
      if k < |post| {
        assert p[k] == post[k];
      } else {
        assert p[k] == v;
      }
    }
  }

  lemma PrefixIn(s0: seq<nat>, s1: seq<nat>, x: nat)
    requires IsPrefix(s0, s1) && x in s0
    ensures x in s1
  {
    var k :| 0 <= k < |s0| && s0[k] == x;
    assert s1[k] == x;
  }

  /** At the end of the search, with the stack empty and every vertex marked, `post` lists
      every vertex once and, on an acyclic graph, in postorder. */
  lemma Complete(g: seq<seq<nat>>, marked: seq<bool>, post: seq<nat>)
    requires Search(g, marked, post, []) && forall v :: 0 <= v < |g| ==> marked[v]
    ensures Distinct(post)
    ensures forall v :: v in post <==> 0 <= v < |g|
    ensures Acyclic(g) ==> Postordered(g, post)
  {
    assert post + [] == post;
    forall v | v in post
      ensures 0 <= v < |g|
    {
      assert v in post + [];
    }
    if Acyclic(g) {
      forall k | 0 <= k < |post|
        ensures post[k] < |g| && forall x :: x in Succ(g, post[k]) ==> x in post[..k]
      {
        assert post[k] in post;
        assert Settled(g, post, k);
      }
    }
  }

  /** Every edge goes from an entry of `order` to a later one: a topological order. */
  ghost predicate Forward(g: seq<seq<nat>>, order: seq<nat>)
  {
    forall i :: 0 <= i < |order| ==> forall x :: x in Succ(g, order[i]) ==> x in order[i + 1..]
  }

  /** Reading a postorder back to front puts every edge forward. */
  lemma Reversed(g: seq<seq<nat>>, post: seq<nat>)
    ensures Postordered(g, post) ==> Forward(g, Reverse(post))
  {
    var r := Reverse(post);
    if Postordered(g, post) {
      forall i, x | 0 <= i < |r| && x in Succ(g, r[i])
        ensures x in r[i + 1..]
      {
        var k := |post| - 1 - i;
        assert r[i] == post[k];
        assert x in post[..k];
        var j :| 0 <= j < k && post[j] == x;
        assert r[|post| - 1 - j] == x;
        assert r[i + 1..][|post| - 1 - j - (i + 1)] == x;
      }
    }
  }
}
