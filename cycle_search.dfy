/** The depth-first search with an `on_stack` list and `edge_to` parents that the directed
    cycle finders run, stated over values. Until a cycle is found, every finished vertex
    has all its successors finished before it; the first edge into a vertex on the stack
    closes a cycle, which is read off the parent links. */
module CycleSearch {
  import opened Common
  import opened DepthFirst

  /** What `_get_cycle_path` records: a walk whose last vertex also occurs earlier. */
  ghost predicate CycleRecord(g: seq<seq<nat>>, c: seq<nat>)
  {
    IsWalk(g, c) && |c| >= 2 && c[|c| - 1] in c[..|c| - 1]
  }

  /** A recorded cycle is a cycle of the graph. */
  lemma RecordedCycle(g: seq<seq<nat>>, c: seq<nat>)
    requires CycleRecord(g, c)
    ensures !Acyclic(g)
  {
    var x := c[|c| - 1];
    var k :| 0 <= k < |c| - 1 && c[k] == x;
    var p := c[k..];
    assert IsWalk(g, p) && |p| >= 2 && p[0] == p[|p| - 1];
  }

  /** The parent links run down the stack: the bottom has none and each other entry has the
      one below it. */
  ghost predicate TreePath(edgeTo: seq<Option<nat>>, stack: seq<nat>)
  {
    && (forall k :: 0 <= k < |stack| ==> stack[k] < |edgeTo|)
    && (stack != [] ==> edgeTo[stack[0]] == None)
    && (forall k :: 0 < k < |stack| ==> edgeTo[stack[k]] == Some(stack[k - 1]))
  }

  /** The state while no cycle has been found: a depth-first search whose finished vertices
      are in postorder, `on_stack` marking exactly the stack, and parent links along it. */
  ghost predicate Tracing(g: seq<seq<nat>>, marked: seq<bool>, onStack: seq<bool>, edgeTo: seq<Option<nat>>, post: seq<nat>, stack: seq<nat>)
  {
    && Search(g, marked, post, stack) && Postordered(g, post)
    && |onStack| == |g| && |edgeTo| == |g|
    && (forall u :: 0 <= u < |g| ==> (onStack[u] <==> u in stack))
    && TreePath(edgeTo, stack)
  }

  /** Vertices not yet reached have no parent, except possibly `except`. */
  ghost predicate Unlinked(marked: seq<bool>, edgeTo: seq<Option<nat>>, except: int)
  {
    forall u :: 0 <= u < |marked| && u < |edgeTo| && !marked[u] && u != except ==> edgeTo[u] == None
  }

  /** The state before the first search. */
  lemma Begin(g: seq<seq<nat>>)
    ensures Tracing(g, seq(|g|, _ => false), seq(|g|, _ => false), seq(|g|, _ => None), [], [])
    ensures Unlinked(seq(|g|, _ => false), seq(|g|, _ => None), -1)
  {
    Start(g);
  }

  /** Entering v, whose parent link names the top of the stack. */
  lemma Enter(g: seq<seq<nat>>, marked: seq<bool>, onStack: seq<bool>, edgeTo: seq<Option<nat>>, post: seq<nat>, stack: seq<nat>, v: nat)
    requires Tracing(g, marked, onStack, edgeTo, post, stack) && v < |g| && !marked[v]
    requires stack == [] || v in Succ(g, stack[|stack| - 1])
    requires edgeTo[v] == if stack == [] then None else Some(stack[|stack| - 1])
    requires Unlinked(marked, edgeTo, v)
    ensures Tracing(g, marked[v := true], onStack[v := true], edgeTo, post, stack + [v])
    ensures Unlinked(marked[v := true], edgeTo, -1)
    ensures Unmarked(marked[v := true]) == Unmarked(marked) - {v}
  {
    Push(g, marked, post, stack, v);
    var s := stack + [v];
    forall u | 0 <= u < |g|
      ensures onStack[v := true][u] <==> u in s
    {
      assert u in s <==> u in stack || u == v;
    }
    forall k | 0 < k < |s|
      ensures edgeTo[s[k]] == Some(s[k - 1])
    {
      if k < |stack| {
        assert s[k] == stack[k] && s[k - 1] == stack[k - 1];
      }
    }
  }

  /** `edge_to[w] = v` for an unmarked w: nothing on the stack changes. */
  lemma Link(g: seq<seq<nat>>, marked: seq<bool>, onStack: seq<bool>, edgeTo: seq<Option<nat>>, post: seq<nat>, stack: seq<nat>, w: nat, v: nat)
    requires Tracing(g, marked, onStack, edgeTo, post, stack) && Unlinked(marked, edgeTo, -1) && w < |g| && !marked[w]
    ensures Tracing(g, marked, onStack, edgeTo[w := Some(v)], post, stack)
    ensures Unlinked(marked, edgeTo[w := Some(v)], w)
  {
    assert w !in stack;
  }

  /** Leaving v once every successor is finished: v is finished, after all of them. */
  lemma Leave(g: seq<seq<nat>>, marked: seq<bool>, onStack: seq<bool>, edgeTo: seq<Option<nat>>, post: seq<nat>, stack: seq<nat>, v: nat)
    requires Tracing(g, marked, onStack, edgeTo, post, stack + [v]) && v < |g|
    requires forall x :: x in Succ(g, v) ==> x in post
    ensures Tracing(g, marked, onStack[v := false], edgeTo, post + [v], stack)
  {
    var s := stack + [v];
    assert v in s;
    forall x | x in Succ(g, v)
      ensures x < |g| && marked[x] && (x in post || !Acyclic(g))
    {
      assert x in post + s;
    }
    Pop(g, marked, post, stack, v);
    var p := post + [v];
    forall k | 0 <= k < |p|
      ensures p[k] < |g| && forall x :: x in Succ(g, p[k]) ==> x in p[..k]
    {
      if k < |post| {
        assert p[k] == post[k] && p[..k] == post[..k];
      } else {
        assert p[..k] == post;
        assert v in post + s;
      }
    }
    assert Distinct(post + s);
    forall u | 0 <= u < |g|
      ensures onStack[v := false][u] <==> u in stack
    {
      assert u in s <==> u in stack || u == v;
      if u == v {
        forall k | 0 <= k < |stack|
          ensures stack[k] != v
        {
          assert (post + s)[|post| + k] == stack[k] && (post + s)[|post| + |stack|] == v;
        }
      }
    }
    assert forall k :: 0 <= k < |stack| ==> stack[k] == s[k];
  }

  /** An edge from the top of the stack to a vertex on it: the stack followed by that
      vertex is a cycle record. */
  lemma Close(g: seq<seq<nat>>, marked: seq<bool>, onStack: seq<bool>, edgeTo: seq<Option<nat>>, post: seq<nat>, stack: seq<nat>, w: nat)
    requires Tracing(g, marked, onStack, edgeTo, post, stack) && stack != []
    requires w in Succ(g, stack[|stack| - 1]) && w in stack
    ensures CycleRecord(g, stack + [w])
  {
    StackWalk(g, marked, post, stack, 0);
    var c := stack + [w];
    assert c[..|c| - 1] == stack;
    assert stack[0..] == stack;
  }

  /** Every successor of an acyclic graph's vertex in a postorder precedes it, so positions
      strictly decrease along a walk. */
  lemma {:induction false} Descends(g: seq<seq<nat>>, post: seq<nat>, p: seq<nat>)
    requires Postordered(g, post) && IsWalk(g, p) && (forall k :: 0 <= k < |p| ==> p[k] in post)
    ensures |p| >= 2 ==> IndexOf(post, p[|p| - 1]) < IndexOf(post, p[0])
    decreases |p|
  {
    if |p| >= 2 {
      var q := p[..|p| - 1];
      assert IsWalk(g, q);
      Descends(g, post, q);
      var a := p[|p| - 2];
      var b := p[|p| - 1];
      var i := IndexOf(post, a);
      assert b in post[..i];
      var j :| 0 <= j < i && post[..i][j] == b;
      assert post[j] == b;
    }
  }

  /** A graph whose every vertex appears in a postorder has no cycle. */
  lemma PostorderedAcyclic(g: seq<seq<nat>>, post: seq<nat>)
    requires Postordered(g, post) && forall v :: 0 <= v < |g| ==> v in post
    ensures Acyclic(g)
  {
    forall p | IsWalk(g, p) && |p| >= 2
      ensures p[0] != p[|p| - 1]
    {
      Descends(g, post, p);
    }
  }

  /** The end of the outer loop: with nothing unmarked and no cycle, the graph is acyclic. */
  lemma NoCycle(g: seq<seq<nat>>, marked: seq<bool>, onStack: seq<bool>, edgeTo: seq<Option<nat>>, post: seq<nat>)
    requires Tracing(g, marked, onStack, edgeTo, post, []) && forall v :: 0 <= v < |g| ==> marked[v]
    ensures Acyclic(g)
  {
    Complete(g, marked, post);
    PostorderedAcyclic(g, post);
  }
}
