/** `DirectedCycle` of directed_graph_algorithms: a depth-first search that stops at the
    first edge into a vertex whose call is still active, and records the cycle it closes. */
module DirectedCycles {
  import opened Common
  import opened DepthFirst
  import opened CycleSearch

  class DirectedCycle {
    const g: seq<seq<nat>>
    var marked: seq<bool>
    var onStack: seq<bool>
    var edgeTo: seq<Option<nat>>
    /** The recorded cycle; empty while none has been found (the source's deque). */
    var cycle: seq<nat>
    /** The finished vertices in finishing order. */
    ghost var post: seq<nat>

    /** The result: a recorded cycle is a cycle, and none is recorded exactly when the
        graph has none. */
    ghost predicate Valid()
      reads this
    {
      (cycle != [] ==> CycleRecord(g, cycle)) && (cycle == [] <==> Acyclic(g))
    }

    /** Searches from each unmarked vertex in increasing order until a cycle is found. */
    constructor (g: seq<seq<nat>>)
      requires Closed(g)
      ensures this.g == g && Valid()
    {
      this.g := g;
      marked := seq(|g|, _ => false);
      onStack := seq(|g|, _ => false);
      edgeTo := seq(|g|, _ => None);
      cycle := [];
      post := [];
      new;
      Begin(g);
      var vertex := 0;
      while vertex < |g| && cycle == []
        invariant vertex <= |g|
        invariant cycle != [] ==> CycleRecord(g, cycle)
        invariant cycle == [] ==> Tracing(g, marked, onStack, edgeTo, post, []) && Unlinked(marked, edgeTo, -1)
        invariant cycle == [] ==> forall u :: 0 <= u < vertex ==> marked[u]
      {
        if !marked[vertex] {
          Dfs(vertex, []);
        }
        vertex := vertex + 1;
      }
      if cycle == [] {
        NoCycle(g, marked, onStack, edgeTo, post);
      } else {
        RecordedCycle(g, cycle);
      }
    }

    /** `has_cycle`: whether a cycle was recorded, that is, whether the graph has one. */
    function HasCycle(): (r: bool)
      requires Valid()
      reads this
      ensures r <==> !Acyclic(g)
    {
      cycle != []
    }

    /** `_dfs(vertex)`: marks v and puts it on the stack, then scans its successors. */
    method Dfs(v: nat, ghost stack: seq<nat>)
      requires Closed(g) && cycle == [] && Tracing(g, marked, onStack, edgeTo, post, stack) && v < |g| && !marked[v]
      requires stack == [] || v in Succ(g, stack[|stack| - 1])
      requires edgeTo[v] == if stack == [] then None else Some(stack[|stack| - 1])
      requires Unlinked(marked, edgeTo, v)
      modifies this
      ensures |onStack| == |g| && (cycle != [] ==> CycleRecord(g, cycle))
      ensures cycle == [] ==> Tracing(g, marked, onStack, edgeTo, post, stack) && Unlinked(marked, edgeTo, -1)
      ensures cycle == [] ==> marked[v] && v in post && Grows(old(marked), marked) && IsPrefix(old(post), post)
      decreases Unmarked(marked), 0
    {
      Enter(g, marked, onStack, edgeTo, post, stack, v);
      marked := marked[v := true];
      onStack := onStack[v := true];
      Scan(v, stack, old(marked), old(post));
    }

    /** The loop of `_dfs` and what follows it: each successor in turn, unless a cycle is
        known (then the call returns at once); then v is finished and leaves the stack.
        `m0` and `p0` are the marks and the finished vertices before v was entered. */
    method Scan(v: nat, ghost stack: seq<nat>, ghost m0: seq<bool>, ghost p0: seq<nat>)
      requires Closed(g) && cycle == [] && v < |g| && v < |m0| && !m0[v]
      requires Tracing(g, marked, onStack, edgeTo, post, stack + [v]) && Unlinked(marked, edgeTo, -1)
      requires Grows(m0, marked) && IsPrefix(p0, post)
      modifies this
      ensures |onStack| == |g| && (cycle != [] ==> CycleRecord(g, cycle))
      ensures cycle == [] ==> Tracing(g, marked, onStack, edgeTo, post, stack) && Unlinked(marked, edgeTo, -1)
      ensures cycle == [] ==> marked[v] && v in post && Grows(m0, marked) && IsPrefix(p0, post)
      decreases Unmarked(m0) - {v}, 2
    {
      var adjacent := g[v];
      for i := 0 to |adjacent|
        invariant |onStack| == |g| && (cycle != [] ==> CycleRecord(g, cycle))
        invariant cycle == [] ==> Tracing(g, marked, onStack, edgeTo, post, stack + [v]) && Unlinked(marked, edgeTo, -1)
        invariant cycle == [] ==> Grows(m0, marked) && IsPrefix(p0, post)
        invariant cycle == [] ==> forall j :: 0 <= j < i ==> g[v][j] in post
      {
        if cycle != [] {
          return;
        }
        assert v in stack + [v];
        GrowsUnmarked(m0, marked);
        ghost var seen := post;
        Step(v, adjacent[i], stack, m0, p0);
        if cycle == [] {
          forall j | 0 <= j < i
            ensures g[v][j] in post
          {
            PrefixIn(seen, post, g[v][j]);
          }
        }
      }
      if cycle == [] {
        Leave(g, marked, onStack, edgeTo, post, stack, v);
        post := post + [v];
      }
      onStack := onStack[v := false];
    }

    /** The body of `_dfs`'s loop for the successor w of v: search from w when it is
        unmarked, record the cycle it closes when it is on the stack. */
    method Step(v: nat, w: nat, ghost stack: seq<nat>, ghost m0: seq<bool>, ghost p0: seq<nat>)
      requires Closed(g) && cycle == [] && v < |g| && w in Succ(g, v)
      requires Tracing(g, marked, onStack, edgeTo, post, stack + [v]) && Unlinked(marked, edgeTo, -1)
      requires Grows(m0, marked) && IsPrefix(p0, post)
      modifies this
      ensures |onStack| == |g| && (cycle != [] ==> CycleRecord(g, cycle))
      ensures cycle == [] ==> Tracing(g, marked, onStack, edgeTo, post, stack + [v]) && Unlinked(marked, edgeTo, -1)
      ensures cycle == [] ==> Grows(m0, marked) && IsPrefix(p0, post) && IsPrefix(old(post), post) && w in post
      decreases Unmarked(marked), 1
    {
      if !marked[w] {
        Link(g, marked, onStack, edgeTo, post, stack + [v], w, v);
        edgeTo := edgeTo[w := Some(v)];
        Dfs(w, stack + [v]);
      } else if onStack[w] {
        GetCyclePath(v, w, stack + [v]);
      } else {
        assert w in post + (stack + [v]);
      }
    }

    /** `_get_cycle_path(v, w)`: follows the parent links from v back to the root, putting
        each vertex in front, then appends w. With the parent links running down the stack
        this records the stack followed by w. */
    method GetCyclePath(v: nat, w: nat, ghost s: seq<nat>)
      requires cycle == [] && Tracing(g, marked, onStack, edgeTo, post, s) && s != [] && s[|s| - 1] == v
      requires w in Succ(g, v) && w in s
      modifies this
      ensures cycle == s + [w] && CycleRecord(g, cycle)
      ensures marked == old(marked) && onStack == old(onStack) && edgeTo == old(edgeTo) && post == old(post)
    {
      Close(g, marked, onStack, edgeTo, post, s, w);
      var path: seq<nat> := [];
      var current: Option<nat> := Some(v);
      ghost var k: int := |s| - 1;
      while current.Some?
        invariant -1 <= k < |s|
        invariant current == if k >= 0 then Some(s[k]) else None
        invariant path == s[k + 1..]
        decreases k + 1
      {
        assert [s[k]] + s[k + 1..] == s[k..];
        path := [current.value] + path;
        current := edgeTo[current.value];
        k := k - 1;
      }
      cycle := path + [w];
    }

    /** `get_cycle`: the recorded cycle, or None when the graph has no cycle. */
    function GetCycle(): (r: Option<seq<nat>>)
      requires Valid()
      reads this
      ensures r.None? <==> Acyclic(g)
      ensures r.Some? ==> CycleRecord(g, r.value)
    {
      if cycle == [] then None else Some(cycle)
    }
  }
}
