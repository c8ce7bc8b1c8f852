/** `TopologicalOrder` of directed_graph_algorithms: a depth-first search over an unweighted
    digraph, given by its successor lists, that records every vertex once it is finished. */
module DigraphTopological {
  import opened Common
  import opened DepthFirst
  import opened FinishingOrder

  class TopologicalOrder {
    const g: seq<seq<nat>>
    var marked: seq<bool>
    /** The vertices in the order their searches finished (the source's name for it). */
    var reversePostorder: seq<nat>

    /** The result of the constructor. */
    ghost predicate Valid()
      reads this
    {
      && Distinct(reversePostorder)
      && (forall v :: v in reversePostorder <==> 0 <= v < |g|)
      && (Acyclic(g) ==> Postordered(g, reversePostorder))
      && Prefixes(g, reversePostorder)
    }

    /** Runs the search from every vertex not yet marked, in increasing order. */
    constructor (g: seq<seq<nat>>)
      requires Closed(g)
      ensures this.g == g && Valid()
      ensures |marked| == |g| && forall v :: 0 <= v < |g| ==> marked[v]
    {
      this.g := g;
      marked := seq(|g|, _ => false);
      reversePostorder := [];
      new;
      Start(g);
      EmptyPrefixes(g);
      for v := 0 to |g|
        invariant Search(g, marked, reversePostorder, []) && Prefixes(g, reversePostorder)
        invariant forall u :: 0 <= u < v ==> marked[u]
      {
        if !marked[v] {
          Dfs(v, []);
        }
      }
      Complete(g, marked, reversePostorder);
    }

    /** `_dfs(vertex)`: marks v, searches from each unmarked successor, then appends v. */
    method Dfs(v: nat, ghost stack: seq<nat>)
      requires Closed(g) && Search(g, marked, reversePostorder, stack) && v < |g| && !marked[v]
      requires stack == [] || v in Succ(g, stack[|stack| - 1])
      requires Prefixes(g, reversePostorder)
      modifies this
      ensures Search(g, marked, reversePostorder, stack) && marked[v] && v in reversePostorder
      ensures Prefixes(g, reversePostorder)
      ensures Grows(old(marked), marked) && IsPrefix(old(reversePostorder), reversePostorder)
      decreases Unmarked(marked)
    {
      Push(g, marked, reversePostorder, stack, v);
      marked := marked[v := true];
      ghost var entry := marked;
      var adjacent := g[v];
      for i := 0 to |adjacent|
        invariant Search(g, marked, reversePostorder, stack + [v]) && Prefixes(g, reversePostorder)
        invariant Grows(entry, marked) && IsPrefix(old(reversePostorder), reversePostorder)
        invariant Unmarked(marked) <= Unmarked(entry)
        invariant forall j :: 0 <= j < i ==>
          adjacent[j] < |g| && marked[adjacent[j]] && (adjacent[j] in reversePostorder || !Acyclic(g))
      {
        var w := adjacent[i];
        if !marked[w] {
          ghost var before := reversePostorder;
          Dfs(w, stack + [v]);
          forall j | 0 <= j < i && adjacent[j] in before
            ensures adjacent[j] in reversePostorder
          {
            PrefixIn(before, reversePostorder, adjacent[j]);
          }
        } else if w !in reversePostorder {
          BackEdge(g, marked, reversePostorder, stack + [v], w);
        }
      }
      Pop(g, marked, reversePostorder, stack, v);
      PopPrefixes(g, marked, reversePostorder, stack, v);
      reversePostorder := reversePostorder + [v];
    }

    /** `get_order`: the finishing order read back to front. It lists every vertex once,
        and on an acyclic graph every edge goes from an earlier to a later vertex. */
    function GetOrder(): (r: seq<nat>)
      requires Valid()
      reads this
      ensures Distinct(r) && forall v :: v in r <==> 0 <= v < |g|
      ensures Acyclic(g) ==> Forward(g, r)
    {
      ReverseKeeps(reversePostorder);
      Reversed(g, reversePostorder);
      Reverse(reversePostorder)
    }
  }
}
