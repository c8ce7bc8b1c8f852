/** `SAP` of directed_graph_algorithms: the shortest ancestral path between two groups of
    vertices of a digraph. An ancestor of v is a vertex v reaches; the search runs two
    breadth-first searches in turns, one from each group, and wherever a vertex newly found by
    one side has already been visited by the other it compares the sum of its two distances
    with the best found so far. Each side's deque is a sequence read from a head index, its
    visited set a list of marks and its distance dictionary a list read only at visited
    vertices. */
module ShortestAncestral {
  import opened Common
  import opened DepthFirst
  import opened BreadthFirst

  /** `_length`: None, `float('inf')`, or a number of edges. */
  datatype Length = Unset | Infinite | Finite(edges: nat)

  /** `_sca`: None, a vertex, or the whole second group, which is what `_sap` stores when the
      two groups share a vertex. */
  datatype Ancestor = NoAncestor | Vertex(vertex: nat) | Group(vertices: seq<nat>)

  /** `ValueError("Invalid argument.")`, and the `TypeError` Python raises when a number is
      compared with None. */
  datatype SapError = InvalidArgument | Unordered

  /** An argument of `get_ancestor`: one vertex or a list of them. */
  datatype Query = One(v: nat) | Many(vs: seq<nat>)

  /** The list `_validate` makes of an argument. */
  function Listed(q: Query): seq<nat>
  {
    match q
    case One(v) => [v]
    case Many(vs) => vs
  }

  /** A non-empty list of vertices of a graph with n vertices. */
  predicate Admissible(n: nat, vs: seq<nat>)
  {
    vs != [] && forall x :: x in vs ==> x < n
  }

  /** `_validate`: each argument, turned into a list, must be a non-empty list of vertices of
      the graph, or the query raises `ValueError`. */
  function Validate(n: nat, a: Query, b: Query): (r: Result<(seq<nat>, seq<nat>), SapError>)
    ensures r.Err? ==> r.error == InvalidArgument
    ensures r.Ok? <==> Listed(a) != [] && Listed(b) != []
                       && forall x :: x in Listed(a) || x in Listed(b) ==> x < n
    ensures r.Ok? ==> r.value == (Listed(a), Listed(b))
  {
    var vs, ws := Listed(a), Listed(b);
    if !Admissible(n, vs) then Err(InvalidArgument)
    else if !Admissible(n, ws) then Err(InvalidArgument)
    else Ok((vs, ws))
  }

  /** Two single vertices pass validation exactly when both are vertices of the graph. */
  lemma ValidateOne(n: nat, v: nat, w: nat)
    ensures Validate(n, One(v), One(w)) == if v < n && w < n then Ok(([v], [w])) else Err(InvalidArgument)
  {
    assert v in Listed(One(v)) && w in Listed(One(w));
  }

  /** One side of the search. */
  datatype Side = Side(queue: seq<nat>, head: nat, visited: seq<bool>, dist: seq<nat>)

  /** The side fits a graph of n vertices and every queued vertex has been visited. */
  ghost predicate Shaped(n: nat, s: Side)
  {
    && s.head <= |s.queue| && |s.visited| == n && |s.dist| == n
    && forall k :: 0 <= k < |s.queue| ==> s.queue[k] < n && s.visited[s.queue[k]]
  }

  /** x has been visited by the side, which holds a distance for it. */
  ghost predicate Seen(x: nat, s: Side)
  {
    x < |s.visited| && x < |s.dist| && s.visited[x]
  }

  /** Twice the unvisited vertices plus the queued ones not yet taken: each step lowers it. */
  ghost function Measure(s: Side): nat
  {
    if s.head <= |s.queue| then 2 * |Unmarked(s.visited)| + |s.queue| - s.head else 0
  }

  /** The successors in adj that `visited` does not hold, in their order and each once: what
      one `_bfs` step appends to the queue. */
  function Fresh(adj: seq<nat>, visited: seq<bool>): (r: seq<nat>)
    requires forall k :: 0 <= k < |adj| ==> adj[k] < |visited|
    ensures |r| <= |adj|
    decreases |adj|
  {
    if adj == [] then []
    else
      var r0 := Fresh(adj[..|adj| - 1], visited);
      var w := adj[|adj| - 1];
      if visited[w] || w in r0 then r0 else r0 + [w]
  }

  /** `Fresh` holds each unvisited successor once, and nothing else. */
  lemma {:induction false} FreshMembers(adj: seq<nat>, visited: seq<bool>)
    requires forall k :: 0 <= k < |adj| ==> adj[k] < |visited|
    ensures Distinct(Fresh(adj, visited))
    ensures forall x :: x in Fresh(adj, visited) <==> x in adj && !visited[x]
    decreases |adj|
  {
    if adj != [] {
      var a0 := adj[..|adj| - 1];
      FreshMembers(a0, visited);
      assert adj == a0 + [adj[|adj| - 1]];
    }
  }

  /** Some vertex of s is marked in m. */
  ghost predicate Meets(s: seq<nat>, m: seq<bool>)
  {
    exists x :: x in s && x < |m| && m[x]
  }

  /** `total_dist < self._length`, for a length that is a number or infinity. */
  predicate Beats(t: nat, l: Length)
  {
    l.Infinite? || (l.Finite? && t < l.edges)
  }

  /** The length is a number no greater than t. */
  predicate Within(l: Length, t: nat)
  {
    l.Finite? && l.edges <= t
  }

  /** l1 is l0, or a number that beats it. */
  predicate NoWorse(l1: Length, l0: Length)
  {
    l1 == l0 || (l1.Finite? && Beats(l1.edges, l0))
  }

  /** Going from length l0 and ancestor a0 to l1 and a1 never raised the length, changed the
      ancestor only together with it, and set it only to a vertex. */
  predicate Improved(l0: Length, a0: Ancestor, l1: Length, a1: Ancestor)
  {
    NoWorse(l1, l0) && (l1 == l0 ==> a1 == a0) && (a1 == a0 || a1.Vertex?)
  }

  lemma ImprovedTrans(l0: Length, a0: Ancestor, l1: Length, a1: Ancestor, l2: Length, a2: Ancestor)
    requires Improved(l0, a0, l1, a1) && Improved(l1, a1, l2, a2)
    ensures Improved(l0, a0, l2, a2)
  {
    if l1 != l0 {
      assert l2 != l0;
    }
  }

  /** The comparisons of one step, `added` being the vertices it newly visited and `next` the
      side afterwards: every newly visited vertex the other side has visited has a total no
      smaller than the new length, and either nothing changed or the length fell strictly to
      the total of such a vertex, which became the ancestor. */
  ghost predicate Compared(added: seq<nat>, next: Side, other: Side, l0: Length, a0: Ancestor,
                           l1: Length, a1: Ancestor)
  {
    && (forall x :: x in added && Seen(x, next) && Seen(x, other) ==>
          Within(l1, next.dist[x] + other.dist[x]))
    && (|| (l1 == l0 && a1 == a0)
        || (&& l1.Finite? && Beats(l1.edges, l0) && a1.Vertex? && a1.vertex in added
            && Seen(a1.vertex, next) && Seen(a1.vertex, other)
            && l1.edges == next.dist[a1.vertex] + other.dist[a1.vertex]))
  }

  /** What one `_bfs` call on side cur did, the other side being `other`: the head moved past
      the vertex u it pops, the successors of u the side had not visited were appended,
      visited and given u's distance plus one, nothing else on the side changed, and the
      length and ancestor moved as `Compared` says. */
  ghost predicate Stepped(g: seq<seq<nat>>, cur: Side, other: Side, next: Side,
                          l0: Length, a0: Ancestor, l1: Length, a1: Ancestor)
  {
    && Closed(g) && Shaped(|g|, cur) && cur.head < |cur.queue|
    && var u := cur.queue[cur.head];
       var added := Fresh(g[u], cur.visited);
       && next.queue == cur.queue + added && next.head == cur.head + 1
       && |next.visited| == |g| && |next.dist| == |g|
       && (forall x :: 0 <= x < |g| ==> (next.visited[x] <==> cur.visited[x] || x in added))
       && (forall x :: 0 <= x < |g| ==> next.dist[x] == if x in added then cur.dist[u] + 1 else cur.dist[x])
       && Compared(added, next, other, l0, a0, l1, a1)
  }

  /** Every vertex both sides have visited was compared: the length is at most its total.
      The ancestor is none at infinite length, and otherwise a vertex both sides visited
      whose total is the length. */
  ghost predicate Checked(n: nat, a: Side, b: Side, l: Length, s: Ancestor)
  {
    && (forall x :: 0 <= x < n && Seen(x, a) && Seen(x, b) ==> Within(l, a.dist[x] + b.dist[x]))
    && (|| (l == Infinite && s == NoAncestor)
        || (&& s.Vertex? && Seen(s.vertex, a) && Seen(s.vertex, b)
            && l == Finite(a.dist[s.vertex] + b.dist[s.vertex])))
  }

  lemma CheckedSwap(n: nat, a: Side, b: Side, l: Length, s: Ancestor)
    requires Checked(n, a, b, l, s)
    ensures Checked(n, b, a, l, s)
  {
  }

  /** A step keeps every common vertex compared. */
  lemma StepChecked(g: seq<seq<nat>>, cur: Side, other: Side, next: Side,
                    l0: Length, a0: Ancestor, l1: Length, a1: Ancestor)
    requires Stepped(g, cur, other, next, l0, a0, l1, a1)
    requires Checked(|g|, cur, other, l0, a0)
    ensures Checked(|g|, next, other, l1, a1)
  {
    var added := Fresh(g[cur.queue[cur.head]], cur.visited);
    FreshMembers(g[cur.queue[cur.head]], cur.visited);
    forall x | 0 <= x < |g| && Seen(x, next) && Seen(x, other)
      ensures Within(l1, next.dist[x] + other.dist[x])
    {
      if cur.visited[x] {
        assert Within(l0, cur.dist[x] + other.dist[x]);
      }
    }
  }

  /** A step keeps the side well formed: every vertex it appends is one it visits. */
  lemma StepShaped(g: seq<seq<nat>>, cur: Side, other: Side, next: Side,
                   l0: Length, a0: Ancestor, l1: Length, a1: Ancestor)
    requires Stepped(g, cur, other, next, l0, a0, l1, a1)
    ensures Shaped(|g|, next)
  {
    var added := Fresh(g[cur.queue[cur.head]], cur.visited);
    FreshMembers(g[cur.queue[cur.head]], cur.visited);
    forall k | 0 <= k < |next.queue|
      ensures next.queue[k] < |g| && next.visited[next.queue[k]]
    {
      if k >= |cur.queue| {
        assert next.queue[k] == added[k - |cur.queue|] && added[k - |cur.queue|] in added;
      }
    }
  }

  /** A step takes one vertex off the queue and visits each vertex it appends. */
  lemma StepMeasure(g: seq<seq<nat>>, cur: Side, other: Side, next: Side,
                    l0: Length, a0: Ancestor, l1: Length, a1: Ancestor)
    requires Stepped(g, cur, other, next, l0, a0, l1, a1)
    ensures Shaped(|g|, next)
    ensures Measure(next) < Measure(cur)
  {
    StepShaped(g, cur, other, next, l0, a0, l1, a1);
    var added := Fresh(g[cur.queue[cur.head]], cur.visited);
    FreshMembers(g[cur.queue[cur.head]], cur.visited);
    MarkAll(cur.visited, next.visited, added);
  }

  /** Visiting the distinct unvisited vertices of `added` removes exactly them from the
      unvisited ones. */
  lemma MarkAll(m0: seq<bool>, m1: seq<bool>, added: seq<nat>)
    requires |m1| == |m0| && forall x :: 0 <= x < |m0| ==> (m1[x] <==> m0[x] || x in added)
    requires Distinct(added) && forall x :: x in added ==> x < |m0| && !m0[x]
    ensures |Unmarked(m1)| + |added| == |Unmarked(m0)|
  {
    var A := set x | x in added;
    DistinctCardinality(added);
    var U0, U1 := Unmarked(m0), Unmarked(m1);
    assert U1 == U0 - A;
    assert |U0| == |U1| + |A| by {
      assert U0 == U1 + A && U1 * A == {};
    }
  }

  /** The side's state inside one `_bfs` call on side cur, after looking at the first i
      successors of the popped vertex: `added` is what `Fresh` makes of them, the queue q is
      cur's with `added` appended, and the marks m and distances d are cur's with `added`
      visited one edge further than the popped vertex. */
  ghost predicate Visiting(g: seq<seq<nat>>, cur: Side, i: nat, q: seq<nat>, m: seq<bool>,
                           d: seq<nat>, added: seq<nat>)
  {
    && Closed(g) && Shaped(|g|, cur) && cur.head < |cur.queue|
    && var u := cur.queue[cur.head];
       && i <= |g[u]| && added == Fresh(g[u][..i], cur.visited)
       && q == cur.queue + added && |m| == |g| && |d| == |g|
       && (forall x :: 0 <= x < |g| ==> (m[x] <==> cur.visited[x] || x in added))
       && (forall x :: 0 <= x < |g| ==> d[x] == if x in added then cur.dist[u] + 1 else cur.dist[x])
  }

  lemma VisitStart(g: seq<seq<nat>>, cur: Side)
    requires Closed(g) && Shaped(|g|, cur) && cur.head < |cur.queue|
    ensures Visiting(g, cur, 0, cur.queue, cur.visited, cur.dist, [])
  {
    assert cur.queue + [] == cur.queue;
    assert g[cur.queue[cur.head]][..0] == [];
  }

  /** A successor already visited is passed over. */
  lemma VisitSkip(g: seq<seq<nat>>, cur: Side, i: nat, q: seq<nat>, m: seq<bool>, d: seq<nat>,
                  added: seq<nat>)
    requires Visiting(g, cur, i, q, m, d, added)
    requires i < |g[cur.queue[cur.head]]| && m[g[cur.queue[cur.head]][i]]
    ensures Visiting(g, cur, i + 1, q, m, d, added)
  {
    var adj := g[cur.queue[cur.head]];
    assert adj[..i + 1][..i] == adj[..i];
  }

  /** An unvisited successor w is appended and visited one edge further than the popped
      vertex u, whose distance is still cur's. */
  lemma VisitAdd(g: seq<seq<nat>>, cur: Side, i: nat, q: seq<nat>, m: seq<bool>, d: seq<nat>,
                 added: seq<nat>)
    requires Visiting(g, cur, i, q, m, d, added)
    requires i < |g[cur.queue[cur.head]]| && !m[g[cur.queue[cur.head]][i]]
    ensures var u := cur.queue[cur.head]; var w := g[u][i];
            && w < |g| && w !in added && !cur.visited[w] && d[u] == cur.dist[u]
            && Visiting(g, cur, i + 1, q + [w], m[w := true], d[w := d[u] + 1], added + [w])
  {
    var u := cur.queue[cur.head];
    var adj := g[u];
    var w := adj[i];
    assert adj[..i + 1][..i] == adj[..i];
    FreshMembers(adj[..i], cur.visited);
    assert u < |g| && cur.visited[u];
  }

  /** After the last successor, `added` is all of `Fresh`. */
  lemma VisitEnd(g: seq<seq<nat>>, cur: Side, i: nat, q: seq<nat>, m: seq<bool>, d: seq<nat>,
                 added: seq<nat>)
    requires Visiting(g, cur, i, q, m, d, added) && i == |g[cur.queue[cur.head]]|
    ensures added == Fresh(g[cur.queue[cur.head]], cur.visited)
  {
    var adj := g[cur.queue[cur.head]];
    assert adj[..i] == adj;
  }

  /** Comparing the newly visited w keeps `Compared`: t is its total when the other side has
      visited it, and l2 and a2 are what the comparison leaves. */
  lemma CompareAdd(added: seq<nat>, q: seq<nat>, h: nat, m: seq<bool>, d: seq<nat>, other: Side,
                   l0: Length, a0: Ancestor, l1: Length, a1: Ancestor, l2: Length, a2: Ancestor,
                   w: nat, e: nat)
    requires Compared(added, Side(q, h, m, d), other, l0, a0, l1, a1)
    requires l0.Unset? ==> !Meets(added, other.visited)
    requires w !in added && w < |m| && w < |d|
    requires w < |other.visited| && w < |other.dist| && !(l1.Unset? && other.visited[w])
    requires var t := e + other.dist[w];
             if other.visited[w] && Beats(t, l1) then l2 == Finite(t) && a2 == Vertex(w)
             else l2 == l1 && a2 == a1
    ensures Compared(added + [w], Side(q + [w], h, m[w := true], d[w := e]), other, l0, a0, l2, a2)
    ensures l0.Unset? ==> !Meets(added + [w], other.visited)
  {
    var next, next' := Side(q, h, m, d), Side(q + [w], h, m[w := true], d[w := e]);
    forall x | x in added + [w] && Seen(x, next') && Seen(x, other)
      ensures Within(l2, next'.dist[x] + other.dist[x])
    {
      if x != w {
        assert x in added && Seen(x, next);
      }
    }
    if l0.Unset? {
      assert l1.Unset? && !other.visited[w];
      forall x | x in added + [w] && x < |other.visited|
        ensures !other.visited[x]
      {
        if x != w {
          assert x in added;
        }
      }
    }
    if l2 == l1 && a2 == a1 && (l1 != l0 || a1 != a0) {
      assert a1.vertex in added && Seen(a1.vertex, next);
    }
  }

  /** The call made one step. */
  lemma StepMade(g: seq<seq<nat>>, cur: Side, other: Side, q: seq<nat>, m: seq<bool>, d: seq<nat>,
                 added: seq<nat>, l0: Length, a0: Ancestor, l1: Length, a1: Ancestor)
    requires Closed(g) && Shaped(|g|, cur) && cur.head < |cur.queue|
    requires Visiting(g, cur, |g[cur.queue[cur.head]]|, q, m, d, added)
    requires Compared(added, Side(q, cur.head + 1, m, d), other, l0, a0, l1, a1)
    requires l0.Unset? ==> !Meets(added, other.visited)
    ensures Stepped(g, cur, other, Side(q, cur.head + 1, m, d), l0, a0, l1, a1)
    ensures Improved(l0, a0, l1, a1)
    ensures !(l0.Unset? && Meets(Fresh(g[cur.queue[cur.head]], cur.visited), other.visited))
  {
    VisitEnd(g, cur, |g[cur.queue[cur.head]]|, q, m, d, added);
  }

  /** An unvisited successor w the other side has visited, met while the length is unset: the
      step meets the other side. */
  lemma MeetAt(g: seq<seq<nat>>, cur: Side, other: Side, i: nat, q: seq<nat>, m: seq<bool>,
               d: seq<nat>, added: seq<nat>)
    requires Visiting(g, cur, i, q, m, d, added) && i < |g[cur.queue[cur.head]]|
    requires |other.visited| == |g|
    requires var w := g[cur.queue[cur.head]][i]; !m[w] && other.visited[w]
    ensures Meets(Fresh(g[cur.queue[cur.head]], cur.visited), other.visited)
  {
    var adj := g[cur.queue[cur.head]];
    var w := adj[i];
    VisitAdd(g, cur, i, q, m, d, added);
    FreshMembers(adj, cur.visited);
    assert w in Fresh(adj, cur.visited);
  }

  /** An unvisited successor w is appended, visited and compared: l1 and a1 are the length
      and ancestor before the comparison and l2 and a2 after it. */
  lemma AddStep(g: seq<seq<nat>>, cur: Side, other: Side, i: nat, q: seq<nat>, m: seq<bool>,
                d: seq<nat>, added: seq<nat>, l0: Length, a0: Ancestor, l1: Length, a1: Ancestor,
                l2: Length, a2: Ancestor)
    requires Visiting(g, cur, i, q, m, d, added) && i < |g[cur.queue[cur.head]]|
    requires Shaped(|g|, other)
    requires l0.Unset? ==> !Meets(added, other.visited)
    requires Compared(added, Side(q, cur.head + 1, m, d), other, l0, a0, l1, a1)
    requires var u := cur.queue[cur.head]; var w := g[u][i];
             && !m[w] && !(l1.Unset? && other.visited[w])
             && var t := d[u] + 1 + other.dist[w];
                if other.visited[w] && Beats(t, l1) then l2 == Finite(t) && a2 == Vertex(w)
                else l2 == l1 && a2 == a1
    ensures var u := cur.queue[cur.head]; var w := g[u][i];
            var q', m', d' := q + [w], m[w := true], d[w := d[u] + 1];
            && Visiting(g, cur, i + 1, q', m', d', added + [w])
            && (l0.Unset? ==> !Meets(added + [w], other.visited))
            && Compared(added + [w], Side(q', cur.head + 1, m', d'), other, l0, a0, l2, a2)
  {
    var u := cur.queue[cur.head];
    var w := g[u][i];
    VisitAdd(g, cur, i, q, m, d, added);
    CompareAdd(added, q, cur.head + 1, m, d, other, l0, a0, l1, a1, l2, a2, w, d[u] + 1);
  }

  /** One successor looked at, as the side and as the breadth-first search from s. */
  lemma LayerStep(g: seq<seq<nat>>, s: nat, cur: Side, i: nat, q: seq<nat>, m: seq<bool>,
                  d: seq<nat>, added: seq<nat>, edgeTo: seq<Option<nat>>)
    returns (q': seq<nat>, m': seq<bool>, d': seq<nat>, added': seq<nat>, edgeTo': seq<Option<nat>>)
    requires Visiting(g, cur, i, q, m, d, added) && i < |g[cur.queue[cur.head]]|
    requires Scanning(g, s, cur.queue, cur.head, q, m, edgeTo, d, cur.visited, cur.dist, i)
    ensures Visiting(g, cur, i + 1, q', m', d', added')
    ensures Scanning(g, s, cur.queue, cur.head, q', m', edgeTo', d', cur.visited, cur.dist, i + 1)
  {
    var u := cur.queue[cur.head];
    var w := g[u][i];
    if !m[w] {
      VisitAdd(g, cur, i, q, m, d, added);
      ScanEnqueue(g, s, cur.queue, cur.head, q, m, edgeTo, d, cur.visited, cur.dist, i, u, w);
      q', m', d', added', edgeTo' := q + [w], m[w := true], d[w := d[u] + 1], added + [w], edgeTo[w := Some(u)];
    } else {
      VisitSkip(g, cur, i, q, m, d, added);
      ScanSkip(g, s, cur.queue, cur.head, q, m, edgeTo, d, cur.visited, cur.dist, i);
      q', m', d', added', edgeTo' := q, m, d, added, edgeTo;
    }
  }

  /** After the last successor, the search has taken the step the side took. */
  lemma LayerEnd(g: seq<seq<nat>>, s: nat, cur: Side, other: Side, next: Side,
                 l0: Length, a0: Ancestor, l1: Length, a1: Ancestor, q: seq<nat>, m: seq<bool>,
                 d: seq<nat>, added: seq<nat>, edgeTo: seq<Option<nat>>)
    requires Stepped(g, cur, other, next, l0, a0, l1, a1) && cur.queue != [] && cur.queue[0] == s
    requires Visiting(g, cur, |g[cur.queue[cur.head]]|, q, m, d, added)
    requires Scanning(g, s, cur.queue, cur.head, q, m, edgeTo, d, cur.visited, cur.dist,
                      |g[cur.queue[cur.head]]|)
    ensures Layered(g, s, next.queue, next.head, next.visited, edgeTo, next.dist)
  {
    SameStep(g, cur, other, next, l0, a0, l1, a1, q, m, d, added);
    ScanEnd(g, s, cur.queue, cur.head, q, m, edgeTo, d, cur.visited, cur.dist);
  }

  /** A side that looked at every successor is the side the step made. */
  lemma SameStep(g: seq<seq<nat>>, cur: Side, other: Side, next: Side, l0: Length, a0: Ancestor,
                 l1: Length, a1: Ancestor, q: seq<nat>, m: seq<bool>, d: seq<nat>, added: seq<nat>)
    requires Stepped(g, cur, other, next, l0, a0, l1, a1)
    requires Visiting(g, cur, |g[cur.queue[cur.head]]|, q, m, d, added)
    ensures next == Side(q, cur.head + 1, m, d)
  {
    VisitEnd(g, cur, |g[cur.queue[cur.head]]|, q, m, d, added);
    assert m == next.visited;
    assert d == next.dist;
  }

  /** A step from a search from the single vertex s is a step of that breadth-first search,
      whose tree gains an edge into each vertex appended. */
  lemma StepLayered(g: seq<seq<nat>>, s: nat, cur: Side, other: Side, next: Side,
                    l0: Length, a0: Ancestor, l1: Length, a1: Ancestor, edgeTo: seq<Option<nat>>)
    returns (edgeTo': seq<Option<nat>>)
    requires Stepped(g, cur, other, next, l0, a0, l1, a1)
    requires Layered(g, s, cur.queue, cur.head, cur.visited, edgeTo, cur.dist)
    ensures Layered(g, s, next.queue, next.head, next.visited, edgeTo', next.dist)
  {
    var adj := g[cur.queue[cur.head]];
    var q, m, d := cur.queue, cur.visited, cur.dist;
    var added: seq<nat> := [];
    edgeTo' := edgeTo;
    VisitStart(g, cur);
    ScanStart(g, s, cur.queue, cur.head, m, edgeTo', d);
    for i := 0 to |adj|
      invariant Visiting(g, cur, i, q, m, d, added)
      invariant Scanning(g, s, cur.queue, cur.head, q, m, edgeTo', d, cur.visited, cur.dist, i)
    {
      q, m, d, added, edgeTo' := LayerStep(g, s, cur, i, q, m, d, added, edgeTo');
    }
    LayerEnd(g, s, cur, other, next, l0, a0, l1, a1, q, m, d, added, edgeTo');
  }

  /** What a step of either side keeps: the side stays well formed and its work shrinks, the
      length and ancestor only improve, every common vertex stays compared (`onFirst` says
      which side of `Checked` the stepping side is), and a search from one vertex s stays a
      breadth-first search. */
  lemma Advanced(g: seq<seq<nat>>, cur: Side, other: Side, next: Side, lo: Length, ao: Ancestor,
                 l0: Length, a0: Ancestor, l1: Length, a1: Ancestor, onFirst: bool,
                 checking: bool, layered: bool, s: nat, e: seq<Option<nat>>)
    returns (e': seq<Option<nat>>)
    requires Stepped(g, cur, other, next, l0, a0, l1, a1)
    requires Improved(lo, ao, l0, a0) && Improved(l0, a0, l1, a1)
    requires checking && onFirst ==> Checked(|g|, cur, other, l0, a0)
    requires checking && !onFirst ==> Checked(|g|, other, cur, l0, a0)
    requires layered ==> Layered(g, s, cur.queue, cur.head, cur.visited, e, cur.dist)
    ensures Shaped(|g|, next) && Measure(next) < Measure(cur)
    ensures Improved(lo, ao, l1, a1)
    ensures checking && onFirst ==> Checked(|g|, next, other, l1, a1)
    ensures checking && !onFirst ==> Checked(|g|, other, next, l1, a1)
    ensures layered ==> Layered(g, s, next.queue, next.head, next.visited, e', next.dist)
  {
    ImprovedTrans(lo, ao, l0, a0, l1, a1);
    StepMeasure(g, cur, other, next, l0, a0, l1, a1);
    if checking {
      if !onFirst {
        CheckedSwap(|g|, other, cur, l0, a0);
      }
      StepChecked(g, cur, other, next, l0, a0, l1, a1);
      if !onFirst {
        CheckedSwap(|g|, next, other, l1, a1);
      }
    }
    e' := e;
    if layered {
      e' := StepLayered(g, s, cur, other, next, l0, a0, l1, a1, e);
    }
  }

  /** The facts `_bidirectional_bfs` keeps besides the lengths: every common vertex is
      compared when `checking`, and each side that searches from one vertex (v when `lv`, w
      when `lw`) is a breadth-first search from it. */
  ghost predicate Searches(g: seq<seq<nat>>, sv: Side, sw: Side, l: Length, a: Ancestor,
                           checking: bool, lv: bool, v: nat, ev: seq<Option<nat>>,
                           lw: bool, w: nat, ew: seq<Option<nat>>)
  {
    && (checking ==> Checked(|g|, sv, sw, l, a))
    && (lv ==> Layered(g, v, sv.queue, sv.head, sv.visited, ev, sv.dist))
    && (lw ==> Layered(g, w, sw.queue, sw.head, sw.visited, ew, sw.dist))
  }

  /** The side is a finished breadth-first search from s: it visited exactly the vertices s
      reaches, each at the fewest edges from s. */
  ghost predicate Exact(g: seq<seq<nat>>, s: nat, side: Side)
  {
    && |side.visited| == |g| && |side.dist| == |g|
    && (forall x :: 0 <= x < |g| ==> (side.visited[x] <==> Reaches(g, s, x)))
    && (forall x :: 0 <= x < |g| && side.visited[x] ==> Shortest(g, s, x, side.dist[x]))
  }

  /** A search from one vertex whose queue is used up is finished. */
  lemma Completed(g: seq<seq<nat>>, s: nat, side: Side, edgeTo: seq<Option<nat>>)
    requires Layered(g, s, side.queue, side.head, side.visited, edgeTo, side.dist)
    requires side.head == |side.queue|
    ensures Exact(g, s, side)
  {
    forall u | 0 <= u < |g| && side.visited[u]
      ensures Examined(g, side.visited, side.dist, u)
    {
      var k :| 0 <= k < |side.queue| && side.queue[k] == u;
    }
    Meaning(g, s, side.visited, edgeTo, side.dist);
  }

  /** A search from one vertex starts with it alone queued and visited at distance 0. */
  lemma Seeded(g: seq<seq<nat>>, s: nat, side: Side)
    requires s < |g| && side.queue == [s] && side.head == 0
    requires |side.visited| == |g| && |side.dist| == |g| && side.dist[s] == 0
    requires forall x :: 0 <= x < |g| ==> (side.visited[x] <==> x == s)
    ensures Layered(g, s, side.queue, side.head, side.visited, seq(|g|, _ => None), side.dist)
  {
    assert TrueSet(side.visited) == {s};
  }

  /** x is a common ancestor of v and w joined to them by walks of d edges in all. */
  ghost predicate Ancestral(g: seq<seq<nat>>, v: nat, w: nat, x: nat, d: nat)
  {
    exists p, q :: && IsWalk(g, p) && p[0] == v && p[|p| - 1] == x
                   && IsWalk(g, q) && q[0] == w && q[|q| - 1] == x
                   && |p| + |q| == d + 2
  }

  /** No ancestral path of v and w has fewer than d edges. */
  ghost predicate Least(g: seq<seq<nat>>, v: nat, w: nat, d: nat)
  {
    forall p, q :: IsWalk(g, p) && IsWalk(g, q) && p[0] == v && q[0] == w && p[|p| - 1] == q[|q| - 1]
      ==> d + 2 <= |p| + |q|
  }

  /** The answer promised for single vertices v and w: no common ancestor, with both fields
      None, or a common ancestor on a shortest ancestral path, whose length is `length`. */
  ghost predicate Answered(g: seq<seq<nat>>, v: nat, w: nat, length: Length, sca: Ancestor)
  {
    match sca
    case NoAncestor =>
      length == Unset && forall x :: 0 <= x < |g| ==> !(Reaches(g, v, x) && Reaches(g, w, x))
    case Vertex(x) =>
      length.Finite? && Ancestral(g, v, w, x, length.edges) && Least(g, v, w, length.edges)
    case Group(_) => false
  }

  /** Once both searches are finished, a compared state is the shortest ancestral path. */
  lemma Optimum(g: seq<seq<nat>>, v: nat, w: nat, sv: Side, sw: Side, l: Length, a: Ancestor)
    requires Checked(|g|, sv, sw, l, a) && Exact(g, v, sv) && Exact(g, w, sw)
    ensures a.NoAncestor? ==> l.Infinite? && forall x :: 0 <= x < |g| ==> !(Reaches(g, v, x) && Reaches(g, w, x))
    ensures a.Vertex? ==> l.Finite? && Ancestral(g, v, w, a.vertex, l.edges) && Least(g, v, w, l.edges)
  {
    if a.Vertex? {
      var x := a.vertex;
      assert Shortest(g, v, x, sv.dist[x]) && Shortest(g, w, x, sw.dist[x]);
      var p :| IsWalk(g, p) && p[0] == v && p[|p| - 1] == x && |p| == sv.dist[x] + 1;
      var q :| IsWalk(g, q) && q[0] == w && q[|q| - 1] == x && |q| == sw.dist[x] + 1;
    }
    forall p, q | IsWalk(g, p) && IsWalk(g, q) && p[0] == v && q[0] == w && p[|p| - 1] == q[|q| - 1]
      ensures Within(l, sv.dist[p[|p| - 1]] + sw.dist[p[|p| - 1]])
      ensures sv.dist[p[|p| - 1]] + sw.dist[p[|p| - 1]] + 2 <= |p| + |q|
    {
      var y := p[|p| - 1];
      assert Reaches(g, v, y) && Reaches(g, w, y);
      assert Shortest(g, v, y, sv.dist[y]) && Shortest(g, w, y, sw.dist[y]);
    }
  }

  /** Both searches from single vertices v and w are finished and the answer is promised. */
  ghost predicate Resolved(g: seq<seq<nat>>, v: nat, w: nat, sv: Side, sw: Side, l: Length, a: Ancestor)
  {
    Exact(g, v, sv) && Exact(g, w, sw) && Answered(g, v, w, l, a)
  }

  /** Setting the length to None when no ancestor was found answers for single vertices. */
  lemma Settle(g: seq<seq<nat>>, v: nat, w: nat, sv: Side, sw: Side, l: Length, a: Ancestor,
               l': Length)
    requires Checked(|g|, sv, sw, l, a) && Exact(g, v, sv) && Exact(g, w, sw)
    requires l' == if a == NoAncestor then Unset else l
    ensures Resolved(g, v, w, sv, sw, l', a)
  {
    Optimum(g, v, w, sv, sw, l, a);
  }

  /** A search of two disjoint groups, each queued and visited at distance 0, starts with
      every common vertex compared, as there is none, and with a search from each group of
      one vertex. */
  lemma Begun(g: seq<seq<nat>>, vs: seq<nat>, ws: seq<nat>, sv: Side, sw: Side)
    requires Admissible(|g|, vs) && Admissible(|g|, ws)
    requires forall k :: 0 <= k < |ws| ==> ws[k] !in vs
    requires sv.queue == vs && sv.head == 0 && |sv.visited| == |g| && |sv.dist| == |g|
    requires forall x :: 0 <= x < |g| ==> (sv.visited[x] <==> x in vs) && sv.dist[x] == 0
    requires sw.queue == ws && sw.head == 0 && |sw.visited| == |g| && |sw.dist| == |g|
    requires forall x :: 0 <= x < |g| ==> (sw.visited[x] <==> x in ws) && sw.dist[x] == 0
    ensures Searches(g, sv, sw, Infinite, NoAncestor, true, |vs| == 1, vs[0], seq(|g|, _ => None),
                     |ws| == 1, ws[0], seq(|g|, _ => None))
  {
    forall x | 0 <= x < |g|
      ensures !(Seen(x, sv) && Seen(x, sw))
    {
      if x in ws {
        var k :| 0 <= k < |ws| && ws[k] == x;
      }
    }
    if |vs| == 1 {
      assert vs == [vs[0]] && vs[0] in vs;
      Seeded(g, vs[0], sv);
    }
    if |ws| == 1 {
      assert ws == [ws[0]] && ws[0] in ws;
      Seeded(g, ws[0], sw);
    }
  }

  /** The first round of `_sap` starts from the first group and the first vertex w of the
      second, both queued at distance 0. */
  lemma FirstRound(g: seq<seq<nat>>, vs: seq<nat>, w: nat, sv: Side, sw: Side)
    requires Admissible(|g|, vs) && w < |g| && w !in vs
    requires sv.queue == vs && sv.head == 0 && |sv.visited| == |g| && |sv.dist| == |g|
    requires forall x :: 0 <= x < |g| ==> (sv.visited[x] <==> x in vs) && sv.dist[x] == 0
    requires sw == Side([w], 0, seq(|g|, _ => false)[w := true], seq(|g|, _ => 0)[w := 0])
    ensures Searches(g, sv, sw, Infinite, NoAncestor, true, |vs| == 1, vs[0], seq(|g|, _ => None),
                     true, w, seq(|g|, _ => None))
  {
    Begun(g, vs, [w], sv, sw);
  }

  /** A vertex without successors reaches only itself. */
  lemma Sink(g: seq<seq<nat>>, s: nat, x: nat)
    requires s < |g| && g[s] == [] && Reaches(g, s, x)
    ensures x == s
  {
    var p :| IsWalk(g, p) && p[0] == s && p[|p| - 1] == x;
    FirstEdge(g, p);
  }

  /** A walk of more than one vertex starts with an edge. */
  lemma FirstEdge(g: seq<seq<nat>>, p: seq<nat>)
    requires IsWalk(g, p)
    ensures |p| == 1 || p[1] in Succ(g, p[0])
  {
    if |p| > 1 {
      assert p[0 + 1] in Succ(g, p[0]);
    }
  }

  /** An ancestral path joins both vertices to its ancestor. */
  lemma AncestralReaches(g: seq<seq<nat>>, v: nat, w: nat, x: nat, d: nat)
    requires Ancestral(g, v, w, x, d)
    ensures x < |g| && Reaches(g, v, x) && Reaches(g, w, x)
  {
    var p, q :| && IsWalk(g, p) && p[0] == v && p[|p| - 1] == x
                && IsWalk(g, q) && q[0] == w && q[|q| - 1] == x && |p| + |q| == d + 2;
  }

  /** A vertex is its own shortest common ancestor, at length 0. */
  lemma SameVertex(g: seq<seq<nat>>, v: nat)
    requires v < |g|
    ensures Answered(g, v, v, Finite(0), Vertex(v))
  {
    assert IsWalk(g, [v]);
  }

  /** The inputs on which the second round of `_sap` raises: the first group is one vertex
      v, neither of the first two vertices w0 and w1 of the second group is v, v and w0 have
      no common ancestor, and w1 has a successor other than itself that v reaches and w0
      does not. */
  ghost predicate Diverges(g: seq<seq<nat>>, vs: seq<nat>, ws: seq<nat>)
  {
    && |vs| == 1 && |ws| >= 2 && ws[0] !in vs && ws[1] !in vs && ws[1] < |g|
    && (forall x :: 0 <= x < |g| ==> !(Reaches(g, vs[0], x) && Reaches(g, ws[0], x)))
    && exists y :: y in g[ws[1]] && y != ws[1] && Reaches(g, vs[0], y) && !Reaches(g, ws[0], y)
  }

  /** No ancestor was found, and queuing w on the second side, whose search is used up,
      makes its first step meet a vertex the first side visited. */
  ghost predicate Unmatched(g: seq<seq<nat>>, w: nat, sv: Side, sw: Side, l: Length, a: Ancestor)
  {
    && a == NoAncestor && l == Unset && Closed(g) && w < |g| && |sw.visited| == |g|
    && Meets(Fresh(g[w], sw.visited[w := true]), sv.visited)
  }

  /** After a first round that found nothing, the search from w1 in the second round meets a
      vertex the first side has visited while the length is unset. */
  lemma SecondRound(g: seq<seq<nat>>, vs: seq<nat>, ws: seq<nat>, sv: Side, sw: Side,
                    l: Length, a: Ancestor)
    requires Closed(g) && Diverges(g, vs, ws)
    requires Exact(g, vs[0], sv) && Exact(g, ws[0], sw) && Answered(g, vs[0], ws[0], l, a)
    ensures Unmatched(g, ws[1], sv, sw, l, a)
  {
    NoneFound(g, vs[0], ws[0], l, a);
    var w1 := ws[1];
    var y :| y in g[w1] && y != w1 && Reaches(g, vs[0], y) && !Reaches(g, ws[0], y);
    var m := sw.visited[w1 := true];
    assert y < |g|;
    FreshMembers(g[w1], m);
    assert y in Fresh(g[w1], m) && sv.visited[y];
    assert Meets(Fresh(g[w1], m), sv.visited);
  }

  /** For vertices without a common ancestor the promised answer is None for both fields. */
  lemma NoneFound(g: seq<seq<nat>>, v: nat, w: nat, l: Length, a: Ancestor)
    requires forall x :: 0 <= x < |g| ==> !(Reaches(g, v, x) && Reaches(g, w, x))
    requires Answered(g, v, w, l, a)
    ensures a == NoAncestor && l == Unset
  {
    if a.Vertex? {
      AncestralReaches(g, v, w, a.vertex, l.edges);
    }
  }

  /** The first loop of `_sap`: every vertex of the group is queued and visited at distance 0
      and gathered into `set_check`. */
  method QueueGroup(n: nat, vs: seq<nat>) returns (side: Side, check: set<nat>)
    requires forall x :: x in vs ==> x < n
    ensures Shaped(n, side) && side.queue == vs && side.head == 0
    ensures forall x :: 0 <= x < n ==> (side.visited[x] <==> x in vs) && side.dist[x] == 0
    ensures forall x :: x in check <==> x in vs
  {
    side := Side([], 0, seq(n, _ => false), seq(n, _ => 0));
    check := {};
    for i := 0 to |vs|
      invariant Shaped(n, side) && side.queue == vs[..i] && side.head == 0
      invariant forall x :: 0 <= x < n ==> (side.visited[x] <==> x in vs[..i]) && side.dist[x] == 0
      invariant forall x :: x in check <==> x in vs[..i]
    {
      var vertex := vs[i];
      assert vertex in vs;
      assert vs[..i + 1] == vs[..i] + [vertex];
      check := check + {vertex};
      side := Side(side.queue + [vertex], side.head, side.visited[vertex := true], side.dist[vertex := 0]);
    }
    assert vs[..|vs|] == vs;
  }

  class SAP {
    const graph: seq<seq<nat>>
    var length: Length
    var sca: Ancestor

    /** A query object over a digraph, with nothing computed yet. */
    constructor (graph: seq<seq<nat>>)
      requires Closed(graph)
      ensures this.graph == graph && length == Unset && sca == NoAncestor
    {
      this.graph := graph;
      length := Unset;
      sca := NoAncestor;
    }

    /** `_bfs`: pops the vertex at the head of side cur's queue; each successor the side has
        not visited is appended, visited and given that vertex's distance plus one, and, when
        the other side has visited it too, its total distance replaces the length and it
        becomes the ancestor if the total is smaller. Comparing with an unset length raises. */
    method Bfs(cur: Side, other: Side) returns (r: Outcome<SapError>, next: Side)
      requires Closed(graph) && Shaped(|graph|, cur) && Shaped(|graph|, other) && cur.head < |cur.queue|
      modifies this
      ensures r.Fail? ==> r.error == Unordered && length == old(length) && sca == old(sca)
      ensures r.Fail? <==> old(length).Unset? && Meets(Fresh(graph[cur.queue[cur.head]], cur.visited), other.visited)
      ensures r.Pass? ==> Stepped(graph, cur, other, next, old(length), old(sca), length, sca)
      ensures r.Pass? ==> Improved(old(length), old(sca), length, sca)
    {
      var u := cur.queue[cur.head];
      var adj := graph[u];
      var q, m, d := cur.queue, cur.visited, cur.dist;
      ghost var added: seq<nat> := [];
      VisitStart(graph, cur);
      for i := 0 to |adj|
        invariant Visiting(graph, cur, i, q, m, d, added)
        invariant old(length).Unset? ==> !Meets(added, other.visited)
        invariant Compared(added, Side(q, cur.head + 1, m, d), other, old(length), old(sca), length, sca)
      {
        r, q, m, d, added := Visit(cur, other, i, q, m, d, added, old(length), old(sca));
        if r.Fail? {
          return r, cur;
        }
      }
      StepMade(graph, cur, other, q, m, d, added, old(length), old(sca), length, sca);
      next := Side(q, cur.head + 1, m, d);
      r := Pass;
    }

    /** One pass of the loop of `_bfs` over the successors of the vertex u it popped, at
        its i-th successor w: an unvisited w is appended, visited at u's distance plus one
        and, when the other side has visited it, compared. l0 and a0 are the length and
        ancestor at the start of the step. */
    method Visit(cur: Side, other: Side, i: nat, q: seq<nat>, m: seq<bool>, d: seq<nat>,
                 ghost added: seq<nat>, ghost l0: Length, ghost a0: Ancestor)
      returns (r: Outcome<SapError>, q': seq<nat>, m': seq<bool>, d': seq<nat>, ghost added': seq<nat>)
      requires Closed(graph) && Shaped(|graph|, other)
      requires Visiting(graph, cur, i, q, m, d, added) && i < |graph[cur.queue[cur.head]]|
      requires l0.Unset? ==> !Meets(added, other.visited)
      requires Compared(added, Side(q, cur.head + 1, m, d), other, l0, a0, length, sca)
      modifies this
      ensures r.Fail? ==> && r == Fail(Unordered) && l0.Unset? && length == l0 && sca == a0
                          && Meets(Fresh(graph[cur.queue[cur.head]], cur.visited), other.visited)
      ensures r.Pass? ==> && Visiting(graph, cur, i + 1, q', m', d', added')
                          && (l0.Unset? ==> !Meets(added', other.visited))
                          && Compared(added', Side(q', cur.head + 1, m', d'), other, l0, a0, length, sca)
    {
      var u := cur.queue[cur.head];
      var w := graph[u][i];
      q', m', d', added' := q, m, d, added;
      r := Pass;
      if !m[w] {
        if other.visited[w] && length.Unset? {
          MeetAt(graph, cur, other, i, q, m, d, added);
          return Fail(Unordered), q, m, d, added;
        }
        ghost var l1, a1 := length, sca;
        var e := d[u] + 1;
        if other.visited[w] {
          var total := e + other.dist[w];
          if Beats(total, length) {
            length := Finite(total);
            sca := Vertex(w);
          }
        }
        AddStep(graph, cur, other, i, q, m, d, added, l0, a0, l1, a1, length, sca);
        q', m', d' := q + [w], m[w := true], d[w := e];
        added' := added + [w];
      } else {
        VisitSkip(graph, cur, i, q, m, d, added);
      }
    }

    /** `_bidirectional_bfs`: while either queue still holds a vertex, takes a step on the
        first side if its queue does and then one on the second side if its queue does. The
        length never rises and the ancestor changes only with it. A search from a single
        vertex on either side ends finished, a run whose every common vertex was compared
        keeps it so, and with the length unset the run raises at once when the first side's
        queue is used up and the first step of the second side meets the first side. */
    method BidirectionalBfs(sv: Side, sw: Side, ghost checking: bool,
                            ghost lv: bool, ghost v: nat, ghost ev: seq<Option<nat>>,
                            ghost lw: bool, ghost w: nat, ghost ew: seq<Option<nat>>)
      returns (r: Outcome<SapError>, sv': Side, sw': Side)
      requires Closed(graph) && Shaped(|graph|, sv) && Shaped(|graph|, sw)
      requires Searches(graph, sv, sw, length, sca, checking, lv, v, ev, lw, w, ew)
      modifies this
      ensures r.Fail? ==> r.error == Unordered && old(length) == Unset && length == Unset && sca == old(sca)
      ensures !old(length).Unset? ==> r.Pass?
      ensures Improved(old(length), old(sca), length, sca)
      ensures r.Pass? ==> Shaped(|graph|, sv') && Shaped(|graph|, sw')
      ensures r.Pass? ==> sv'.head == |sv'.queue| && sw'.head == |sw'.queue|
      ensures r.Pass? && checking ==> Checked(|graph|, sv', sw', length, sca)
      ensures r.Pass? && lv ==> Exact(graph, v, sv')
      ensures r.Pass? && lw ==> Exact(graph, w, sw')
      ensures (&& old(length).Unset? && sv.head == |sv.queue| && sw.head < |sw.queue|
               && Meets(Fresh(graph[sw.queue[sw.head]], sw.visited), sv.visited)) ==> r.Fail?
    {
      sv', sw' := sv, sw;
      ghost var ev', ew' := ev, ew;
      ghost var diverge := && old(length).Unset? && sv.head == |sv.queue| && sw.head < |sw.queue|
                           && Meets(Fresh(graph[sw.queue[sw.head]], sw.visited), sv.visited);
      r := Pass;
      while sv'.head < |sv'.queue| || sw'.head < |sw'.queue|
        invariant r == Pass && Shaped(|graph|, sv') && Shaped(|graph|, sw')
        invariant diverge ==> sv' == sv && sw' == sw && length == old(length) && sca == old(sca)
        invariant Improved(old(length), old(sca), length, sca)
        invariant Searches(graph, sv', sw', length, sca, checking, lv, v, ev', lw, w, ew')
        decreases Measure(sv') + Measure(sw')
      {
        ghost var l0, a0 := length, sca;
        r, sv', sw', ev', ew' := Turn(sv', sw', checking, lv, v, ev', lw, w, ew');
        if r.Fail? {
          return;
        }
        ImprovedTrans(old(length), old(sca), l0, a0, length, sca);
      }
      if lv {
        Completed(graph, v, sv', ev');
      }
      if lw {
        Completed(graph, w, sw', ew');
      }
    }

    /** One pass of the loop of `_bidirectional_bfs`: a step on the first side if its queue
        holds a vertex, then one on the second side if its queue does. It raises only from
        an unset length, and does so at once when the first side's queue is used up and the
        first step of the second side meets the first side. */
    method Turn(sv: Side, sw: Side, ghost checking: bool,
                ghost lv: bool, ghost v: nat, ghost ev: seq<Option<nat>>,
                ghost lw: bool, ghost w: nat, ghost ew: seq<Option<nat>>)
      returns (r: Outcome<SapError>, sv': Side, sw': Side, ghost ev': seq<Option<nat>>, ghost ew': seq<Option<nat>>)
      requires Closed(graph) && Shaped(|graph|, sv) && Shaped(|graph|, sw)
      requires sv.head < |sv.queue| || sw.head < |sw.queue|
      requires Searches(graph, sv, sw, length, sca, checking, lv, v, ev, lw, w, ew)
      modifies this
      ensures r.Fail? ==> r.error == Unordered && old(length) == Unset && length == Unset && sca == old(sca)
      ensures Improved(old(length), old(sca), length, sca)
      ensures r.Pass? ==> && Shaped(|graph|, sv') && Shaped(|graph|, sw')
                          && Measure(sv') + Measure(sw') < Measure(sv) + Measure(sw)
                          && Searches(graph, sv', sw', length, sca, checking, lv, v, ev', lw, w, ew')
      ensures (&& old(length).Unset? && sv.head == |sv.queue| && sw.head < |sw.queue|
               && Meets(Fresh(graph[sw.queue[sw.head]], sw.visited), sv.visited)) ==> r.Fail?
    {
      sv', sw', ev', ew' := sv, sw, ev, ew;
      r := Pass;
      if sv.head < |sv.queue| {
        r, sv' := Bfs(sv, sw);
        if r.Fail? {
          return;
        }
        ev' := Advanced(graph, sv, sw, sv', old(length), old(sca), old(length), old(sca), length, sca,
                        true, checking, lv, v, ev);
      }
      if sw.head < |sw.queue| {
        ghost var l0, a0 := length, sca;
        r, sw' := Bfs(sw, sv');
        if r.Fail? {
          return;
        }
        ew' := Advanced(graph, sw, sv', sw', old(length), old(sca), l0, a0, length, sca,
                        false, checking, lw, w, ew);
      }
    }

    /** `_sap`: sets the ancestor to None and the length to infinity, queues the first group,
        then for each vertex of the second group in turn stops at length 0 with the whole
        second group as the ancestor if the vertex is in the first group, and otherwise
        queues it, runs the search and sets the length to None if no ancestor has been
        found. For single vertices v and w that differ the answer is the shortest ancestral
        path. A second round after a first that found nothing compares with None and
        raises, which the inputs of `Diverges` bring about. */
    method Sap(vs: seq<nat>, ws: seq<nat>) returns (r: Outcome<SapError>)
      requires Closed(graph) && Admissible(|graph|, vs) && Admissible(|graph|, ws)
      modifies this
      ensures ws[0] in vs ==> r == Pass && sca == Group(ws) && length == Finite(0)
      ensures r.Pass? ==> (sca.Group? <==> exists k :: 0 <= k < |ws| && ws[k] in vs)
      ensures sca.Group? ==> sca == Group(ws) && length == Finite(0)
      ensures r.Pass? && !sca.Group? ==> (sca.NoAncestor? <==> length.Unset?)
      ensures r.Fail? ==> r == Fail(Unordered) && |ws| >= 2 && sca == NoAncestor && length == Unset
      ensures |vs| == 1 && |ws| == 1 && vs[0] != ws[0] ==> r == Pass && Answered(graph, vs[0], ws[0], length, sca)
      ensures Diverges(graph, vs, ws) ==> r == Fail(Unordered)
    {
      var n := |graph|;
      sca := NoAncestor;
      length := Infinite;
      var sv, check := QueueGroup(n, vs);
      ghost var sv0 := sv;
      var sw := Side([], 0, seq(n, _ => false), seq(n, _ => 0));
      ghost var single := |vs| == 1;
      ghost var diverges := Diverges(graph, vs, ws);
      r := Pass;
      for j := 0 to |ws|
        invariant Shaped(n, sv) && Shaped(n, sw) && r == Pass
        invariant forall k :: 0 <= k < j ==> ws[k] !in vs
        invariant j == 0 ==> length == Infinite && sca == NoAncestor && sv == sv0
        invariant j == 0 ==> sw == Side([], 0, seq(n, _ => false), seq(n, _ => 0))
        invariant j > 0 ==> !sca.Group? && (sca.NoAncestor? <==> length.Unset?)
        invariant j > 0 ==> sv.head == |sv.queue| && sw.head == |sw.queue|
        invariant j == 1 && single ==> Answered(graph, vs[0], ws[0], length, sca)
        invariant j == 1 && diverges ==> Unmatched(graph, ws[1], sv, sw, length, sca)
        invariant diverges ==> j <= 1
      {
        var w := ws[j];
        assert w in ws;
        if w in check {
          sca := Group(ws);
          length := Finite(0);
          return Pass;
        }
        r, sv, sw := Round(w, sv, sw, vs, ws, j);
        if r.Fail? {
          return;
        }
      }
    }

    /** One pass of the loop of `_sap` over the second group, for its vertex w at index j,
        which is not in the first group: queues w at distance 0, runs the search and sets the
        length to None if no ancestor has been found. The first pass starts from the state
        the first loop left and, for single vertices, ends with the promised answer; a later
        pass raises if it compares with None, as the second does on the inputs of
        `Diverges`. */
    method Round(w: nat, sv: Side, sw: Side, ghost vs: seq<nat>, ghost ws: seq<nat>, ghost j: nat)
      returns (r: Outcome<SapError>, sv': Side, sw': Side)
      requires Closed(graph) && Shaped(|graph|, sv) && Shaped(|graph|, sw) && !sca.Group?
      requires Admissible(|graph|, vs) && j < |ws| && w == ws[j] && w < |graph| && w !in vs
      requires j == 0 ==> && length == Infinite && sca == NoAncestor && sv.queue == vs && sv.head == 0
                          && (forall x :: 0 <= x < |graph| ==> (sv.visited[x] <==> x in vs) && sv.dist[x] == 0)
                          && sw == Side([], 0, seq(|graph|, _ => false), seq(|graph|, _ => 0))
      requires j > 0 ==> (sca.NoAncestor? <==> length.Unset?) && sv.head == |sv.queue| && sw.head == |sw.queue|
      requires j == 1 && Diverges(graph, vs, ws) ==> Unmatched(graph, w, sv, sw, length, sca)
      modifies this
      ensures r.Fail? ==> r == Fail(Unordered) && j > 0 && sca == NoAncestor && length == Unset
      ensures j == 1 && Diverges(graph, vs, ws) ==> r.Fail?
      ensures r.Pass? ==> && Shaped(|graph|, sv') && Shaped(|graph|, sw') && !sca.Group?
                          && (sca.NoAncestor? <==> length.Unset?)
                          && sv'.head == |sv'.queue| && sw'.head == |sw'.queue|
      ensures r.Pass? && j == 0 && |vs| == 1 ==> Answered(graph, vs[0], w, length, sca)
      ensures r.Pass? && j == 0 && Diverges(graph, vs, ws) ==> Unmatched(graph, ws[1], sv', sw', length, sca)
    {
      var n := |graph|;
      var sw1 := Side(sw.queue + [w], sw.head, sw.visited[w := true], sw.dist[w := 0]);
      ghost var none: seq<Option<nat>> := seq(n, _ => None);
      ghost var first, single := j == 0, |vs| == 1;
      if first {
        FirstRound(graph, vs, w, sv, sw1);
      }
      if j == 1 && Diverges(graph, vs, ws) {
        assert sw1.queue[sw1.head] == w;
      }
      r, sv', sw' := BidirectionalBfs(sv, sw1, first, first && single, vs[0], none, first && single, w, none);
      if r.Fail? {
        return;
      }
      ghost var l0 := length;
      if sca == NoAncestor {
        length := Unset;
      }
      if first && single {
        Settle(graph, vs[0], w, sv', sw', l0, sca, length);
        if Diverges(graph, vs, ws) {
          SecondRound(graph, vs, ws, sv', sw', length, sca);
        }
      }
    }

    /** `_sap` as its authors evidently meant it: a vertex of the second group found in the
        first is the ancestor, at length 0; otherwise the whole second group is queued and
        one search runs, after which the length is set to None if no ancestor has been
        found. It never compares with None, stores a vertex or none as the ancestor, and
        answers with the shortest ancestral path for single vertices, equal or not. */
    method SapCorrected(vs: seq<nat>, ws: seq<nat>)
      requires Closed(graph) && Admissible(|graph|, vs) && Admissible(|graph|, ws)
      modifies this
      ensures (exists k :: 0 <= k < |ws| && ws[k] in vs) ==>
                length == Finite(0) && sca.Vertex? && sca.vertex in vs && sca.vertex in ws
      ensures !sca.Group? && (sca.NoAncestor? <==> length.Unset?)
      ensures |vs| == 1 && |ws| == 1 ==> Answered(graph, vs[0], ws[0], length, sca)
    {
      var n := |graph|;
      sca := NoAncestor;
      length := Infinite;
      var sv, check := QueueGroup(n, vs);
      var sw := Side([], 0, seq(n, _ => false), seq(n, _ => 0));
      for j := 0 to |ws|
        invariant length == Infinite && sca == NoAncestor
        invariant Shaped(n, sw) && sw.queue == ws[..j] && sw.head == 0
        invariant forall x :: 0 <= x < n ==> (sw.visited[x] <==> x in ws[..j]) && sw.dist[x] == 0
        invariant forall k :: 0 <= k < j ==> ws[k] !in vs
      {
        var w := ws[j];
        assert w in ws;
        if w in check {
          sca := Vertex(w);
          length := Finite(0);
          if |vs| == 1 && |ws| == 1 {
            assert vs == [w];
            SameVertex(graph, w);
          }
          return;
        }
        assert ws[..j + 1] == ws[..j] + [w];
        sw := Side(sw.queue + [w], sw.head, sw.visited[w := true], sw.dist[w := 0]);
      }
      assert ws[..|ws|] == ws;
      Search(sv, sw, vs, ws);
    }

    /** The search of `SapCorrected` once both groups, which share no vertex, are queued at
        distance 0: one run of `_bidirectional_bfs`, then the length set to None if no
        ancestor was found. */
    method Search(sv: Side, sw: Side, ghost vs: seq<nat>, ghost ws: seq<nat>)
      requires Closed(graph) && Admissible(|graph|, vs) && Admissible(|graph|, ws)
      requires forall k :: 0 <= k < |ws| ==> ws[k] !in vs
      requires length == Infinite && sca == NoAncestor
      requires Shaped(|graph|, sv) && sv.queue == vs && sv.head == 0
      requires forall x :: 0 <= x < |graph| ==> (sv.visited[x] <==> x in vs) && sv.dist[x] == 0
      requires Shaped(|graph|, sw) && sw.queue == ws && sw.head == 0
      requires forall x :: 0 <= x < |graph| ==> (sw.visited[x] <==> x in ws) && sw.dist[x] == 0
      modifies this
      ensures !sca.Group? && (sca.NoAncestor? <==> length.Unset?)
      ensures |vs| == 1 && |ws| == 1 ==> Answered(graph, vs[0], ws[0], length, sca)
    {
      ghost var none: seq<Option<nat>> := seq(|graph|, _ => None);
      Begun(graph, vs, ws, sv, sw);
      var r, sv', sw' := BidirectionalBfs(sv, sw, true, |vs| == 1, vs[0], none, |ws| == 1, ws[0], none);
      ghost var l0 := length;
      if sca == NoAncestor {
        length := Unset;
      }
      if |vs| == 1 && |ws| == 1 {
        Settle(graph, vs[0], ws[0], sv', sw', l0, sca, length);
      }
    }

    /** `get_ancestor`: validates both arguments, raising `ValueError` for an empty group or
        a vertex outside the graph, runs the search and returns the ancestor. */
    method GetAncestor(a: Query, b: Query) returns (r: Result<Ancestor, SapError>)
      requires Closed(graph)
      modifies this
      ensures Validate(|graph|, a, b).Err? ==>
                r == Err(InvalidArgument) && length == old(length) && sca == old(sca)
      ensures Validate(|graph|, a, b).Ok? ==> r == Ok(sca) && !sca.Group? && (sca.NoAncestor? <==> length.Unset?)
      ensures (&& Validate(|graph|, a, b).Ok?
               && exists k :: 0 <= k < |Listed(b)| && Listed(b)[k] in Listed(a)) ==>
                length == Finite(0) && sca.Vertex? && sca.vertex in Listed(a) && sca.vertex in Listed(b)
      ensures a.One? && b.One? && a.v < |graph| && b.v < |graph| ==>
                r.Ok? && Answered(graph, a.v, b.v, length, sca)
    {
      var valid := Validate(|graph|, a, b);
      if valid.Err? {
        return Err(valid.error);
      }
      var (vs, ws) := valid.value;
      SapCorrected(vs, ws);
      r := Ok(sca);
    }
  }

  /** On a graph of one vertex, the query of vertex 0 against itself stores the list [0]
      where the vertex 0 is meant. */
  method SharedQuery() returns (written: Ancestor, intended: Ancestor)
    ensures written == Group([0]) && intended == Vertex(0)
  {
    var s := new SAP([[]]);
    var r := s.Sap([0], [0]);
    written := s.sca;
    s.SapCorrected([0], [0]);
    intended := s.sca;
  }

  /** On the graph with the single edge 2 -> 0, the query of vertex 0 against the group
      [1, 2] finds nothing from 1, sets the length to None and then, in the round of 2,
      compares with None and raises; the intended search completes. */
  method UnorderedQuery() returns (written: Outcome<SapError>, intended: Ancestor)
    ensures written == Fail(Unordered) && !intended.Group?
  {
    var g: seq<seq<nat>> := [[], [], [0]];
    assert Closed(g);
    forall x | Reaches(g, 0, x)
      ensures x == 0
    {
      Sink(g, 0, x);
    }
    forall x | Reaches(g, 1, x)
      ensures x == 1
    {
      Sink(g, 1, x);
    }
    assert IsWalk(g, [0]);
    assert 0 in g[2] && Reaches(g, 0, 0) && !Reaches(g, 1, 0);
    assert Diverges(g, [0], [1, 2]);
    var s := new SAP(g);
    written := s.Sap([0], [1, 2]);
    s.SapCorrected([0], [1, 2]);
    intended := s.sca;
  }
}
