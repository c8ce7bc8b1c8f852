/**
  The augmenting paths of Ford-Fulkerson, on values: the breadth-first search leaves a
  tree in which every marked vertex but the source has a parent edge `via[u]` with
  residual capacity toward it, and its parent entered the queue earlier (`rank`). The
  bottleneck walks the tree from the target back to the source taking the minimum
  residual capacity, and the augmentation walks it again pushing that much toward each
  vertex. Pushing keeps every edge within its bounds, keeps every vertex but the two ends
  balanced, carries the amount from the source to the target, and lowers the residual
  capacity leaving the source by the same amount, which is why the algorithm stops.
  When no path is left, the marked vertices form a cut the flow saturates, and the value
  is the largest any flow can have.
*/
module AugmentingPaths {
  import opened Common
  import opened FlowEdges
  import opened FlowValues

  /** The far end of u's parent edge. */
  function Parent(arcs: seq<Arc>, via: seq<nat>, u: nat): nat
    requires u < |via| && via[u] < |arcs| && EndOf(arcs[via[u]], u)
  {
    OtherEnd(arcs[via[u]], u).value
  }

  /** u's parent edge has u as an end, and its other end is marked and was queued before u. */
  ghost predicate Hop(arcs: seq<Arc>, marked: seq<bool>, via: seq<nat>, rank: seq<nat>, u: nat)
    requires u < |marked| && |via| == |marked| && |rank| == |marked|
  {
    via[u] < |arcs| && EndOf(arcs[via[u]], u)
    && Parent(arcs, via, u) < |marked| && marked[Parent(arcs, via, u)]
    && rank[Parent(arcs, via, u)] < rank[u]
  }

  /** The search tree rooted at the marked source s. */
  ghost predicate Tree(arcs: seq<Arc>, s: nat, marked: seq<bool>, via: seq<nat>, rank: seq<nat>)
  {
    && |via| == |marked| && |rank| == |marked| && s < |marked| && marked[s]
    && forall u: nat :: u < |marked| && marked[u] && u != s ==> Hop(arcs, marked, via, rank, u)
  }

  /** The residual capacity of the arc toward x is positive. */
  predicate Positive(a: Arc, f: int, x: nat)
  {
    Residual(a, f, x).Ok? && Residual(a, f, x).value > 0
  }

  /** Every tree edge can carry more toward the vertex it reached. */
  ghost predicate Open(arcs: seq<Arc>, f: seq<int>, s: nat, marked: seq<bool>, via: seq<nat>, rank: seq<nat>)
    requires Tree(arcs, s, marked, via, rank) && |f| == |arcs|
  {
    forall u: nat :: u < |marked| && marked[u] && u != s ==> Positive(arcs[via[u]], f[via[u]], u)
  }

  /** No arc with residual capacity leads from a marked vertex to an unmarked one. */
  ghost predicate Closed(arcs: seq<Arc>, f: seq<int>, marked: seq<bool>)
    requires |f| == |arcs|
  {
    forall i :: 0 <= i < |arcs| && arcs[i].v < |marked| && arcs[i].w < |marked| ==>
      (marked[arcs[i].v] && Positive(arcs[i], f[i], arcs[i].w) ==> marked[arcs[i].w])
      && (marked[arcs[i].w] && Positive(arcs[i], f[i], arcs[i].v) ==> marked[arcs[i].v])
  }

  /** The vertices from v back to the source, the source left out. */
  ghost function Path(arcs: seq<Arc>, s: nat, marked: seq<bool>, via: seq<nat>, rank: seq<nat>, v: nat): seq<nat>
    requires Tree(arcs, s, marked, via, rank) && v < |marked| && marked[v]
    decreases rank[v]
  {
    if v == s then [] else [v] + Path(arcs, s, marked, via, rank, Parent(arcs, via, v))
  }

  /** The parent edge of u can carry d more toward u. */
  ghost predicate Carries(arcs: seq<Arc>, f: seq<int>, via: seq<nat>, u: nat, d: int)
  {
    u < |via| && via[u] < |arcs| && |f| == |arcs| && EndOf(arcs[via[u]], u)
    && Residual(arcs[via[u]], f[via[u]], u).value >= d
  }

  /** Every edge of the path from v can carry d more. */
  ghost predicate Fits(arcs: seq<Arc>, f: seq<int>, s: nat, marked: seq<bool>, via: seq<nat>, rank: seq<nat>, v: nat, d: int)
    requires Tree(arcs, s, marked, via, rank) && v < |marked| && marked[v]
  {
    forall u :: u in Path(arcs, s, marked, via, rank, v) ==> Carries(arcs, f, via, u, d)
  }

  /** `float('inf')` or an amount. */
  datatype Bottle = Infinite | Finite(amount: int)

  /** `min(bottle, r)`. */
  function Meet(b: Bottle, r: int): Bottle
  {
    if b.Infinite? || r < b.amount then Finite(r) else b
  }

  /** The bottleneck loop: starting from b at v, take the minimum with the residual
      capacity of each parent edge up to the source. */
  function BottleFrom(arcs: seq<Arc>, f: seq<int>, s: nat, marked: seq<bool>, via: seq<nat>, rank: seq<nat>, b: Bottle, v: nat): Bottle
    requires Tree(arcs, s, marked, via, rank) && v < |marked| && marked[v] && |f| == |arcs|
    decreases rank[v]
  {
    if v == s then b
    else
      BottleFrom(arcs, f, s, marked, via, rank, Meet(b, Residual(arcs[via[v]], f[via[v]], v).value), Parent(arcs, via, v))
  }

  /** The augmentation loop: push d toward v along its parent edge, then on from the parent. */
  function Aug(arcs: seq<Arc>, f: seq<int>, s: nat, marked: seq<bool>, via: seq<nat>, rank: seq<nat>, v: nat, d: int): (g: seq<int>)
    requires Tree(arcs, s, marked, via, rank) && v < |marked| && marked[v] && |f| == |arcs|
    ensures |g| == |arcs|
    decreases rank[v]
  {
    if v == s then f
    else
      var k := via[v];
      Aug(arcs, f[k := Shift(arcs[k], f[k], v, d).value], s, marked, via, rank, Parent(arcs, via, v), d)
  }

  /** One step of the bottleneck loop: from a vertex other than the source it goes on
      from the parent, which was queued earlier, with the parent edge's residual
      capacity taken into the minimum. */
  lemma BottleStep(arcs: seq<Arc>, f: seq<int>, s: nat, marked: seq<bool>, via: seq<nat>, rank: seq<nat>, b: Bottle, c: nat)
    requires Tree(arcs, s, marked, via, rank) && c < |marked| && marked[c] && c != s && |f| == |arcs|
    ensures Hop(arcs, marked, via, rank, c)
    ensures BottleFrom(arcs, f, s, marked, via, rank, b, c)
         == BottleFrom(arcs, f, s, marked, via, rank, Meet(b, Residual(arcs[via[c]], f[via[c]], c).value), Parent(arcs, via, c))
  {
  }

  /** One step of the augmentation loop: from a vertex other than the source it pushes
      along the parent edge and goes on from the parent. */
  lemma AugStep(arcs: seq<Arc>, f: seq<int>, s: nat, marked: seq<bool>, via: seq<nat>, rank: seq<nat>, c: nat, d: int)
    requires Tree(arcs, s, marked, via, rank) && c < |marked| && marked[c] && c != s && |f| == |arcs|
    ensures Hop(arcs, marked, via, rank, c)
    ensures Aug(arcs, f, s, marked, via, rank, c, d)
         == Aug(arcs, f[via[c] := Shift(arcs[via[c]], f[via[c]], c, d).value], s, marked, via, rank, Parent(arcs, via, c), d)
  {
  }

  /** The vertices of a path are marked, are not the source, were queued no later than
      its start, and have parent edges. */
  lemma {:induction false} PathFacts(arcs: seq<Arc>, s: nat, marked: seq<bool>, via: seq<nat>, rank: seq<nat>, v: nat)
    requires Tree(arcs, s, marked, via, rank) && v < |marked| && marked[v]
    ensures forall u :: u in Path(arcs, s, marked, via, rank, v) ==>
      u < |marked| && marked[u] && u != s && rank[u] <= rank[v] && Hop(arcs, marked, via, rank, u)
    decreases rank[v]
  {
    if v != s {
      PathFacts(arcs, s, marked, via, rank, Parent(arcs, via, v));
    }
  }

  /** A parent edge is not the parent edge of any vertex further along the path: the
      vertices of a path use distinct edges. */
  lemma EdgeOnce(arcs: seq<Arc>, s: nat, marked: seq<bool>, via: seq<nat>, rank: seq<nat>, v: nat)
    requires Tree(arcs, s, marked, via, rank) && v < |marked| && marked[v] && v != s
    ensures forall u :: u in Path(arcs, s, marked, via, rank, Parent(arcs, via, v)) ==> u < |via| && via[u] != via[v]
  {
    PathFacts(arcs, s, marked, via, rank, Parent(arcs, via, v));
  }

  /** Pushing along one edge leaves alone the path beyond it. */
  lemma FitsFrame(arcs: seq<Arc>, f: seq<int>, s: nat, marked: seq<bool>, via: seq<nat>, rank: seq<nat>, v: nat, d: int, y: int)
    requires Tree(arcs, s, marked, via, rank) && v < |marked| && marked[v] && v != s && |f| == |arcs|
    requires Fits(arcs, f, s, marked, via, rank, Parent(arcs, via, v), d)
    ensures Fits(arcs, f[via[v] := y], s, marked, via, rank, Parent(arcs, via, v), d)
  {
    EdgeOnce(arcs, s, marked, via, rank, v);
  }

  /** At a vertex other than the source, the bottleneck loop ends with an amount every
      edge of the path can carry, and no more than it started from. */
  lemma {:induction false} BottleBound(arcs: seq<Arc>, f: seq<int>, s: nat, marked: seq<bool>, via: seq<nat>, rank: seq<nat>, b: Bottle, v: nat)
    requires Tree(arcs, s, marked, via, rank) && v < |marked| && marked[v] && |f| == |arcs| && v != s
    ensures var r := BottleFrom(arcs, f, s, marked, via, rank, b, v);
      r.Finite? && Fits(arcs, f, s, marked, via, rank, v, r.amount) && (b.Finite? ==> r.amount <= b.amount)
    decreases rank[v]
  {
    var p := Parent(arcs, via, v);
    var b' := Meet(b, Residual(arcs[via[v]], f[via[v]], v).value);
    assert Path(arcs, s, marked, via, rank, v) == [v] + Path(arcs, s, marked, via, rank, p);
    if p != s {
      BottleBound(arcs, f, s, marked, via, rank, b', p);
    }
  }

  /** A path can carry d when its first edge and the rest of it can. */
  lemma FitsStep(arcs: seq<Arc>, f: seq<int>, s: nat, marked: seq<bool>, via: seq<nat>, rank: seq<nat>, v: nat, d: int)
    requires Tree(arcs, s, marked, via, rank) && v < |marked| && marked[v] && v != s
    ensures Fits(arcs, f, s, marked, via, rank, v, d) <==>
      Carries(arcs, f, via, v, d) && Fits(arcs, f, s, marked, via, rank, Parent(arcs, via, v), d)
  {
    assert Path(arcs, s, marked, via, rank, v) == [v] + Path(arcs, s, marked, via, rank, Parent(arcs, via, v));
  }

  /** The amount is the largest every edge of the path can carry, unless it is the one
      the loop started from. */
  lemma {:induction false} BottleTight(arcs: seq<Arc>, f: seq<int>, s: nat, marked: seq<bool>, via: seq<nat>, rank: seq<nat>, b: Bottle, v: nat)
    requires Tree(arcs, s, marked, via, rank) && v < |marked| && marked[v] && |f| == |arcs| && v != s
    ensures var r := BottleFrom(arcs, f, s, marked, via, rank, b, v);
      r.Finite? && ((b.Finite? && r.amount == b.amount) || !Fits(arcs, f, s, marked, via, rank, v, r.amount + 1))
    decreases rank[v]
  {
    var p := Parent(arcs, via, v);
    var res := Residual(arcs[via[v]], f[via[v]], v).value;
    var b' := Meet(b, res);
    var r := BottleFrom(arcs, f, s, marked, via, rank, b', p);
    if p != s {
      BottleTight(arcs, f, s, marked, via, rank, b', p);
    }
    FitsStep(arcs, f, s, marked, via, rank, v, r.amount + 1);
  }

  /** With positive residual capacities along the tree, the amount is positive. */
  lemma {:induction false} BottlePositive(arcs: seq<Arc>, f: seq<int>, s: nat, marked: seq<bool>, via: seq<nat>, rank: seq<nat>, b: Bottle, v: nat)
    requires Tree(arcs, s, marked, via, rank) && v < |marked| && marked[v] && |f| == |arcs| && v != s
    requires Open(arcs, f, s, marked, via, rank) && (b.Infinite? || b.amount > 0)
    ensures var r := BottleFrom(arcs, f, s, marked, via, rank, b, v); r.Finite? && r.amount > 0
    decreases rank[v]
  {
    var p := Parent(arcs, via, v);
    var b' := Meet(b, Residual(arcs[via[v]], f[via[v]], v).value);
    if p != s {
      BottlePositive(arcs, f, s, marked, via, rank, b', p);
    }
  }

  /** Pushing d from the source to v raises the net flow into v by d, lowers it at the
      source by d, and leaves every other vertex as it was. */
  lemma {:induction false} AugNet(arcs: seq<Arc>, f: seq<int>, s: nat, marked: seq<bool>, via: seq<nat>, rank: seq<nat>, v: nat, d: int, x: nat)
    requires Tree(arcs, s, marked, via, rank) && v < |marked| && marked[v] && |f| == |arcs|
    ensures Net(arcs, Aug(arcs, f, s, marked, via, rank, v, d), x)
         == Net(arcs, f, x) + (if v != s && x == v then d else 0) - (if v != s && x == s then d else 0)
    decreases rank[v]
  {
    if v != s {
      var k := via[v];
      var p := Parent(arcs, via, v);
      var y := Shift(arcs[k], f[k], v, d).value;
      SumUpdate(NetInto(x), arcs, f, k, y);
      assert Net(arcs, f[k := y], x) == Net(arcs, f, x) + (if x == v then d else 0) - (if x == p then d else 0);
      AugNet(arcs, f[k := y], s, marked, via, rank, p, d, x);
    }
  }

  /** Pushing no more than the path can carry keeps every edge that was within its
      bounds within them. */
  lemma {:induction false} AugBounds(arcs: seq<Arc>, f: seq<int>, s: nat, marked: seq<bool>, via: seq<nat>, rank: seq<nat>, v: nat, d: int)
    requires Tree(arcs, s, marked, via, rank) && v < |marked| && marked[v] && |f| == |arcs|
    requires Fits(arcs, f, s, marked, via, rank, v, d) && d >= 0
    ensures var g := Aug(arcs, f, s, marked, via, rank, v, d);
      forall i :: 0 <= i < |arcs| && InBounds(arcs[i], f[i]) ==> InBounds(arcs[i], g[i])
    decreases rank[v]
  {
    if v != s {
      var k := via[v];
      var p := Parent(arcs, via, v);
      var y := Shift(arcs[k], f[k], v, d).value;
      assert v in Path(arcs, s, marked, via, rank, v);
      if InBounds(arcs[k], f[k]) {
        ShiftBounds(arcs[k], f[k], v, d);
      }
      FitsFrame(arcs, f, s, marked, via, rank, v, d, y);
      AugBounds(arcs, f[k := y], s, marked, via, rank, p, d);
    }
  }

  /** Pushing d to a vertex other than the source lowers the residual capacity leaving the
      source by exactly d. */
  lemma {:induction false} AugSlack(arcs: seq<Arc>, f: seq<int>, s: nat, marked: seq<bool>, via: seq<nat>, rank: seq<nat>, v: nat, d: int)
    requires Tree(arcs, s, marked, via, rank) && v < |marked| && marked[v] && v != s && |f| == |arcs|
    requires Fits(arcs, f, s, marked, via, rank, v, d) && d >= 0
    ensures Sum(Slack(s), arcs, Aug(arcs, f, s, marked, via, rank, v, d)) == Sum(Slack(s), arcs, f) - d
    decreases rank[v]
  {
    var k := via[v];
    var p := Parent(arcs, via, v);
    var y := Shift(arcs[k], f[k], v, d).value;
    assert v in Path(arcs, s, marked, via, rank, v);
    assert p != v;
    ShiftResiduals(arcs[k], f[k], v, d);
    SumUpdate(Slack(s), arcs, f, k, y);
    if p != s {
      assert Term(Slack(s), arcs[k], f[k]) == 0 == Term(Slack(s), arcs[k], y);
      FitsFrame(arcs, f, s, marked, via, rank, v, d, y);
      AugSlack(arcs, f[k := y], s, marked, via, rank, p, d);
    }
  }

  /** What the main loop keeps, for flows f0 at the start and f now, having carried
      `value` from s to t: the net flows moved by `value` at the two ends and nowhere
      else, edges within their bounds stayed within them, and the value is not negative. */
  ghost predicate Progress(arcs: seq<Arc>, f0: seq<int>, f: seq<int>, s: nat, t: nat, value: int)
    requires |f0| == |arcs| && |f| == |arcs|
  {
    && value == Net(arcs, f, t) - Net(arcs, f0, t)
    && Net(arcs, f, s) == Net(arcs, f0, s) - value
    && (forall u: nat :: u != s && u != t ==> Net(arcs, f, u) == Net(arcs, f0, u))
    && (forall i :: 0 <= i < |arcs| && InBounds(arcs[i], f0[i]) ==> InBounds(arcs[i], f[i]))
    && value >= 0
  }

  /** One round of the main loop: augmenting by the bottleneck of a path to the target
      keeps `Progress` with the value raised by the bottleneck, which is positive, and
      strictly lowers the residual capacity leaving the source. */
  lemma AugmentProgress(arcs: seq<Arc>, f0: seq<int>, f: seq<int>, s: nat, t: nat, marked: seq<bool>, via: seq<nat>, rank: seq<nat>, value: int, b: Bottle)
    requires Tree(arcs, s, marked, via, rank) && t < |marked| && marked[t] && t != s
    requires |f0| == |arcs| && |f| == |arcs| && Open(arcs, f, s, marked, via, rank)
    requires Progress(arcs, f0, f, s, t, value)
    requires b == BottleFrom(arcs, f, s, marked, via, rank, Infinite, t)
    ensures b.Finite? && b.amount > 0
    ensures Progress(arcs, f0, Aug(arcs, f, s, marked, via, rank, t, b.amount), s, t, value + b.amount)
    ensures 0 <= Sum(Slack(s), arcs, Aug(arcs, f, s, marked, via, rank, t, b.amount)) < Sum(Slack(s), arcs, f)
  {
    BottleBound(arcs, f, s, marked, via, rank, Infinite, t);
    BottlePositive(arcs, f, s, marked, via, rank, Infinite, t);
    var d := b.amount;
    var g := Aug(arcs, f, s, marked, via, rank, t, d);
    forall u: nat
      ensures Net(arcs, g, u) == Net(arcs, f, u) + (if u == t then d else 0) - (if u == s then d else 0)
    {
      AugNet(arcs, f, s, marked, via, rank, t, d, u);
    }
    AugBounds(arcs, f, s, marked, via, rank, t, d);
    AugSlack(arcs, f, s, marked, via, rank, t, d);
    SlackNonNegative(s, arcs, g);
  }

  /** A flow within bounds that carries something only from s to t. */
  ghost predicate Feasible(arcs: seq<Arc>, g: seq<int>, s: nat, t: nat)
  {
    && |g| == |arcs|
    && (forall i :: 0 <= i < |arcs| ==> InBounds(arcs[i], g[i]))
    && (forall u: nat :: u != s && u != t ==> Net(arcs, g, u) == 0)
  }

  /** A flow within bounds that leaves every vertex balanced, such as no flow at all
      when no capacity is negative. */
  ghost predicate Idle(arcs: seq<Arc>, f: seq<int>)
  {
    && |f| == |arcs|
    && (forall i :: 0 <= i < |arcs| ==> InBounds(arcs[i], f[i]))
    && (forall u: nat :: Net(arcs, f, u) == 0)
  }

  /** Within bounds, a closed cut is saturated. */
  lemma ClosedSaturated(arcs: seq<Arc>, f: seq<int>, marked: seq<bool>)
    requires |f| == |arcs| && Closed(arcs, f, marked)
    requires forall i :: 0 <= i < |arcs| ==> InBounds(arcs[i], f[i])
    ensures Saturated(arcs, f, marked)
  {
  }

  /** Max-flow min-cut: when the main loop started from a balanced flow within bounds and
      stopped because no path reaches the target, its value is the capacity of the cut
      between the marked vertices and the rest, and no flow within bounds carries more. */
  lemma MaxFlowMinCut(arcs: seq<Arc>, f0: seq<int>, f: seq<int>, s: nat, t: nat, marked: seq<bool>, value: int)
    requires |f0| == |arcs| && |f| == |arcs| && Within(arcs, |marked|)
    requires s < |marked| && t < |marked| && marked[s] && !marked[t]
    requires Idle(arcs, f0)
    requires Progress(arcs, f0, f, s, t, value) && Closed(arcs, f, marked)
    ensures value == Sum(CutCapacity(marked), arcs, f)
    ensures forall g :: Feasible(arcs, g, s, t) ==> Net(arcs, g, t) <= value
  {
    ClosedSaturated(arcs, f, marked);
    ValueIsCut(arcs, f, marked, t);
    forall g | Feasible(arcs, g, s, t)
      ensures Net(arcs, g, t) <= value
    {
      CutBoundsValue(arcs, g, marked, t);
      CutCapacityFixed(arcs, f, g, marked);
    }
  }

  /** Every arc at v with residual capacity toward its other end leads to a marked vertex. */
  ghost predicate Done(arcs: seq<Arc>, f: seq<int>, marked: seq<bool>, v: nat)
    requires |f| == |arcs|
  {
    forall i ::
      0 <= i < |arcs| && EndOf(arcs[i], v) && OtherEnd(arcs[i], v).value < |marked|
      && Positive(arcs[i], f[i], OtherEnd(arcs[i], v).value)
      ==> marked[OtherEnd(arcs[i], v).value]
  }

  /** The state of the breadth-first search with the first d queue entries explored: the
      queue holds each marked vertex once, at the position its rank says, the marked
      vertices form a tree with open edges, and every explored vertex is done. */
  ghost predicate Frontier(arcs: seq<Arc>, f: seq<int>, s: nat, queue: seq<nat>, d: nat,
                           marked: seq<bool>, via: seq<nat>, rank: seq<nat>)
  {
    && |f| == |arcs| && d <= |queue| && |queue| == |TrueSet(marked)|
    && (forall k :: 0 <= k < |queue| ==> queue[k] < |marked| && marked[queue[k]])
    && Tree(arcs, s, marked, via, rank)
    && (forall k :: 0 <= k < |queue| ==> rank[queue[k]] == k)
    && (forall u :: 0 <= u < |marked| && marked[u] ==> rank[u] < |queue| && queue[rank[u]] == u)
    && Open(arcs, f, s, marked, via, rank)
    && (forall k :: 0 <= k < d ==> Done(arcs, f, marked, queue[k]))
  }

  /** The search starts with the source alone in the queue. */
  lemma FrontierStart(arcs: seq<Arc>, f: seq<int>, s: nat, n: nat)
    requires |f| == |arcs| && s < n
    ensures Frontier(arcs, f, s, [s], 0, seq(n, _ => false)[s := true], seq(n, _ => 0), seq(n, _ => 0))
  {
    var marked := seq(n, _ => false)[s := true];
    assert TrueSet(marked) == {s};
  }

  /** Marking one more vertex keeps the queue and its ranks in step. */
  lemma MarkQueue(arcs: seq<Arc>, f: seq<int>, s: nat, queue: seq<nat>, d: nat,
                  marked: seq<bool>, via: seq<nat>, rank: seq<nat>, w: nat)
    requires Frontier(arcs, f, s, queue, d, marked, via, rank) && w < |marked| && !marked[w]
    ensures var marked', rank' := marked[w := true], rank[w := |queue|];
      && |queue + [w]| == |TrueSet(marked')|
      && (forall k :: 0 <= k < |queue + [w]| ==> (queue + [w])[k] < |marked'| && marked'[(queue + [w])[k]])
      && (forall k :: 0 <= k < |queue + [w]| ==> rank'[(queue + [w])[k]] == k)
      && (forall u :: 0 <= u < |marked'| && marked'[u] ==> rank'[u] < |queue + [w]| && (queue + [w])[rank'[u]] == u)
  {
    TrueSetMark(marked, w);
  }

  /** Marking w through arc k from the vertex being explored keeps the tree and its open edges. */
  lemma MarkTree(arcs: seq<Arc>, f: seq<int>, s: nat, queue: seq<nat>, d: nat,
                 marked: seq<bool>, via: seq<nat>, rank: seq<nat>, w: nat, k: nat)
    requires Frontier(arcs, f, s, queue, d, marked, via, rank) && d < |queue|
    requires w < |marked| && !marked[w] && k < |arcs| && EndOf(arcs[k], w)
    requires OtherEnd(arcs[k], w).value == queue[d] && Positive(arcs[k], f[k], w)
    ensures Tree(arcs, s, marked[w := true], via[w := k], rank[w := |queue|])
    ensures Open(arcs, f, s, marked[w := true], via[w := k], rank[w := |queue|])
  {
    var marked', via', rank' := marked[w := true], via[w := k], rank[w := |queue|];
    forall u: nat | u < |marked'| && marked'[u] && u != s
      ensures Hop(arcs, marked', via', rank', u) && Positive(arcs[via'[u]], f[via'[u]], u)
    {
      if u != w {
        assert Hop(arcs, marked, via, rank, u);
        assert Parent(arcs, via', u) == Parent(arcs, via, u);
      }
    }
  }

  /** Marking a vertex keeps every explored vertex done. */
  lemma MarkDone(arcs: seq<Arc>, f: seq<int>, queue: seq<nat>, d: nat, marked: seq<bool>, w: nat)
    requires |f| == |arcs| && d <= |queue| && w < |marked|
    requires forall k :: 0 <= k < d ==> Done(arcs, f, marked, queue[k])
    ensures forall k :: 0 <= k < d ==> Done(arcs, f, marked[w := true], queue[k])
  {
    forall k | 0 <= k < d
      ensures Done(arcs, f, marked[w := true], queue[k])
    {
      assert Done(arcs, f, marked, queue[k]);
    }
  }

  /** Marking w through arc k from the vertex being explored keeps the frontier, with w
      queued last. */
  lemma MarkStep(arcs: seq<Arc>, f: seq<int>, s: nat, queue: seq<nat>, d: nat,
                 marked: seq<bool>, via: seq<nat>, rank: seq<nat>, w: nat, k: nat)
    requires Frontier(arcs, f, s, queue, d, marked, via, rank) && d < |queue|
    requires w < |marked| && !marked[w] && k < |arcs| && EndOf(arcs[k], w)
    requires OtherEnd(arcs[k], w).value == queue[d] && Positive(arcs[k], f[k], w)
    ensures Frontier(arcs, f, s, queue + [w], d, marked[w := true], via[w := k], rank[w := |queue|])
  {
    MarkQueue(arcs, f, s, queue, d, marked, via, rank, w);
    MarkTree(arcs, f, s, queue, d, marked, via, rank, w, k);
    MarkDone(arcs, f, queue, d, marked, w);
  }

  /** When the search has explored every queued vertex, no arc with residual capacity
      leaves the marked vertices. */
  lemma FrontierClosed(arcs: seq<Arc>, f: seq<int>, s: nat, queue: seq<nat>,
                       marked: seq<bool>, via: seq<nat>, rank: seq<nat>)
    requires Frontier(arcs, f, s, queue, |queue|, marked, via, rank)
    ensures Closed(arcs, f, marked)
  {
    forall i | 0 <= i < |arcs| && arcs[i].v < |marked| && arcs[i].w < |marked|
      ensures marked[arcs[i].v] && Positive(arcs[i], f[i], arcs[i].w) ==> marked[arcs[i].w]
      ensures marked[arcs[i].w] && Positive(arcs[i], f[i], arcs[i].v) ==> marked[arcs[i].v]
    {
      var a := arcs[i];
      if marked[a.v] {
        assert Done(arcs, f, marked, queue[rank[a.v]]);
      }
      if marked[a.w] && a.v != a.w {
        assert Done(arcs, f, marked, queue[rank[a.w]]);
      }
    }
  }

  /** A queue of distinct vertices is no longer than the number of vertices. */
  lemma FrontierBound(arcs: seq<Arc>, f: seq<int>, s: nat, queue: seq<nat>, d: nat,
                      marked: seq<bool>, via: seq<nat>, rank: seq<nat>)
    requires Frontier(arcs, f, s, queue, d, marked, via, rank)
    ensures |queue| <= |marked|
  {
    TrueSetSize(marked);
  }
}
