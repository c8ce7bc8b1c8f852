/**
  Connectivity through a set of undirected edges: walks, the relation they induce, and
  forests, the edge sequences in which no edge joins two already connected vertices.
  The minimum-spanning-tree algorithms are specified with these.
*/
module Connectivity {
  import opened Common
  import opened WeightedEdges

  /** e runs between a and b, in either direction. */
  predicate Joins(e: Edge, a: nat, b: nat)
  {
    (e.v == a && e.w == b) || (e.v == b && e.w == a)
  }

  /** Some edge of F runs between a and b. */
  ghost predicate Linked(F: set<Edge>, a: nat, b: nat)
  {
    exists e :: e in F && Joins(e, a, b)
  }

  /** A non-empty vertex sequence whose neighbours are linked by edges of F. */
  ghost predicate Walk(F: set<Edge>, p: seq<nat>)
  {
    |p| >= 1 && forall i :: 0 <= i < |p| - 1 ==> Linked(F, p[i], p[i + 1])
  }

  /** A walk along F leads from a to b. */
  ghost predicate Joined(F: set<Edge>, a: nat, b: nat)
  {
    exists p :: Walk(F, p) && p[0] == a && p[|p| - 1] == b
  }

  /** The edges of a sequence, as a set. */
  ghost function Elems(s: seq<Edge>): set<Edge>
  {
    set e | e in s
  }

  /** Every edge of the sequence joins two vertices not yet connected by the edges before it. */
  ghost predicate Forest(F: seq<Edge>)
  {
    forall i :: 0 <= i < |F| ==> !Joined(Elems(F[..i]), F[i].v, F[i].w)
  }

  lemma JoinedRefl(F: set<Edge>, a: nat)
    ensures Joined(F, a, a)
  {
    assert Walk(F, [a]);
  }

  /** An edge joins its two ends. */
  lemma JoinedEdge(F: set<Edge>, e: Edge)
    requires e in F
    ensures Joined(F, e.v, e.w) && Joined(F, e.w, e.v)
  {
    assert Linked(F, e.v, e.w) && Linked(F, e.w, e.v);
    assert Walk(F, [e.v, e.w]) && Walk(F, [e.w, e.v]);
  }

  lemma JoinedSym(F: set<Edge>, a: nat, b: nat)
    requires Joined(F, a, b)
    ensures Joined(F, b, a)
  {
    var p :| Walk(F, p) && p[0] == a && p[|p| - 1] == b;
    var r := Reverse(p);
    forall i | 0 <= i < |r| - 1
      ensures Linked(F, r[i], r[i + 1])
    {
      var k := |p| - 2 - i;
      assert r[i] == p[k + 1] && r[i + 1] == p[k];
      var e :| e in F && Joins(e, p[k], p[k + 1]);
      assert Joins(e, r[i], r[i + 1]);
    }
    assert Walk(F, r);
  }

  lemma JoinedTrans(F: set<Edge>, a: nat, b: nat, c: nat)
    requires Joined(F, a, b) && Joined(F, b, c)
    ensures Joined(F, a, c)
  {
    var p :| Walk(F, p) && p[0] == a && p[|p| - 1] == b;
    var q :| Walk(F, q) && q[0] == b && q[|q| - 1] == c;
    var r := p + q[1..];
    forall i | 0 <= i < |r| - 1
      ensures Linked(F, r[i], r[i + 1])
    {
      if i < |p| - 1 {
        assert r[i] == p[i] && r[i + 1] == p[i + 1];
      } else {
        var k := i - |p| + 1;
        assert r[i] == q[k] && r[i + 1] == q[k + 1];
      }
    }
    assert Walk(F, r);
  }

  /** More edges connect at least as much. */
  lemma JoinedGrow(F: set<Edge>, G: set<Edge>, a: nat, b: nat)
    requires F <= G && Joined(F, a, b)
    ensures Joined(G, a, b)
  {
    var p :| Walk(F, p) && p[0] == a && p[|p| - 1] == b;
    forall i | 0 <= i < |p| - 1
      ensures Linked(G, p[i], p[i + 1])
    {
      assert Linked(F, p[i], p[i + 1]);
      var e :| e in F && Joins(e, p[i], p[i + 1]);
      assert e in G;
    }
    assert Walk(G, p);
  }

  /** A vertex no edge of F touches is connected to nothing else. */
  lemma Untouched(F: set<Edge>, a: nat, x: nat)
    requires forall e :: e in F ==> !EndOf(e, x)
    requires a != x
    ensures !Joined(F, a, x)
  {
    forall p | Walk(F, p) && p[0] == a
      ensures p[|p| - 1] != x
    {
      if |p| > 1 {
        var k := |p| - 2;
        assert Linked(F, p[k], p[k + 1]);
        var e :| e in F && Joins(e, p[k], p[k + 1]);
        assert EndOf(e, p[k + 1]);
      }
    }
  }

  /** When every edge of F stays inside one class of `rep`, so does every walk along F. */
  lemma {:induction false} WalkSame(F: set<Edge>, rep: seq<nat>, p: seq<nat>)
    requires forall e :: e in F ==> e.v < |rep| && e.w < |rep| && rep[e.v] == rep[e.w]
    requires Walk(F, p) && p[0] < |rep|
    ensures p[|p| - 1] < |rep| && rep[p[|p| - 1]] == rep[p[0]]
    decreases |p|
  {
    if |p| > 1 {
      var q := p[..|p| - 1];
      assert Walk(F, q);
      WalkSame(F, rep, q);
      var k := |p| - 2;
      assert Linked(F, p[k], p[k + 1]);
      var e :| e in F && Joins(e, p[k], p[k + 1]);
    }
  }

  /** Connected vertices are in the same class of any `rep` that every edge respects. */
  lemma JoinedSame(F: set<Edge>, rep: seq<nat>, a: nat, b: nat)
    requires forall e :: e in F ==> e.v < |rep| && e.w < |rep| && rep[e.v] == rep[e.w]
    requires Joined(F, a, b) && a < |rep|
    ensures b < |rep| && rep[a] == rep[b]
  {
    var p :| Walk(F, p) && p[0] == a && p[|p| - 1] == b;
    WalkSame(F, rep, p);
  }

  /** A set of vertices that every edge of F either enters at both ends or at neither. */
  ghost predicate ClosedUnder(F: set<Edge>, S: set<nat>)
  {
    forall e :: e in F ==> (e.v in S <==> e.w in S)
  }

  /** A closed set holds everything connected to its members. */
  lemma {:induction false} ClosedWalk(F: set<Edge>, S: set<nat>, p: seq<nat>)
    requires ClosedUnder(F, S) && Walk(F, p) && p[0] in S
    ensures p[|p| - 1] in S
    decreases |p|
  {
    if |p| > 1 {
      var q := p[..|p| - 1];
      assert Walk(F, q);
      ClosedWalk(F, S, q);
      var k := |p| - 2;
      assert Linked(F, p[k], p[k + 1]);
      var e :| e in F && Joins(e, p[k], p[k + 1]);
    }
  }

  lemma ClosedJoined(F: set<Edge>, S: set<nat>, a: nat, b: nat)
    requires ClosedUnder(F, S) && a in S && Joined(F, a, b)
    ensures b in S
  {
    var p :| Walk(F, p) && p[0] == a && p[|p| - 1] == b;
    ClosedWalk(F, S, p);
  }

  /** Appending an edge between vertices not yet connected keeps a forest. */
  lemma ForestAppend(F: seq<Edge>, e: Edge)
    requires Forest(F) && !Joined(Elems(F), e.v, e.w)
    ensures Forest(F + [e])
  {
    var G := F + [e];
    forall i | 0 <= i < |G|
      ensures !Joined(Elems(G[..i]), G[i].v, G[i].w)
    {
      if i < |F| {
        assert G[..i] == F[..i] && G[i] == F[i];
      } else {
        assert G[..i] == F;
      }
    }
  }

  /** The elements of a sequence with one more edge. */
  lemma ElemsAppend(F: seq<Edge>, e: Edge)
    ensures Elems(F + [e]) == Elems(F) + {e}
  {
  }
}
