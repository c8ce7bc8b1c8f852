/** Strong connectivity, and the property of a depth-first finishing order that the
    Kosaraju-Sharir algorithm rests on: the strongly connected components lying wholly in
    a prefix of the order reach nothing outside that prefix. */
module FinishingOrder {
  import opened Common
  import opened DepthFirst

  /** x and z reach each other: they lie in one strongly connected component. */
  ghost predicate Mutual(g: seq<seq<nat>>, x: nat, z: nat)
  {
    Reaches(g, x, z) && Reaches(g, z, x)
  }

  lemma ReachesRefl(g: seq<seq<nat>>, x: nat)
    requires x < |g|
    ensures Reaches(g, x, x)
  {
    assert IsWalk(g, [x]);
  }

  lemma ReachesTrans(g: seq<seq<nat>>, a: nat, b: nat, c: nat)
    requires Reaches(g, a, b) && Reaches(g, b, c)
    ensures Reaches(g, a, c)
  {
    var p :| IsWalk(g, p) && p[0] == a && p[|p| - 1] == b;
    var q :| IsWalk(g, q) && q[0] == b && q[|q| - 1] == c;
    var r := p + q[1..];
    forall k | 0 <= k < |r| - 1
      ensures r[k + 1] in Succ(g, r[k])
    {
      if k < |p| - 1 {
        assert r[k] == p[k] && r[k + 1] == p[k + 1];
      } else {
        assert r[k] == q[k - |p| + 1] && r[k + 1] == q[k - |p| + 2];
      }
    }
    assert r[|r| - 1] == c by {
      if |q| == 1 {
        assert r == p;
      }
    }
  }

  /** A walk reaches every vertex on it from its start. */
  lemma WalkReaches(g: seq<seq<nat>>, p: seq<nat>, i: nat)
    requires IsWalk(g, p) && i < |p|
    ensures Reaches(g, p[0], p[i])
  {
    var q := p[..i + 1];
    assert IsWalk(g, q) by {
      forall k | 0 <= k < |q| - 1
        ensures q[k + 1] in Succ(g, q[k])
      {
        assert q[k] == p[k] && q[k + 1] == p[k + 1];
      }
    }
  }

  /** Every vertex strongly connected to x lies in P. */
  ghost predicate Inside(g: seq<seq<nat>>, x: nat, P: seq<nat>)
  {
    forall z :: Mutual(g, x, z) ==> z in P
  }

  /** The strongly connected components lying wholly in P reach nothing outside it. */
  ghost predicate ClosedPrefix(g: seq<seq<nat>>, P: seq<nat>)
  {
    forall x, t :: Inside(g, x, P) && Reaches(g, x, t) ==> t in P
  }

  /** Every prefix of the finishing order is closed in that sense. */
  ghost predicate Prefixes(g: seq<seq<nat>>, post: seq<nat>)
  {
    forall k :: 0 <= k <= |post| ==> ClosedPrefix(g, post[..k])
  }

  lemma EmptyPrefixes(g: seq<seq<nat>>)
    ensures Prefixes(g, [])
  {
    forall x, t | Reaches(g, x, t)
      ensures !Inside(g, x, [])
    {
      var p :| IsWalk(g, p) && p[0] == x && p[|p| - 1] == t;
      ReachesRefl(g, x);
      assert Mutual(g, x, x);
    }
    var none: seq<nat> := [];
    assert none[..0] == none;
  }

  /** A walk from inside P to outside it leaves P over some edge. */
  lemma {:induction false} FirstExit(g: seq<seq<nat>>, p: seq<nat>, P: seq<nat>) returns (i: nat)
    requires IsWalk(g, p) && p[0] in P && p[|p| - 1] !in P
    ensures i < |p| - 1 && p[i] in P && p[i + 1] !in P
    decreases |p|
  {
    if p[1] !in P {
      i := 0;
    } else {
      var q := p[1..];
      assert IsWalk(g, q) by {
        forall k | 0 <= k < |q| - 1
          ensures q[k + 1] in Succ(g, q[k])
        {
          assert q[k] == p[k + 1] && q[k + 1] == p[k + 2];
        }
      }
      var j := FirstExit(g, q, P);
      i := j + 1;
    }
  }

  /** Finishing v, whose successors are all marked, keeps the whole finishing order closed:
      a component inside it that reached outside would leave it at a vertex on the stack,
      which reaches v, so that vertex would be in v's component. */
  lemma Closing(g: seq<seq<nat>>, marked: seq<bool>, post: seq<nat>, stack: seq<nat>, v: nat)
    requires Search(g, marked, post, stack + [v])
    requires forall x :: x in Succ(g, v) ==> x < |g| && marked[x]
    requires ClosedPrefix(g, post)
    ensures ClosedPrefix(g, post + [v])
  {
    forall x, t | Inside(g, x, post + [v]) && Reaches(g, x, t)
      ensures t in post + [v]
    {
      if Mutual(g, x, v) {
        ClosingSame(g, marked, post, stack, v, x, t);
      } else {
        ClosingOther(g, post, v, x, t);
      }
    }
  }

  /** A component inside post + [v] other than v's lies inside post, which is closed. */
  lemma ClosingOther(g: seq<seq<nat>>, post: seq<nat>, v: nat, x: nat, t: nat)
    requires ClosedPrefix(g, post) && Inside(g, x, post + [v]) && !Mutual(g, x, v) && Reaches(g, x, t)
    ensures t in post
  {
    forall z | Mutual(g, x, z)
      ensures z in post
    {
      assert z in post + [v];
    }
    assert Inside(g, x, post);
  }

  /** Whatever v's component reaches is on the finishing order once v finishes: a walk
      leaving post + [v] would leave it over an edge into a marked vertex on the stack,
      which reaches v and so lies in v's component, inside post + [v]. */
  lemma ClosingSame(g: seq<seq<nat>>, marked: seq<bool>, post: seq<nat>, stack: seq<nat>, v: nat,
                    x: nat, t: nat)
    requires Search(g, marked, post, stack + [v])
    requires forall x :: x in Succ(g, v) ==> x < |g| && marked[x]
    requires Inside(g, x, post + [v]) && Mutual(g, x, v) && Reaches(g, x, t)
    ensures t in post + [v]
  {
    var full := post + [v];
    var s := stack + [v];
    if t !in full {
      assert v in post + s;
      var p :| IsWalk(g, p) && p[0] == x && p[|p| - 1] == t;
      ReachesRefl(g, x);
      assert x in full;
      var i := FirstExit(g, p, full);
      var b, a := p[i], p[i + 1];
      assert a in Succ(g, b);
      if b in post {
        var k :| 0 <= k < |post| && post[k] == b;
      }
      assert a < |g| && marked[a];
      assert a in s;
      var k :| 0 <= k < |s| && s[k] == a;
      StackWalk(g, marked, post, s, k);
      WalkReaches(g, s[k..], |s| - 1 - k);
      WalkReaches(g, p, i + 1);
      ReachesTrans(g, a, v, x);
      assert Mutual(g, x, a);
      assert false;
    }
  }

  /** Finishing v keeps every prefix of the finishing order closed. */
  lemma PopPrefixes(g: seq<seq<nat>>, marked: seq<bool>, post: seq<nat>, stack: seq<nat>, v: nat)
    requires Search(g, marked, post, stack + [v])
    requires forall x :: x in Succ(g, v) ==> x < |g| && marked[x]
    requires Prefixes(g, post)
    ensures Prefixes(g, post + [v])
  {
    var full := post + [v];
    assert post[..|post|] == post;
    Closing(g, marked, post, stack, v);
    forall k | 0 <= k <= |full|
      ensures ClosedPrefix(g, full[..k])
    {
      if k <= |post| {
        assert full[..k] == post[..k];
      } else {
        assert full[..k] == full;
      }
    }
  }
}
