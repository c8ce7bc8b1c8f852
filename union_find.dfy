/**
  Weighted quick-union with path halving.

  `id[k]` is the parent of site k (a root is its own parent) and `size[r]` is the
  number of sites below root r.  A ghost rank that strictly grows along parent links,
  bounded by a ghost `bound`, makes the root chase terminate; it is never consulted by
  the code.  The facts about the forest are proved on sequences, and the class methods
  connect the two arrays to them.
*/
module UnionFindModule {
  import opened Common

  datatype UFError = OutOfRange   // IndexError: a site outside 0..n-1

  /** Parent links stay inside the array and climb strictly in rank. */
  ghost predicate Forest(id: seq<nat>, rank: seq<nat>, bound: nat)
  {
    && |rank| == |id|
    && forall k :: 0 <= k < |id| ==>
         && id[k] < |id| && rank[k] < bound
         && (id[k] != k ==> rank[k] < rank[id[k]])
  }

  /** The root reached from site i by following parent links. */
  ghost function Find(id: seq<nat>, rank: seq<nat>, bound: nat, i: nat): (r: nat)
    requires Forest(id, rank, bound) && i < |id|
    ensures r < |id| && id[r] == r
    decreases bound - rank[i]
  {
    if id[i] == i then i else Find(id, rank, bound, id[i])
  }

  /** The sites whose root is r. */
  ghost function Members(id: seq<nat>, rank: seq<nat>, bound: nat, r: nat): set<nat>
    requires Forest(id, rank, bound)
  {
    set k: nat | k < |id| && Find(id, rank, bound, k) == r
  }

  /** The sites that are their own parent. */
  ghost function Roots(id: seq<nat>): set<nat>
  {
    set r: nat | r < |id| && id[r] == r
  }

  /** Every root records the number of sites in its tree. */
  ghost predicate SizesOk(id: seq<nat>, rank: seq<nat>, bound: nat, size: seq<nat>)
  {
    && Forest(id, rank, bound) && |size| == |id|
    && forall r :: 0 <= r < |id| && id[r] == r ==> size[r] == |Members(id, rank, bound, r)|
  }

  /** One path-halving step, `id[i] = id[id[i]]`, keeps the forest and every site's root. */
  lemma {:induction false} HalvingKeepsFind(id: seq<nat>, rank: seq<nat>, bound: nat, i: nat, k: nat)
    requires Forest(id, rank, bound) && i < |id| && k < |id|
    ensures Forest(id[i := id[id[i]]], rank, bound)
    ensures Find(id[i := id[id[i]]], rank, bound, k) == Find(id, rank, bound, k)
    decreases bound - rank[k]
  {
    var id' := id[i := id[id[i]]];
    if id[i] == i {
      assert id' == id;
    } else {
      assert Forest(id', rank, bound) by {
        forall x | 0 <= x < |id'| && id'[x] != x
          ensures rank[x] < rank[id'[x]]
        {
          if x == i && id[id[i]] != id[i] {
            assert rank[i] < rank[id[i]] < rank[id[id[i]]];
          }
        }
      }
      if id[k] == k {
        assert id'[k] == k;
      } else if k == i {
        assert id'[i] != i by {
          if id[id[i]] != id[i] {
            assert rank[i] < rank[id[i]] < rank[id[id[i]]];
          }
        }
        HalvingKeepsFind(id, rank, bound, i, id[id[i]]);
        if id[id[i]] != id[i] {
          assert Find(id, rank, bound, id[i]) == Find(id, rank, bound, id[id[i]]);
        }
      } else {
        HalvingKeepsFind(id, rank, bound, i, id[k]);
      }
    }
  }

  /** The forest after root a is linked under root b, with b's rank raised above a's. */
  ghost function LinkRank(rank: seq<nat>, a: nat, b: nat): seq<nat>
    requires a < |rank| && b < |rank|
  {
    rank[b := if rank[b] > rank[a] then rank[b] else rank[a] + 1]
  }

  /** Linking root a under root b sends a's sites to b and leaves every other site's root alone. */
  lemma {:induction false} LinkFind(id: seq<nat>, rank: seq<nat>, bound: nat, a: nat, b: nat, k: nat)
    requires Forest(id, rank, bound) && a < |id| && b < |id| && k < |id|
    requires id[a] == a && id[b] == b && a != b
    ensures Forest(id[a := b], LinkRank(rank, a, b), bound + 1)
    ensures Find(id[a := b], LinkRank(rank, a, b), bound + 1, k) ==
            if Find(id, rank, bound, k) == a then b else Find(id, rank, bound, k)
    decreases bound - rank[k]
  {
    var id', rank' := id[a := b], LinkRank(rank, a, b);
    assert Forest(id', rank', bound + 1) by {
      forall x | 0 <= x < |id'|
        ensures id'[x] < |id'| && rank'[x] < bound + 1 && (id'[x] != x ==> rank'[x] < rank'[id'[x]])
      {
        assert rank[x] < bound;
      }
    }
    if id[k] != k {
      LinkFind(id, rank, bound, a, b, id[k]);
    }
  }

  /** Linking root a under root b: the sites of b's new tree are those of both old trees. */
  lemma LinkMembers(id: seq<nat>, rank: seq<nat>, bound: nat, a: nat, b: nat, r: nat)
    requires Forest(id, rank, bound) && a < |id| && b < |id|
    requires id[a] == a && id[b] == b && a != b
    ensures Forest(id[a := b], LinkRank(rank, a, b), bound + 1)
    ensures Members(id[a := b], LinkRank(rank, a, b), bound + 1, r) ==
            if r == b then Members(id, rank, bound, a) + Members(id, rank, bound, b)
            else if r == a then {}
            else Members(id, rank, bound, r)
  {
    LinkFind(id, rank, bound, a, b, a);
    forall k | 0 <= k < |id|
      ensures Find(id[a := b], LinkRank(rank, a, b), bound + 1, k) ==
              if Find(id, rank, bound, k) == a then b else Find(id, rank, bound, k)
    {
      LinkFind(id, rank, bound, a, b, k);
    }
  }

  /** `union`'s link: root a under root b, with b's size grown by a's, keeps sizes exact. */
  lemma LinkSizes(id: seq<nat>, rank: seq<nat>, bound: nat, size: seq<nat>, a: nat, b: nat)
    requires SizesOk(id, rank, bound, size) && a < |id| && b < |id|
    requires id[a] == a && id[b] == b && a != b
    ensures SizesOk(id[a := b], LinkRank(rank, a, b), bound + 1, size[b := size[b] + size[a]])
    ensures Roots(id[a := b]) == Roots(id) - {a}
  {
    var id', rank', size' := id[a := b], LinkRank(rank, a, b), size[b := size[b] + size[a]];
    LinkMembers(id, rank, bound, a, b, a);
    forall r | 0 <= r < |id'| && id'[r] == r
      ensures size'[r] == |Members(id', rank', bound + 1, r)|
    {
      LinkMembers(id, rank, bound, a, b, r);
      if r == b {
        assert Members(id, rank, bound, a) !! Members(id, rank, bound, b);
      }
    }
  }

  /** Halving keeps the set of roots, the members of every root and so the sizes. */
  lemma HalvingKeepsSizes(id: seq<nat>, rank: seq<nat>, bound: nat, size: seq<nat>, i: nat)
    requires SizesOk(id, rank, bound, size) && i < |id|
    ensures SizesOk(id[i := id[id[i]]], rank, bound, size)
    ensures Roots(id[i := id[id[i]]]) == Roots(id)
    ensures forall k :: 0 <= k < |id| ==> Find(id[i := id[id[i]]], rank, bound, k) == Find(id, rank, bound, k)
  {
    var id' := id[i := id[id[i]]];
    HalvingKeepsFind(id, rank, bound, i, i);
    forall k | 0 <= k < |id|
      ensures Find(id', rank, bound, k) == Find(id, rank, bound, k)
    {
      HalvingKeepsFind(id, rank, bound, i, k);
    }
    forall r | 0 <= r < |id|
      ensures Members(id', rank, bound, r) == Members(id, rank, bound, r)
    {
    }
    if id[i] != i && id[id[i]] != id[i] {
      assert rank[i] < rank[id[i]] < rank[id[id[i]]];
    }
  }

  /** Every root is its own root, and the roots are exactly the values of Find. */
  lemma RootsAreFinds(id: seq<nat>, rank: seq<nat>, bound: nat)
    requires Forest(id, rank, bound)
    ensures forall r :: r in Roots(id) ==> Find(id, rank, bound, r) == r
    ensures forall k :: 0 <= k < |id| ==> Find(id, rank, bound, k) in Roots(id)
  {
  }

  class UnionFind {
    const n: nat
    const id: array<nat>
    const size: array<nat>
    ghost var rank: seq<nat>
    ghost var bound: nat

    ghost predicate Valid()
      reads this, id, size
    {
      && id != size && id.Length == n && size.Length == n
      && SizesOk(id[..], rank, bound, size[..])
    }

    /** The root of site k. */
    ghost function Rep(k: nat): nat
      requires Valid() && k < n
      reads this, id, size
    {
      Find(id[..], rank, bound, k)
    }

    /** The root of every site, site by site. */
    ghost function Reps(): (r: seq<nat>)
      requires Valid()
      reads this, id, size
      ensures |r| == n && forall k :: 0 <= k < n ==> r[k] == Rep(k)
    {
      var s, rk, b := id[..], rank, bound;
      seq(n, k requires 0 <= k < n => Find(s, rk, b, k))
    }

    /** The number of components. */
    ghost function ComponentCount(): nat
      reads this, id
    {
      |Roots(id[..])|
    }

    /** Every site starts as a root of size 1. */
    constructor (n: nat)
      ensures Valid() && this.n == n
      ensures forall k :: 0 <= k < n ==> id[k] == k && size[k] == 1 && Rep(k) == k
      ensures ComponentCount() == n && fresh(id) && fresh(size)
    {
      this.n := n;
      id := new nat[n](k => k);
      size := new nat[n](_ => 1);
      rank := seq(n, _ => 0);
      bound := 1;
      new;
      forall r | 0 <= r < n
        ensures Members(id[..], rank, bound, r) == {r}
      {
      }
      AllRoots(id[..]);
    }

    /** `_root` with path halving: returns the root of p and changes no site's root. */
    method Root(p: nat) returns (r: nat)
      requires Valid() && p < n
      modifies id
      ensures Valid() && r < n && id[r] == r && r == old(Rep(p))
      ensures forall k :: 0 <= k < n ==> Rep(k) == old(Rep(k))
      ensures Roots(id[..]) == old(Roots(id[..])) && size[..] == old(size[..])
    {
      var i: nat := p;
      while id[i] != i
        invariant Valid() && i < n && Rep(i) == old(Rep(p))
        invariant forall k :: 0 <= k < n ==> Rep(k) == old(Rep(k))
        invariant Roots(id[..]) == old(Roots(id[..]))
        decreases bound - rank[i]
      {
        HalvingKeepsSizes(id[..], rank, bound, size[..], i);
        id[i] := id[id[i]];
        i := id[i];
      }
      r := i;
    }

    /** `connected`: same root. A site outside 0..n-1 is an IndexError, raised before any
        root is chased when it fails the range guard, or inside `_root` when it equals n. */
    method Connected(p: int, q: int) returns (r: Result<bool, UFError>)
      requires Valid()
      modifies id
      ensures Valid() && size[..] == old(size[..]) && ComponentCount() == old(ComponentCount())
      ensures forall k :: 0 <= k < n ==> Rep(k) == old(Rep(k))
      ensures !(0 <= p < n && 0 <= q < n) <==> r == Err(OutOfRange)
      ensures 0 <= p < n && 0 <= q < n ==> r == Ok(old(Rep(p)) == old(Rep(q)))
    {
      if !(0 <= p <= n) || !(0 <= q <= n) {
        return Err(OutOfRange);
      }
      if p == n {
        return Err(OutOfRange);
      }
      var i: nat := Root(p);
      if q == n {
        return Err(OutOfRange);
      }
      var j: nat := Root(q);
      r := Ok(i == j);
    }

    /** `union`: links the root of the smaller tree under the other (q's root under p's on
        a tie) and adds the sizes; sites already connected are left as they are. */
    method Union(p: int, q: int) returns (r: Outcome<UFError>)
      requires Valid()
      modifies this, id, size
      ensures Valid()
      ensures !(0 <= p < n && 0 <= q < n) <==> r == Fail(OutOfRange)
      ensures 0 <= p < n && 0 <= q < n ==> r.Pass?
      ensures r.Fail? ==> size[..] == old(size[..]) && ComponentCount() == old(ComponentCount())
      ensures r.Fail? ==> forall k :: 0 <= k < n ==> Rep(k) == old(Rep(k))
      ensures r.Pass? ==> Rep(p) == Rep(q)
      ensures r.Pass? ==> Rep(p) == (if old(size[Rep(p)]) < old(size[Rep(q)]) then old(Rep(q)) else old(Rep(p)))
      ensures r.Pass? ==> forall k :: 0 <= k < n ==>
                Rep(k) == if old(Rep(k)) == old(Rep(p)) || old(Rep(k)) == old(Rep(q)) then Rep(p) else old(Rep(k))
      ensures r.Pass? ==> ComponentCount() == old(ComponentCount()) - (if old(Rep(p)) == old(Rep(q)) then 0 else 1)
    {
      if !(0 <= p <= n) || !(0 <= q <= n) {
        return Fail(OutOfRange);
      }
      if p == n {
        return Fail(OutOfRange);
      }
      var i: nat := Root(p);
      if q == n {
        return Fail(OutOfRange);
      }
      var j: nat := Root(q);
      r := Pass;
      if i == j {
        return;
      }
      if size[i] < size[j] {
        Link(i, j);
      } else {
        Link(j, i);
      }
    }

    /** The two halves of `union`'s weighted link: root a goes under root b and b's size
        grows by a's. */
    method Link(a: nat, b: nat)
      requires Valid() && a < n && b < n && id[a] == a && id[b] == b && a != b
      modifies this, id, size
      ensures Valid()
      ensures id[..] == old(id[..])[a := b] && size[..] == old(size[..])[b := old(size[b]) + old(size[a])]
      ensures forall k :: 0 <= k < n ==> Rep(k) == if old(Rep(k)) == a then b else old(Rep(k))
      ensures Roots(id[..]) == old(Roots(id[..])) - {a}
    {
      ghost var id0, rank0, bound0 := id[..], rank, bound;
      LinkSizes(id0, rank0, bound0, size[..], a, b);
      forall k | 0 <= k < n
        ensures Find(id0[a := b], LinkRank(rank0, a, b), bound0 + 1, k) ==
                if Find(id0, rank0, bound0, k) == a then b else Find(id0, rank0, bound0, k)
      {
        LinkFind(id0, rank0, bound0, a, b, k);
      }
      id[a] := b;
      size[b] := size[b] + size[a];
      rank, bound := LinkRank(rank, a, b), bound + 1;
      assert id[..] == id0[a := b];
    }

    /** `_components`: groups every site under its root (chasing, and halving, each site's
        path in turn). The result maps each root to its members. */
    method Components() returns (groups: map<nat, set<nat>>)
      requires Valid()
      modifies id
      ensures Valid() && size[..] == old(size[..])
      ensures forall k :: 0 <= k < n ==> Rep(k) == old(Rep(k))
      ensures Roots(id[..]) == old(Roots(id[..]))
      ensures groups.Keys == Roots(id[..])
      ensures forall r :: r in groups ==> groups[r] == Members(id[..], rank, bound, r)
    {
      ghost var id0, rk, bd := id[..], rank, bound;
      ghost var reps := seq(n, k requires 0 <= k < n => Find(id0, rk, bd, k));
      groups := map[];
      for i := 0 to n
        invariant Valid() && size[..] == old(size[..]) && rank == rk && bound == bd
        invariant forall k :: 0 <= k < n ==> Rep(k) == reps[k]
        invariant Roots(id[..]) == Roots(id0)
        invariant forall r :: r in groups ==> r in Roots(id0)
        invariant Grouped(groups, reps, i)
      {
        var root := Root(i);
        GroupStep(groups, reps, i);
        if root in groups {
          groups := groups[root := groups[root] + {i}];
        } else {
          groups := groups[root := {i}];
        }
      }
      RootsAreFinds(id0, rank, bound);
      forall r | r in Roots(id0)
        ensures r in groups
      {
        assert reps[r] == r;
      }
      forall r | r in groups
        ensures groups[r] == Members(id[..], rank, bound, r)
      {
        assert groups[r] == Members(id0, rank, bound, r);
      }
    }

    /** `__len__`: the number of components, that is of roots. */
    method Len() returns (count: nat)
      requires Valid()
      modifies id
      ensures Valid() && size[..] == old(size[..])
      ensures forall k :: 0 <= k < n ==> Rep(k) == old(Rep(k))
      ensures count == old(ComponentCount())
    {
      var groups := Components();
      count := |groups|;
      assert |groups| == |groups.Keys|;
    }
  }

  /** The first i sites, grouped by representative: each group lists exactly the sites
      below i with that representative. */
  ghost predicate Grouped(groups: map<nat, set<nat>>, reps: seq<nat>, i: nat)
    requires i <= |reps|
  {
    && (forall k :: 0 <= k < i ==> reps[k] in groups)
    && (forall r :: r in groups ==> groups[r] == set k: nat | k < i && reps[k] == r)
  }

  /** Adding site i to its representative's group extends the grouping by one site. */
  lemma GroupStep(groups: map<nat, set<nat>>, reps: seq<nat>, i: nat)
    requires i < |reps| && Grouped(groups, reps, i)
    ensures Grouped(if reps[i] in groups then groups[reps[i] := groups[reps[i]] + {i}]
                    else groups[reps[i] := {i}], reps, i + 1)
  {
  }

  /** When every site is its own parent, there are as many roots as sites. */
  lemma {:induction false} AllRoots(id: seq<nat>)
    requires forall k :: 0 <= k < |id| ==> id[k] == k
    ensures |Roots(id)| == |id|
  {
    if |id| > 0 {
      var m := |id| - 1;
      AllRoots(id[..m]);
      assert Roots(id) == Roots(id[..m]) + {m};
    }
  }
}
