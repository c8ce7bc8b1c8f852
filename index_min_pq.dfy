/**
  The indexed binary min-heap used by Dijkstra's algorithm and by eager Prim.

  Three parallel arrays: `pq[k]` is the index stored at heap position k
  (positions 1..n, position 0 unused), `qp[i]` is the heap position of index i
  (-1 when i is not in the queue) and `keys[i]` is the priority of index i.
  The heap facts are proved once, as lemmas about the array contents viewed as
  sequences, and the class methods only connect the arrays to those lemmas.
*/
module PriorityQueue {
  import opened Common

  datatype PQError =
    | HeapEmpty       // del_min on an empty queue
    | KeyNotSmaller   // decrease_key with a key that is not strictly smaller
    | NotContained    // decrease_key of an index that is not queued (its key is None)

  /** The key of the index stored at heap position k (0 outside the arrays). */
  ghost function KeyAt(pq: seq<int>, keys: seq<int>, k: int): int
  {
    if 0 <= k < |pq| && 0 <= pq[k] < |keys| then keys[pq[k]] else 0
  }

  /** Heap positions 1..m and the position table are inverse to each other;
      an index outside the heap has position -1. */
  ghost predicate Inverse(pq: seq<int>, qp: seq<int>, m: int)
  {
    && |pq| == |qp| && 0 <= m < |pq|
    && (forall k :: 1 <= k <= m ==> 0 <= pq[k] < |qp| && qp[pq[k]] == k)
    && (forall i :: 0 <= i < |qp| ==> qp[i] == -1 || (1 <= qp[i] <= m && pq[qp[i]] == i))
  }

  /** Every parent key is at most the keys of its children. */
  ghost predicate HeapOrdered(pq: seq<int>, keys: seq<int>, n: int)
  {
    forall k :: 2 <= k <= n ==> KeyAt(pq, keys, k / 2) <= KeyAt(pq, keys, k)
  }

  /** Heap order except between x and its parent; x's parent is at most x's children. */
  ghost predicate HeapExceptUp(pq: seq<int>, keys: seq<int>, n: int, x: int)
  {
    && (forall k :: 2 <= k <= n && k != x ==> KeyAt(pq, keys, k / 2) <= KeyAt(pq, keys, k))
    && (x >= 2 ==> forall c :: 2 <= c <= n && c / 2 == x ==> KeyAt(pq, keys, x / 2) <= KeyAt(pq, keys, c))
  }

  /** Heap order except between x and its children; x's parent is at most x's children. */
  ghost predicate HeapExceptDown(pq: seq<int>, keys: seq<int>, n: int, x: int)
  {
    && (forall k :: 2 <= k <= n && k / 2 != x ==> KeyAt(pq, keys, k / 2) <= KeyAt(pq, keys, k))
    && (x >= 2 ==> forall c :: 2 <= c <= n && c / 2 == x ==> KeyAt(pq, keys, x / 2) <= KeyAt(pq, keys, c))
  }

  /** The queued indices and their keys. */
  ghost function ContentsOf(qp: seq<int>, keys: seq<int>): map<int, int>
  {
    map i | i in Queued(qp) && i < |keys| :: keys[i]
  }

  /** The indices whose position is not -1. */
  ghost function Queued(qp: seq<int>): set<int>
  {
    set i | 0 <= i < |qp| && qp[i] != -1
  }

  function Swap(s: seq<int>, i: int, j: int): seq<int>
    requires 0 <= i < |s| && 0 <= j < |s|
  {
    s[i := s[j]][j := s[i]]
  }

  /** `_exchange` keeps the heap and the position table inverse, and keeps the
      set of queued indices. */
  lemma SwapInverse(pq: seq<int>, qp: seq<int>, m: int, i: int, j: int)
    requires Inverse(pq, qp, m) && 1 <= i <= m && 1 <= j <= m
    ensures Inverse(Swap(pq, i, j), qp[pq[j] := i][pq[i] := j], m)
    ensures Queued(qp[pq[j] := i][pq[i] := j]) == Queued(qp)
  {
    var pq', qp' := Swap(pq, i, j), qp[pq[j] := i][pq[i] := j];
    forall x | 0 <= x < |qp'| && qp'[x] != -1
      ensures 1 <= qp'[x] <= m && pq'[qp'[x]] == x
    {
      if x != pq[i] && x != pq[j] {
        assert qp[x] != i && qp[x] != j;
      }
    }
  }

  /** One `_swim` exchange moves the fault one level up. */
  lemma SwimStep(pq: seq<int>, keys: seq<int>, n: int, x: int)
    requires n < |pq| && 2 <= x <= n
    requires HeapExceptUp(pq, keys, n, x)
    requires KeyAt(pq, keys, x / 2) > KeyAt(pq, keys, x)
    ensures HeapExceptUp(Swap(pq, x, x / 2), keys, n, x / 2)
  {
    var p := x / 2;
    var pq' := Swap(pq, x, p);
    assert KeyAt(pq', keys, p) == KeyAt(pq, keys, x);
    assert KeyAt(pq', keys, x) == KeyAt(pq, keys, p);
    forall k | 2 <= k <= n && k != p
      ensures KeyAt(pq', keys, k / 2) <= KeyAt(pq', keys, k)
    {
      if k == x {
      } else if k / 2 == p {
        assert KeyAt(pq, keys, p) <= KeyAt(pq, keys, k);
      } else if k / 2 == x {
        assert KeyAt(pq, keys, p) <= KeyAt(pq, keys, k);
      } else {
        assert KeyAt(pq', keys, k / 2) == KeyAt(pq, keys, k / 2);
      }
    }
    if p >= 2 {
      forall c | 2 <= c <= n && c / 2 == p
        ensures KeyAt(pq', keys, p / 2) <= KeyAt(pq', keys, c)
      {
        assert KeyAt(pq, keys, p / 2) <= KeyAt(pq, keys, p);
        if c != x {
          assert KeyAt(pq, keys, p) <= KeyAt(pq, keys, c);
        }
      }
    }
  }

  /** `_swim` stops with a heap once the fault's parent is not greater. */
  lemma SwimDone(pq: seq<int>, keys: seq<int>, n: int, x: int)
    requires 1 <= x <= n
    requires HeapExceptUp(pq, keys, n, x)
    requires x == 1 || KeyAt(pq, keys, x / 2) <= KeyAt(pq, keys, x)
    ensures HeapOrdered(pq, keys, n)
  {
  }

  /** j is the child of x with the smaller key (the left one on a tie). */
  ghost predicate SmallerChildOf(pq: seq<int>, keys: seq<int>, n: int, x: int, j: int)
  {
    && (j == 2 * x || (j == 2 * x + 1 && j <= n))
    && (j == 2 * x && 2 * x < n ==> KeyAt(pq, keys, j) <= KeyAt(pq, keys, j + 1))
    && (j == 2 * x + 1 ==> KeyAt(pq, keys, j) <= KeyAt(pq, keys, j - 1))
  }

  /** One `_sink` exchange with the smaller child moves the fault one level down. */
  lemma SinkStep(pq: seq<int>, keys: seq<int>, n: int, x: int, j: int)
    requires n < |pq| && 1 <= x && 2 * x <= n
    requires SmallerChildOf(pq, keys, n, x, j)
    requires HeapExceptDown(pq, keys, n, x)
    requires KeyAt(pq, keys, j) <= KeyAt(pq, keys, x)
    ensures HeapExceptDown(Swap(pq, x, j), keys, n, j)
  {
    var pq' := Swap(pq, x, j);
    assert KeyAt(pq', keys, x) == KeyAt(pq, keys, j);
    assert KeyAt(pq', keys, j) == KeyAt(pq, keys, x);
    forall k | 2 <= k <= n && k / 2 != j
      ensures KeyAt(pq', keys, k / 2) <= KeyAt(pq', keys, k)
    {
      if k == j {
      } else if k / 2 == x {
        assert KeyAt(pq', keys, k) == KeyAt(pq, keys, k);
      } else if k == x {
        assert KeyAt(pq, keys, x / 2) <= KeyAt(pq, keys, j);
      } else {
        assert KeyAt(pq', keys, k) == KeyAt(pq, keys, k);
        assert KeyAt(pq', keys, k / 2) == KeyAt(pq, keys, k / 2);
      }
    }
    forall c | 2 <= c <= n && c / 2 == j
      ensures KeyAt(pq', keys, j / 2) <= KeyAt(pq', keys, c)
    {
      assert KeyAt(pq', keys, c) == KeyAt(pq, keys, c);
      assert KeyAt(pq, keys, j) <= KeyAt(pq, keys, c);
    }
  }

  /** `_sink` stops with a heap when the fault has no child or its smaller child is greater. */
  lemma SinkDone(pq: seq<int>, keys: seq<int>, n: int, x: int, j: int)
    requires 1 <= x && n < |pq|
    requires HeapExceptDown(pq, keys, n, x)
    requires 2 * x > n || (SmallerChildOf(pq, keys, n, x, j) && KeyAt(pq, keys, j) > KeyAt(pq, keys, x))
    ensures HeapOrdered(pq, keys, n)
  {
    forall k | 2 <= k <= n && k / 2 == x
      ensures KeyAt(pq, keys, k / 2) <= KeyAt(pq, keys, k)
    {
      assert k == 2 * x || k == 2 * x + 1;
    }
  }

  /** The root of a heap holds a minimum key. */
  lemma {:induction false} RootIsMin(pq: seq<int>, keys: seq<int>, n: int, k: int)
    requires HeapOrdered(pq, keys, n) && 1 <= k <= n
    ensures KeyAt(pq, keys, 1) <= KeyAt(pq, keys, k)
    decreases k
  {
    if k > 1 {
      RootIsMin(pq, keys, n, k / 2);
    }
  }

  /** `insert` leaves a heap whose only possible fault is at the new last position. */
  lemma InsertAtEnd(pq: seq<int>, qp: seq<int>, keys: seq<int>, n: int, i: int, key: int)
    requires Inverse(pq, qp, n) && HeapOrdered(pq, keys, n)
    requires n + 1 < |pq| && |keys| == |qp| && 0 <= i < |qp| && qp[i] == -1
    ensures Inverse(pq[n + 1 := i], qp[i := n + 1], n + 1)
    ensures HeapExceptUp(pq[n + 1 := i], keys[i := key], n + 1, n + 1)
  {
    var pq', keys' := pq[n + 1 := i], keys[i := key];
    forall k | 1 <= k <= n
      ensures KeyAt(pq', keys', k) == KeyAt(pq, keys, k)
    {
      assert pq[k] != i;
    }
  }

  /** Lowering the key of a queued index leaves a fault only at its position. */
  lemma DecreaseAt(pq: seq<int>, qp: seq<int>, keys: seq<int>, n: int, i: int, key: int)
    requires Inverse(pq, qp, n) && HeapOrdered(pq, keys, n) && |keys| == |qp|
    requires 0 <= i < |qp| && qp[i] != -1 && key < keys[i]
    ensures HeapExceptUp(pq, keys[i := key], n, qp[i])
  {
    var keys' := keys[i := key];
    var x := qp[i];
    forall k | 1 <= k <= n && k != x
      ensures KeyAt(pq, keys', k) == KeyAt(pq, keys, k)
    {
      assert pq[k] != i;
    }
    assert KeyAt(pq, keys', x) < KeyAt(pq, keys, x);
    if x >= 2 {
      forall c | 2 <= c <= n && c / 2 == x
        ensures KeyAt(pq, keys', x / 2) <= KeyAt(pq, keys', c)
      {
        assert KeyAt(pq, keys, x / 2) <= KeyAt(pq, keys, x) <= KeyAt(pq, keys, c);
      }
    }
  }

  /** The queue is empty exactly when the heap size is zero. */
  lemma EmptyIffZero(pq: seq<int>, qp: seq<int>, keys: seq<int>, n: int)
    requires Inverse(pq, qp, n) && |keys| == |qp|
    ensures ContentsOf(qp, keys) == map[] <==> n == 0
  {
    if n > 0 {
      assert pq[1] in ContentsOf(qp, keys);
    } else {
      forall i | 0 <= i < |qp| ensures qp[i] == -1 { }
      assert ContentsOf(qp, keys).Keys == {};
    }
  }

  /** Clearing the position of the entry parked just past the heap removes it. */
  lemma DropLast(pq: seq<int>, qp: seq<int>, keys: seq<int>, n: int)
    requires Inverse(pq, qp, n + 1) && 0 <= n && |keys| == |qp|
    ensures Inverse(pq, qp[pq[n + 1] := -1], n)
    ensures Queued(qp[pq[n + 1] := -1]) == Queued(qp) - {pq[n + 1]}
  {
    var mi := pq[n + 1];
    var qp' := qp[mi := -1];
    forall k | 1 <= k <= n ensures 0 <= pq[k] < |qp'| && qp'[pq[k]] == k
    {
      assert pq[k] != mi;
    }
    forall i | 0 <= i < |qp'| && qp'[i] != -1 ensures 1 <= qp'[i] <= n && pq[qp'[i]] == i
    {
      assert qp[i] != n + 1;
    }
  }

  /** Moving the last entry to the root leaves a shorter heap faulty only below the root. */
  lemma LastToRoot(pq: seq<int>, keys: seq<int>, n: int)
    requires HeapOrdered(pq, keys, n) && 1 <= n < |pq|
    ensures HeapExceptDown(Swap(pq, 1, n), keys, n - 1, 1)
  {
    var pq' := Swap(pq, 1, n);
    forall k | 2 <= k <= n - 1 && k / 2 != 1
      ensures KeyAt(pq', keys, k / 2) <= KeyAt(pq', keys, k)
    {
      assert KeyAt(pq', keys, k) == KeyAt(pq, keys, k);
      assert KeyAt(pq', keys, k / 2) == KeyAt(pq, keys, k / 2);
    }
  }

  /** Removing one index from the queued set removes exactly its entry from the contents. */
  lemma RemovedContents(q0: seq<int>, qp: seq<int>, keys: seq<int>, x: int)
    requires Queued(qp) == Queued(q0) - {x}
    ensures ContentsOf(qp, keys) == ContentsOf(q0, keys) - {x}
  {
  }

  /** The minimum-key index sits at the root. */
  lemma RootHoldsMin(pq: seq<int>, qp: seq<int>, keys: seq<int>, n: int)
    requires Inverse(pq, qp, n) && HeapOrdered(pq, keys, n) && |keys| == |qp| && n >= 1
    ensures pq[1] in ContentsOf(qp, keys)
    ensures forall j :: j in ContentsOf(qp, keys) ==> keys[pq[1]] <= ContentsOf(qp, keys)[j]
  {
    forall j | j in ContentsOf(qp, keys)
      ensures keys[pq[1]] <= ContentsOf(qp, keys)[j]
    {
      RootIsMin(pq, keys, n, qp[j]);
    }
  }

  /** The indices at heap positions 1..m. */
  ghost function HeapSet(pq: seq<int>, m: int): set<int>
    requires 0 <= m < |pq|
  {
    set k | 1 <= k <= m :: pq[k]
  }

  lemma {:induction false} HeapSetSize(pq: seq<int>, qp: seq<int>, n: int, m: int)
    requires Inverse(pq, qp, n) && 0 <= m <= n
    ensures |HeapSet(pq, m)| == m
  {
    if m > 0 {
      HeapSetSize(pq, qp, n, m - 1);
      assert HeapSet(pq, m) == HeapSet(pq, m - 1) + {pq[m]};
      assert pq[m] !in HeapSet(pq, m - 1);
    }
  }

  /** A heap of n positions holds exactly n distinct indices, each below the table length. */
  lemma QueueSize(pq: seq<int>, qp: seq<int>, keys: seq<int>, n: int)
    requires Inverse(pq, qp, n) && |keys| == |qp|
    ensures |ContentsOf(qp, keys)| == n
    ensures forall i :: i in ContentsOf(qp, keys) ==> 0 <= i < |qp|
  {
    HeapSetSize(pq, qp, n, n);
    assert ContentsOf(qp, keys).Keys == HeapSet(pq, n);
  }

  class IndexMinPQ {
    const maxN: nat
    const keys: array<int>
    const pq: array<int>
    const qp: array<int>
    var n: nat

    /** Shape of the three arrays: distinct, each of length maxN + 1. */
    ghost predicate Shape()
      reads this
    {
      && pq != qp && keys != pq && keys != qp
      && keys.Length == maxN + 1 && pq.Length == maxN + 1 && qp.Length == maxN + 1
      && n <= maxN
    }

    ghost predicate Valid()
      reads this, keys, pq, qp
    {
      Shape() && Inverse(pq[..], qp[..], n) && HeapOrdered(pq[..], keys[..], n)
    }

    /** The queued indices with their keys. */
    ghost function Contents(): map<int, int>
      reads this, qp, keys
    {
      ContentsOf(qp[..], keys[..])
    }

    constructor (maxN: nat)
      ensures Valid() && this.maxN == maxN && n == 0 && Contents() == map[]
      ensures forall i :: 0 <= i < qp.Length ==> qp[i] == -1
      ensures fresh(keys) && fresh(pq) && fresh(qp)
    {
      this.maxN := maxN;
      keys := new int[maxN + 1](_ => 0);
      pq := new int[maxN + 1](_ => 0);
      qp := new int[maxN + 1](_ => -1);
      n := 0;
      new;
      assert Contents().Keys == {};
    }

    /** `contains`: an index is queued iff its position is not -1. */
    function Contains(i: nat): (r: bool)
      requires Valid() && i < qp.Length
      reads this, keys, pq, qp
      ensures r <==> i in Contents()
    {
      qp[i] != -1
    }

    /** `__bool__`: the queue is truthy iff it holds some index. */
    function NonEmpty(): (r: bool)
      requires Valid()
      reads this, keys, pq, qp
      ensures r <==> Contents() != map[]
    {
      EmptyIffZero(pq[..], qp[..], keys[..], n);
      n > 0
    }

    /** `_greater`: compares the keys at two heap positions. */
    function Greater(i: nat, j: nat): (r: bool)
      requires Shape() && 1 <= i <= n && 1 <= j <= n
      requires 0 <= pq[i] < keys.Length && 0 <= pq[j] < keys.Length
      reads this, keys, pq, qp
      ensures r <==> KeyAt(pq[..], keys[..], i) > KeyAt(pq[..], keys[..], j)
    {
      keys[pq[i]] > keys[pq[j]]
    }

    /** `_exchange`: swaps two heap positions and repairs their table entries. */
    method Exchange(i: nat, j: nat, ghost m: nat)
      requires Shape() && m < pq.Length && 1 <= i <= m && 1 <= j <= m
      requires Inverse(pq[..], qp[..], m)
      modifies pq, qp
      ensures pq[..] == Swap(old(pq[..]), i, j)
      ensures forall k :: 0 <= k < pq.Length && k != i && k != j ==> pq[k] == old(pq[k])
      ensures Inverse(pq[..], qp[..], m)
      ensures Queued(qp[..]) == Queued(old(qp[..]))
    {
      SwapInverse(pq[..], qp[..], m, i, j);
      var a, b := pq[i], pq[j];
      pq[i] := b;
      pq[j] := a;
      qp[pq[i]] := i;
      qp[pq[j]] := j;
    }

    /** `_swim`: moves the entry at position k0 up until its parent is not greater. */
    method Swim(k0: nat)
      requires Shape() && 1 <= k0 <= n
      requires Inverse(pq[..], qp[..], n) && HeapExceptUp(pq[..], keys[..], n, k0)
      modifies pq, qp
      ensures Valid()
      ensures Queued(qp[..]) == Queued(old(qp[..]))
    {
      var k := k0;
      while k > 1 && Greater(k / 2, k)
        invariant 1 <= k <= n
        invariant Inverse(pq[..], qp[..], n) && HeapExceptUp(pq[..], keys[..], n, k)
        invariant Queued(qp[..]) == Queued(old(qp[..]))
        decreases k
      {
        SwimStep(pq[..], keys[..], n, k);
        Exchange(k, k / 2, n);
        k := k / 2;
      }
      SwimDone(pq[..], keys[..], n, k);
    }

    /** The child of position k that `_sink` compares against. */
    function SmallerChild(k: nat): (j: nat)
      requires Shape() && 1 <= k && 2 * k <= n
      requires forall p :: 1 <= p <= n ==> 0 <= pq[p] < keys.Length
      reads this, keys, pq, qp
      ensures SmallerChildOf(pq[..], keys[..], n, k, j)
    {
      if 2 * k < n && Greater(2 * k, 2 * k + 1) then 2 * k + 1 else 2 * k
    }

    /** `_sink`: moves the entry at position k0 down below its smaller child while that
        child is not greater. Positions above n (up to the bijection size m) are untouched. */
    method Sink(k0: nat, ghost m: nat)
      requires Shape() && 1 <= k0 && n <= m < pq.Length
      requires Inverse(pq[..], qp[..], m) && HeapExceptDown(pq[..], keys[..], n, k0)
      modifies pq, qp
      ensures Inverse(pq[..], qp[..], m) && HeapOrdered(pq[..], keys[..], n)
      ensures n < m ==> pq[m] == old(pq[m])
      ensures Queued(qp[..]) == Queued(old(qp[..]))
    {
      var k := k0;
      while 2 * k <= n
        invariant 1 <= k
        invariant Inverse(pq[..], qp[..], m) && HeapExceptDown(pq[..], keys[..], n, k)
        invariant n < m ==> pq[m] == old(pq[m])
        invariant Queued(qp[..]) == Queued(old(qp[..]))
        decreases n - k
      {
        var j := SmallerChild(k);
        if Greater(j, k) {
          SinkDone(pq[..], keys[..], n, k, j);
          return;
        }
        SinkStep(pq[..], keys[..], n, k, j);
        Exchange(k, j, m);
        k := j;
      }
      SinkDone(pq[..], keys[..], n, k, 0);
    }

    /** `insert`: the source does not reject a queued index, so the caller must not pass one. */
    method Insert(i: nat, key: int)
      requires Valid() && i < qp.Length && i !in Contents() && n < maxN
      modifies this, keys, pq, qp
      ensures Valid() && n == old(n) + 1
      ensures Contents() == old(Contents())[i := key]
    {
      InsertAtEnd(pq[..], qp[..], keys[..], n, i, key);
      ghost var before := Contents();
      n := n + 1;
      pq[n] := i;
      qp[i] := n;
      keys[i] := key;
      assert Contents() == before[i := key];
      Swim(n);
      assert Contents() == before[i := key];
    }

    /** `del_min`: removes and returns an index of minimum key. */
    method DelMin() returns (r: Result<nat, PQError>)
      requires Valid()
      modifies this, pq, qp
      ensures Valid()
      ensures old(Contents()) == map[] ==> r == Err(HeapEmpty) && Contents() == old(Contents())
      ensures old(Contents()) != map[] ==>
                && r.Ok? && r.value in old(Contents())
                && (forall j :: j in old(Contents()) ==> old(Contents())[r.value] <= old(Contents())[j])
                && Contents() == old(Contents()) - {r.value}
                && n == old(n) - 1
    {
      EmptyIffZero(pq[..], qp[..], keys[..], n);
      if n == 0 {
        return Err(HeapEmpty);
      }
      var minIndex := RemoveRoot();
      r := Ok(minIndex);
    }

    /** The non-empty path of `del_min`: the root is exchanged with the last entry, the
        heap shrinks by one, the new root sinks and the old root's position is cleared. */
    method RemoveRoot() returns (minIndex: nat)
      requires Valid() && n > 0
      modifies this, pq, qp
      ensures Valid() && n == old(n) - 1
      ensures minIndex in old(Contents())
      ensures forall j :: j in old(Contents()) ==> old(Contents())[minIndex] <= old(Contents())[j]
      ensures Contents() == old(Contents()) - {minIndex}
    {
      ghost var q0 := qp[..];
      RootHoldsMin(pq[..], q0, keys[..], n);
      LastToRoot(pq[..], keys[..], n);
      minIndex := pq[1];
      Exchange(1, n, n);
      assert pq[n] == minIndex by {
        assert pq[..][n] == Swap(old(pq[..]), 1, n)[n];
      }
      n := n - 1;
      SinkAndClear(minIndex);
      RemovedContents(q0, qp[..], keys[..], minIndex);
    }

    /** The tail of `del_min`: sinks the new root, then clears the position of the index
        parked just past the shrunken heap. */
    method SinkAndClear(minIndex: nat)
      requires Shape() && n < maxN
      requires Inverse(pq[..], qp[..], n + 1) && HeapExceptDown(pq[..], keys[..], n, 1)
      requires pq[n + 1] == minIndex
      modifies pq, qp
      ensures Valid()
      ensures Queued(qp[..]) == Queued(old(qp[..])) - {minIndex}
    {
      Sink(1, n + 1);
      ghost var p2, q2 := pq[..], qp[..];
      assert p2[n + 1] == minIndex;
      DropLast(p2, q2, keys[..], n);
      qp[minIndex] := -1;
      assert pq[..] == p2;
      assert qp[..] == q2[minIndex := -1];
    }

    /** `decrease_key`: lowers the key of a queued index; a key that is not strictly
        smaller is rejected and nothing changes. */
    method DecreaseKey(i: nat, key: int) returns (r: Outcome<PQError>)
      requires Valid() && i < qp.Length
      modifies keys, pq, qp
      ensures Valid()
      ensures i !in old(Contents()) ==> r == Fail(NotContained) && unchanged(keys, pq, qp)
      ensures i in old(Contents()) && key >= old(Contents())[i] ==> r == Fail(KeyNotSmaller) && unchanged(keys, pq, qp)
      ensures i in old(Contents()) && key < old(Contents())[i] ==> r == Pass && Contents() == old(Contents())[i := key]
    {
      if qp[i] == -1 {
        return Fail(NotContained);
      }
      if key < keys[i] {
        DecreaseAt(pq[..], qp[..], keys[..], n, i, key);
        ghost var before := Contents();
        keys[i] := key;
        assert Contents() == before[i := key];
        Swim(qp[i]);
        assert Contents() == before[i := key];
        r := Pass;
      } else {
        r := Fail(KeyNotSmaller);
      }
    }
  }
}
