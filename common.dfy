/** Small failure-carrying datatypes shared by every component. */
module Common {

  datatype Option<+T> = None | Some(value: T)

  /** The outcome of an operation that raises on bad input instead of returning. */
  datatype Result<+T, +E> = Ok(value: T) | Err(error: E)

  /** Success or a named failure, for operations that return nothing. */
  datatype Outcome<+E> = Pass | Fail(error: E)

  /** The indices at which a boolean sequence holds true, as a set. */
  function TrueSet(m: seq<bool>): set<nat>
  {
    set v: nat | v < |m| && m[v]
  }

  /** At most |m| indices hold, and when that many do, every index holds. */
  lemma {:induction false} TrueSetSize(m: seq<bool>)
    ensures |TrueSet(m)| <= |m|
    ensures |TrueSet(m)| == |m| ==> forall k :: 0 <= k < |m| ==> m[k]
    decreases |m|
  {
    if m != [] {
      var m' := m[..|m| - 1];
      TrueSetSize(m');
      assert TrueSet(m) == TrueSet(m') + (if m[|m| - 1] then {|m| - 1} else {});
      assert |m| - 1 !in TrueSet(m');
      assert forall k :: 0 <= k < |m'| ==> m[k] == m'[k];
    }
  }

  /** Setting one more index adds exactly that index. */
  lemma TrueSetMark(m: seq<bool>, x: nat)
    requires x < |m| && !m[x]
    ensures TrueSet(m[x := true]) == TrueSet(m) + {x}
    ensures |TrueSet(m[x := true])| == |TrueSet(m)| + 1
  {
    assert TrueSet(m[x := true]) == TrueSet(m) + {x};
  }

  /** A sequence without repeated elements. */
  ghost predicate Distinct<T>(s: seq<T>)
  {
    forall i, j :: 0 <= i < j < |s| ==> s[i] != s[j]
  }

  /** `s` read back to front. */
  function Reverse<T>(s: seq<T>): (r: seq<T>)
    ensures |r| == |s|
    ensures forall i :: 0 <= i < |s| ==> r[i] == s[|s| - 1 - i]
  {
    if s == [] then [] else [s[|s| - 1]] + Reverse(s[..|s| - 1])
  }

  /** Reversal keeps the elements, and keeps them distinct. */
  lemma ReverseKeeps<T>(s: seq<T>)
    ensures forall x :: x in Reverse(s) <==> x in s
    ensures Distinct(s) ==> Distinct(Reverse(s))
  {
    var r := Reverse(s);
    forall x
      ensures x in r <==> x in s
    {
      if x in s {
        var k :| 0 <= k < |s| && s[k] == x;
        assert r[|s| - 1 - k] == x;
      }
    }
  }

  /** The first position of x in s. */
  function IndexOf<T(==)>(s: seq<T>, x: T): (i: nat)
    requires x in s
    ensures i < |s| && s[i] == x && x !in s[..i]
  {
    if s[0] == x then 0 else 1 + IndexOf(s[1..], x)
  }

  /** A distinct sequence has as many elements as its set. */
  lemma {:induction false} DistinctCardinality<T>(s: seq<T>)
    requires Distinct(s)
    ensures |set x | x in s| == |s|
  {
    if s != [] {
      var t := s[..|s| - 1];
      assert Distinct(t);
      DistinctCardinality(t);
      assert (set x | x in s) == (set x | x in t) + {s[|s| - 1]};
      assert s[|s| - 1] !in (set x | x in t);
    }
  }

  /** A set of naturals below m has at most m elements. */
  lemma {:induction false} SubsetBound(s: set<int>, m: nat)
    requires forall x :: x in s ==> 0 <= x < m
    ensures |s| <= m
  {
    if m == 0 {
      assert forall x :: x !in s;
      assert s == {};
    } else {
      SubsetBound(s - {m - 1}, m - 1);
    }
  }
}
