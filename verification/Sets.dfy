/** Finite sets: members, sizes. */
module Sets {
  lemma SomeMember(s: set<int>)
    ensures s == {} || exists v :: v in s
  {
    if !exists v :: v in s {
      assert s == {};
    }
  }

  /** The numbers 1 to n. */
  function UpTo(n: nat): (s: set<int>)
    ensures forall v :: v in s <==> 1 <= v <= n
    ensures |s| == n
  {
    if n == 0 then {} else UpTo(n - 1) + {n}
  }

  lemma SubsetSize<T>(a: set<T>, b: set<T>)
    requires a <= b
    ensures |a| <= |b|
  {
    assert b == a + (b - a);
  }

  predicate Distinct<T(==)>(s: seq<T>) {
    forall i, j :: 0 <= i < j < |s| ==> s[i] != s[j]
  }

  function Members<T>(s: seq<T>): set<T> {
    set x | x in s
  }

  /** A list without repetition is as long as its set is large. */
  lemma {:induction false} DistinctSize<T>(s: seq<T>)
    requires Distinct(s)
    ensures |Members(s)| == |s|
  {
    if s != [] {
      DistinctSize(s[1..]);
      assert s[0] !in Members(s[1..]);
      assert Members(s) == {s[0]} + Members(s[1..]);
    }
  }
}
