/** Comparator-driven stable sorting: what slices.SortStableFunc promises its callers.
    StableSort is the reference; Characterised says it is the only list a stable sort may return. */
module Sorting {

  /** A comparator in the style of cmp.Compare: antisymmetric in sign and transitive. */
  ghost predicate TotalPreorder<T(!new)>(compare: (T, T) -> int) {
    && (forall x, y {:trigger compare(x, y)} :: compare(x, y) < 0 <==> compare(y, x) > 0)
    && (forall x, y, z :: Chains(compare, x, y, z))
  }

  /** One instance of transitivity; naming it keeps the quantifier above from unfolding on its own. */
  ghost predicate Chains<T(!new)>(compare: (T, T) -> int, x: T, y: T, z: T) {
    compare(x, y) <= 0 && compare(y, z) <= 0 ==> compare(x, z) <= 0
  }

  ghost predicate Sorted<T>(compare: (T, T) -> int, s: seq<T>) {
    forall i, j :: 0 <= i < j < |s| ==> compare(s[i], s[j]) <= 0
  }

  function Filter<T>(keep: T -> bool, s: seq<T>): seq<T> {
    if s == [] then [] else (if keep(s[0]) then [s[0]] else []) + Filter(keep, s[1..])
  }

  /** The elements of s that tie with x, in the order they occur. */
  function Ties<T>(compare: (T, T) -> int, x: T, s: seq<T>): seq<T> {
    Filter(y => compare(x, y) == 0, s)
  }

  function Insert<T>(compare: (T, T) -> int, x: T, s: seq<T>): seq<T> {
    if s == [] || compare(x, s[0]) <= 0 then [x] + s else [s[0]] + Insert(compare, x, s[1..])
  }

  function StableSort<T>(compare: (T, T) -> int, s: seq<T>): seq<T> {
    if s == [] then [] else Insert(compare, s[0], StableSort(compare, s[1..]))
  }

  /** Order by first; ties by second. */
  function Lexicographic<T>(first: (T, T) -> int, second: (T, T) -> int): (T, T) -> int {
    (x, y) => if first(x, y) != 0 then first(x, y) else second(x, y)
  }

  function Compare(x: int, y: int): int {
    if x < y then -1 else if x > y then 1 else 0
  }

  /** Byte-wise string comparison. */
  function CompareStrings(x: string, y: string): int {
    if x == [] then (if y == [] then 0 else -1)
    else if y == [] then 1
    else if x[0] != y[0] then Compare(x[0] as int, y[0] as int)
    else CompareStrings(x[1..], y[1..])
  }

  lemma {:induction false} CompareStringsLaws(x: string, y: string, z: string)
    ensures CompareStrings(x, y) < 0 <==> CompareStrings(y, x) > 0
    ensures CompareStrings(x, y) <= 0 && CompareStrings(y, z) <= 0 ==> CompareStrings(x, z) <= 0
    ensures CompareStrings(x, y) == 0 <==> x == y
  {
    if x != [] && y != [] {
      assert x == y <==> x[0] == y[0] && x[1..] == y[1..] by {
        assert x == [x[0]] + x[1..] && y == [y[0]] + y[1..];
      }
      CompareStringsLaws(x[1..], y[1..], if z == [] then [] else z[1..]);
    }
  }

  /** x is a prefix of y, or has the smaller character where they first differ. */
  ghost predicate AtMost(x: string, y: string) {
    x <= y || exists i :: 0 <= i < |x| && i < |y| && x[..i] == y[..i] && x[i] < y[i]
  }

  lemma AtMostCons(x: string, y: string)
    requires x != [] && y != []
    ensures AtMost(x, y) <==> x[0] < y[0] || (x[0] == y[0] && AtMost(x[1..], y[1..]))
  {
    if x[0] < y[0] { assert x[..0] == y[..0]; }
    if x[0] == y[0] {
      assert x == [x[0]] + x[1..] && y == [y[0]] + y[1..];
      if i :| 0 <= i < |x| && i < |y| && x[..i] == y[..i] && x[i] < y[i] {
        assert x[1..][..i - 1] == x[1..i] == x[..i][1..] && y[1..][..i - 1] == y[1..i] == y[..i][1..];
        assert x[1..][i - 1] < y[1..][i - 1];
      }
      if i :| 0 <= i < |x[1..]| && i < |y[1..]| && x[1..][..i] == y[1..][..i] && x[1..][i] < y[1..][i] {
        assert x[..i + 1] == [x[0]] + x[1..][..i] && y[..i + 1] == [y[0]] + y[1..][..i];
        assert x[i + 1] < y[i + 1];
      }
    } else if i :| 0 <= i < |x| && i < |y| && x[..i] == y[..i] && x[i] < y[i] {
      assert i > 0 ==> x[..i][0] == y[..i][0];
    }
  }

  lemma {:induction false} CompareStringsIff(x: string, y: string)
    ensures CompareStrings(x, y) <= 0 <==> AtMost(x, y)
  {
    if x != [] && y != [] {
      AtMostCons(x, y);
      CompareStringsIff(x[1..], y[1..]);
    }
  }

  function Ascending<T>(key: T -> int): (T, T) -> int {
    (x, y) => Compare(key(x), key(y))
  }

  function Descending<T>(key: T -> int): (T, T) -> int {
    (x, y) => Compare(key(y), key(x))
  }

  lemma AscendingIsTotal<T(!new)>(key: T -> int)
    ensures TotalPreorder(Ascending(key))
  {
  }

  lemma DescendingIsTotal<T(!new)>(key: T -> int)
    ensures TotalPreorder(Descending(key))
  {
  }

  lemma LexicographicIsTotal<T(!new)>(first: (T, T) -> int, second: (T, T) -> int)
    requires TotalPreorder(first) && TotalPreorder(second)
    ensures TotalPreorder(Lexicographic(first, second))
  {
    var c := Lexicographic(first, second);
    forall x, y, z ensures Chains(c, x, y, z) {
      assert Chains(first, x, y, z) && Chains(first, y, z, x) && Chains(first, z, x, y);
      assert Chains(second, x, y, z);
    }
  }

  // ----- the sort is a sorted, stable permutation -----

  lemma {:induction false} InsertMembers<T>(compare: (T, T) -> int, x: T, s: seq<T>)
    ensures multiset(Insert(compare, x, s)) == multiset{x} + multiset(s)
    ensures |Insert(compare, x, s)| == |s| + 1
  {
    if s != [] && compare(x, s[0]) > 0 {
      InsertMembers(compare, x, s[1..]);
      assert s == [s[0]] + s[1..];
    }
  }

  lemma {:induction false} SortMembers<T>(compare: (T, T) -> int, s: seq<T>)
    ensures multiset(StableSort(compare, s)) == multiset(s)
    ensures |StableSort(compare, s)| == |s|
  {
    if s != [] {
      SortMembers(compare, s[1..]);
      InsertMembers(compare, s[0], StableSort(compare, s[1..]));
      assert s == [s[0]] + s[1..];
    }
  }

  lemma {:induction false} InsertSorted<T(!new)>(compare: (T, T) -> int, x: T, s: seq<T>)
    requires TotalPreorder(compare) && Sorted(compare, s)
    ensures Sorted(compare, Insert(compare, x, s))
  {
    if s == [] {
    } else if compare(x, s[0]) <= 0 {
      forall j | 0 <= j < |s| ensures compare(x, s[j]) <= 0 {
        if j > 0 { assert compare(s[0], s[j]) <= 0 && Chains(compare, x, s[0], s[j]); }
      }
    } else {
      var r := Insert(compare, x, s[1..]);
      InsertSorted(compare, x, s[1..]);
      InsertMembers(compare, x, s[1..]);
      forall j | 0 <= j < |r| ensures compare(s[0], r[j]) <= 0 {
        assert r[j] in multiset(r);
        if r[j] != x {
          assert r[j] in s[1..];
          var k :| 1 <= k < |s| && s[k] == r[j];
        } else {
          assert compare(s[0], x) < 0;
        }
      }
    }
  }

  lemma {:induction false} SortSorted<T(!new)>(compare: (T, T) -> int, s: seq<T>)
    requires TotalPreorder(compare)
    ensures Sorted(compare, StableSort(compare, s))
  {
    if s != [] {
      SortSorted(compare, s[1..]);
      InsertSorted(compare, s[0], StableSort(compare, s[1..]));
    }
  }

  lemma TiesOfCons<T>(compare: (T, T) -> int, probe: T, h: T, t: seq<T>)
    ensures Ties(compare, probe, [h] + t) == (if compare(probe, h) == 0 then [h] else []) + Ties(compare, probe, t)
  {
    assert ([h] + t)[1..] == t;
  }

  lemma {:induction false} InsertTies<T(!new)>(compare: (T, T) -> int, x: T, s: seq<T>, probe: T)
    requires TotalPreorder(compare)
    ensures Ties(compare, probe, Insert(compare, x, s)) == Ties(compare, probe, [x] + s)
  {
    if s != [] && compare(x, s[0]) > 0 {
      var h, r := s[0], s[1..];
      assert s == [h] + r;
      InsertTies(compare, x, r, probe);
      TiesOfCons(compare, probe, h, Insert(compare, x, r));
      TiesOfCons(compare, probe, x, r);
      TiesOfCons(compare, probe, h, r);
      TiesOfCons(compare, probe, x, s);
      // x and s[0] differ, so at most one of them ties with probe.
      assert Chains(compare, x, probe, h);
    }
  }

  lemma {:induction false} SortTies<T(!new)>(compare: (T, T) -> int, s: seq<T>, probe: T)
    requires TotalPreorder(compare)
    ensures Ties(compare, probe, StableSort(compare, s)) == Ties(compare, probe, s)
  {
    if s != [] {
      var rest := StableSort(compare, s[1..]);
      SortTies(compare, s[1..], probe);
      InsertTies(compare, s[0], rest, probe);
      assert ([s[0]] + rest)[1..] == rest;
    }
  }

  lemma {:induction false} FilterMember<T>(keep: T -> bool, s: seq<T>, x: T)
    ensures x in Filter(keep, s) <==> x in s && keep(x)
  {
    if s != [] {
      FilterMember(keep, s[1..], x);
      assert s == [s[0]] + s[1..];
    }
  }

  lemma HeadTies<T(!new)>(compare: (T, T) -> int, s: seq<T>, t: seq<T>)
    requires s != [] && compare(s[0], s[0]) == 0
    requires Ties(compare, s[0], s) == Ties(compare, s[0], t)
    ensures t != []
  {
    assert Ties(compare, s[0], s)[0] == s[0];
  }

  /** Two sorted lists with the same ties, class by class, are the same list. */
  lemma {:induction false} SortedTiesUnique<T(!new)>(compare: (T, T) -> int, s: seq<T>, t: seq<T>)
    requires TotalPreorder(compare) && Sorted(compare, s) && Sorted(compare, t)
    requires forall x :: Ties(compare, x, s) == Ties(compare, x, t)
    ensures s == t
  {
    assert forall x :: compare(x, x) == 0;
    if s == [] || t == [] {
      if s != [] { HeadTies(compare, s, t); }
      if t != [] { HeadTies(compare, t, s); }
    } else {
      var x, y := s[0], t[0];
      assert Ties(compare, x, s) == Ties(compare, x, t);
      assert Ties(compare, y, s) == Ties(compare, y, t);
      FilterMember(z => compare(x, z) == 0, t, x);
      FilterMember(z => compare(y, z) == 0, s, y);
      assert x in t && y in s;
      assert compare(x, y) <= 0 && compare(y, x) <= 0;
      assert Ties(compare, x, s)[0] == x && Ties(compare, x, t)[0] == y;
      forall z ensures Ties(compare, z, s[1..]) == Ties(compare, z, t[1..]) {
        var lead := if compare(z, x) == 0 then [x] else [];
        assert Ties(compare, z, s) == lead + Ties(compare, z, s[1..]);
        assert Ties(compare, z, t) == lead + Ties(compare, z, t[1..]);
        assert Ties(compare, z, s[1..]) == Ties(compare, z, s)[|lead|..];
        assert Ties(compare, z, t[1..]) == Ties(compare, z, t)[|lead|..];
      }
      SortedTiesUnique(compare, s[1..], t[1..]);
      assert s == [x] + s[1..] && t == [y] + t[1..];
    }
  }

  /** StableSort is exactly the stable sort: the only sorted list that keeps every group of ties in order. */
  lemma Characterised<T(!new)>(compare: (T, T) -> int, s: seq<T>, t: seq<T>)
    requires TotalPreorder(compare)
    ensures t == StableSort(compare, s)
       <==> Sorted(compare, t) && forall x :: Ties(compare, x, t) == Ties(compare, x, s)
  {
    var u := StableSort(compare, s);
    SortSorted(compare, s);
    forall x ensures Ties(compare, x, u) == Ties(compare, x, s) { SortTies(compare, s, x); }
    if Sorted(compare, t) && forall x :: Ties(compare, x, t) == Ties(compare, x, s) {
      SortedTiesUnique(compare, t, u);
    }
  }

  lemma {:induction false} FilterOfSorted<T>(compare: (T, T) -> int, keep: T -> bool, s: seq<T>)
    requires Sorted(compare, s)
    ensures Sorted(compare, Filter(keep, s))
  {
    if s != [] {
      var rest := Filter(keep, s[1..]);
      FilterOfSorted(compare, keep, s[1..]);
      if keep(s[0]) {
        forall j | 0 <= j < |rest| ensures compare(s[0], rest[j]) <= 0 {
          FilterMember(keep, s[1..], rest[j]);
          var k :| 0 <= k < |s[1..]| && s[1..][k] == rest[j];
          assert s[k + 1] == rest[j];
        }
      }
    }
  }

  lemma TiesOfFilter<T>(compare: (T, T) -> int, keep: T -> bool, x: T, s: seq<T>)
    ensures Ties(compare, x, Filter(keep, s)) == Filter(keep, Ties(compare, x, s))
  {
    var ties := (y: T) => compare(x, y) == 0;
    FilterFilter(ties, keep, s);
    FilterFilter(keep, ties, s);
    FilterSame((y: T) => ties(y) && keep(y), (y: T) => keep(y) && ties(y), s);
  }

  /** Filtering and stable sorting commute. */
  lemma FilterOfSort<T(!new)>(compare: (T, T) -> int, keep: T -> bool, s: seq<T>)
    requires TotalPreorder(compare)
    ensures Filter(keep, StableSort(compare, s)) == StableSort(compare, Filter(keep, s))
  {
    SortSorted(compare, s);
    FilterOfSorted(compare, keep, StableSort(compare, s));
    forall x
      ensures Ties(compare, x, Filter(keep, StableSort(compare, s))) == Ties(compare, x, Filter(keep, s))
    {
      TiesOfFilter(compare, keep, x, StableSort(compare, s));
      TiesOfFilter(compare, keep, x, s);
      SortTies(compare, s, x);
    }
    Characterised(compare, Filter(keep, s), Filter(keep, StableSort(compare, s)));
  }

  /** Sorting a sorted list changes nothing. */
  lemma SortOfSorted<T(!new)>(compare: (T, T) -> int, s: seq<T>)
    requires TotalPreorder(compare) && Sorted(compare, s)
    ensures StableSort(compare, s) == s
  {
    Characterised(compare, s, s);
  }

  lemma {:induction false} FilterConcat<T>(keep: T -> bool, s: seq<T>, t: seq<T>)
    ensures Filter(keep, s + t) == Filter(keep, s) + Filter(keep, t)
  {
    if s == [] {
      assert s + t == t;
    } else {
      var lead := if keep(s[0]) then [s[0]] else [];
      assert (s + t)[1..] == s[1..] + t && (s + t)[0] == s[0];
      FilterConcat(keep, s[1..], t);
      assert lead + (Filter(keep, s[1..]) + Filter(keep, t)) == (lead + Filter(keep, s[1..])) + Filter(keep, t);
    }
  }

  lemma {:induction false} FilterFilter<T>(keep: T -> bool, also: T -> bool, s: seq<T>)
    ensures Filter(keep, Filter(also, s)) == Filter(x => keep(x) && also(x), s)
  {
    if s != [] {
      FilterFilter(keep, also, s[1..]);
      var lead := if also(s[0]) then [s[0]] else [];
      FilterConcat(keep, lead, Filter(also, s[1..]));
    }
  }

  /** A narrower filter makes a wider one before it superfluous. */
  lemma {:induction false} FilterNarrower<T>(keep: T -> bool, also: T -> bool, s: seq<T>)
    requires forall x :: x in s && keep(x) ==> also(x)
    ensures Filter(keep, Filter(also, s)) == Filter(keep, s)
  {
    if s != [] {
      assert s[0] in s;
      FilterNarrower(keep, also, s[1..]);
      FilterConcat(keep, if also(s[0]) then [s[0]] else [], Filter(also, s[1..]));
    }
  }

  lemma {:induction false} FilterSame<T>(keep: T -> bool, also: T -> bool, s: seq<T>)
    requires forall x :: x in s ==> keep(x) == also(x)
    ensures Filter(keep, s) == Filter(also, s)
  {
    if s != [] {
      assert s[0] in s;
      FilterSame(keep, also, s[1..]);
    }
  }

  lemma {:induction false} FilterAll<T>(keep: T -> bool, s: seq<T>)
    requires forall x :: x in s ==> keep(x)
    ensures Filter(keep, s) == s
  {
    if s != [] {
      assert s[0] in s;
      FilterAll(keep, s[1..]);
      assert s == [s[0]] + s[1..];
    }
  }

  /** What a filter keeps and what it drops add up to the whole. */
  lemma {:induction false} FilterSplit<T>(keep: T -> bool, s: seq<T>)
    ensures |Filter(keep, s)| + |Filter(x => !keep(x), s)| == |s|
  {
    if s != [] {
      FilterSplit(keep, s[1..]);
    }
  }

  /** What a filter keeps does not depend on the order of its input. */
  lemma {:induction false} FilterMembers<T>(keep: T -> bool, s: seq<T>, x: T)
    ensures multiset(Filter(keep, s))[x] == if keep(x) then multiset(s)[x] else 0
  {
    if s != [] {
      FilterMembers(keep, s[1..], x);
      assert s == [s[0]] + s[1..];
    }
  }

  lemma SameCounts<T>(a: multiset<T>, b: multiset<T>)
    requires forall x :: a[x] == b[x]
    ensures a == b
  {
  }

  lemma FilterOfPermutation<T>(keep: T -> bool, s: seq<T>, t: seq<T>)
    requires multiset(s) == multiset(t)
    ensures multiset(Filter(keep, s)) == multiset(Filter(keep, t))
    ensures |Filter(keep, s)| == |Filter(keep, t)|
  {
    var a, b := multiset(Filter(keep, s)), multiset(Filter(keep, t));
    forall x ensures a[x] == b[x] {
      FilterMembers(keep, s, x);
      FilterMembers(keep, t, x);
    }
    SameCounts(a, b);
    assert |a| == |Filter(keep, s)| && |b| == |Filter(keep, t)|;
  }

  // ----- chained stable sorts -----

  /** When x comes no later than everything in s under second, inserting by first alone is inserting
      by first with second as the tie-breaker. */
  lemma {:induction false} InsertRefines<T(!new)>(first: (T, T) -> int, second: (T, T) -> int, x: T, s: seq<T>)
    requires forall y :: y in s ==> second(x, y) <= 0
    ensures Insert(first, x, s) == Insert(Lexicographic(first, second), x, s)
  {
    if s != [] {
      assert s[0] in s;
      InsertRefines(first, second, x, s[1..]);
    }
  }

  /** Elements that do not tie may be inserted in either order. */
  lemma {:induction false} InsertCommutes<T(!new)>(compare: (T, T) -> int, x: T, y: T, s: seq<T>)
    requires TotalPreorder(compare) && compare(x, y) != 0
    ensures Insert(compare, x, Insert(compare, y, s)) == Insert(compare, y, Insert(compare, x, s))
  {
    assert compare(y, x) != 0;
    if s == [] {
    } else {
      var h, r := s[0], s[1..];
      InsertCommutes(compare, x, y, r);
      assert ([x] + s)[1..] == s && ([y] + s)[1..] == s;
      var ix, iy := Insert(compare, x, r), Insert(compare, y, r);
      assert ([h] + ix)[1..] == ix && ([h] + iy)[1..] == iy;
      assert Chains(compare, x, h, y) && Chains(compare, y, h, x);
      assert Chains(compare, x, y, h) && Chains(compare, y, x, h);
    }
  }

  lemma FrontBelowSorted<T(!new)>(first: (T, T) -> int, second: (T, T) -> int, x: T, s: seq<T>)
    requires TotalPreorder(second) && Sorted(second, s) && (s == [] || second(x, s[0]) <= 0)
    ensures forall y :: y in StableSort(first, s) ==> second(x, y) <= 0
  {
    SortMembers(first, s);
    forall y | y in StableSort(first, s) ensures second(x, y) <= 0 {
      assert y in multiset(s);
      var k :| 0 <= k < |s| && s[k] == y;
      if k > 0 { assert second(s[0], s[k]) <= 0 && Chains(second, x, s[0], s[k]); }
    }
  }

  lemma {:induction false} SortAfterInsert<T(!new)>(first: (T, T) -> int, second: (T, T) -> int, x: T, s: seq<T>)
    requires TotalPreorder(first) && TotalPreorder(second) && Sorted(second, s)
    ensures StableSort(first, Insert(second, x, s)) == Insert(Lexicographic(first, second), x, StableSort(first, s))
  {
    var both := Lexicographic(first, second);
    LexicographicIsTotal(first, second);
    if s == [] || second(x, s[0]) <= 0 {
      assert ([x] + s)[1..] == s;
      FrontBelowSorted(first, second, x, s);
      InsertRefines(first, second, x, StableSort(first, s));
    } else {
      var h, r := s[0], s[1..];
      var inner := Insert(second, x, r);
      assert ([h] + inner)[1..] == inner;
      SortAfterInsert(first, second, x, r);
      var sorted := StableSort(first, r);
      HeadBelowSorted(first, second, s);
      HeadBelowInserted(both, second, h, x, sorted);
      InsertRefines(first, second, h, Insert(both, x, sorted));
      InsertRefines(first, second, h, sorted);
      InsertCommutes(both, x, h, sorted);
    }
  }

  lemma HeadBelowSorted<T(!new)>(first: (T, T) -> int, second: (T, T) -> int, s: seq<T>)
    requires s != [] && Sorted(second, s)
    ensures forall y :: y in StableSort(first, s[1..]) ==> second(s[0], y) <= 0
  {
    SortMembers(first, s[1..]);
    forall y | y in StableSort(first, s[1..]) ensures second(s[0], y) <= 0 {
      assert y in multiset(s[1..]);
      var k :| 1 <= k < |s| && s[k] == y;
    }
  }

  lemma HeadBelowInserted<T(!new)>(both: (T, T) -> int, second: (T, T) -> int, h: T, x: T, s: seq<T>)
    requires second(h, x) <= 0 && forall y :: y in s ==> second(h, y) <= 0
    ensures forall y :: y in Insert(both, x, s) ==> second(h, y) <= 0
  {
    InsertMembers(both, x, s);
    forall y | y in Insert(both, x, s) ensures second(h, y) <= 0 {
      assert y in multiset(Insert(both, x, s));
      if y != x { assert y in multiset(s); }
    }
  }

  /** Sorting by second and then stably by first is one sort by first with ties broken by second. */
  lemma {:induction false} ChainedSorts<T(!new)>(first: (T, T) -> int, second: (T, T) -> int, s: seq<T>)
    requires TotalPreorder(first) && TotalPreorder(second)
    ensures StableSort(first, StableSort(second, s)) == StableSort(Lexicographic(first, second), s)
  {
    if s != [] {
      ChainedSorts(first, second, s[1..]);
      SortSorted(second, s[1..]);
      SortAfterInsert(first, second, s[0], StableSort(second, s[1..]));
    }
  }

  // ----- canonical order -----

  ghost predicate TiesAreEqual<T(!new)>(compare: (T, T) -> int, s: seq<T>) {
    forall x, y :: x in s && y in s && compare(x, y) == 0 ==> x == y
  }

  lemma SortedTail<T(!new)>(compare: (T, T) -> int, s: seq<T>)
    requires s != [] && Sorted(compare, s)
    ensures Sorted(compare, s[1..])
    ensures TiesAreEqual(compare, s) ==> TiesAreEqual(compare, s[1..])
  {
    assert forall x :: x in s[1..] ==> x in s;
  }

  /** When no two different members of s tie, the sort forgets the order its input came in. */
  lemma SortCanonical<T(!new)>(compare: (T, T) -> int, s: seq<T>, t: seq<T>)
    requires TotalPreorder(compare) && multiset(s) == multiset(t)
    requires TiesAreEqual(compare, s)
    ensures StableSort(compare, s) == StableSort(compare, t)
  {
    var u, v := StableSort(compare, s), StableSort(compare, t);
    SortSorted(compare, s);
    SortSorted(compare, t);
    SortMembers(compare, s);
    SortMembers(compare, t);
    assert TiesAreEqual(compare, u) by {
      forall x | x in u ensures x in s { assert x in multiset(u); }
    }
    SortedSameMembers(compare, u, v);
  }

  lemma TailMembers<T>(s: seq<T>)
    requires s != []
    ensures multiset(s[1..]) == multiset(s) - multiset{s[0]}
    ensures s == [s[0]] + s[1..]
  {
    assert s == [s[0]] + s[1..];
    assert multiset(s) == multiset{s[0]} + multiset(s[1..]);
  }

  lemma SameHead<T(!new)>(compare: (T, T) -> int, s: seq<T>, t: seq<T>)
    requires TotalPreorder(compare) && Sorted(compare, s) && Sorted(compare, t)
    requires s != [] && t != [] && multiset(s) == multiset(t)
    requires TiesAreEqual(compare, s)
    ensures s[0] == t[0]
  {
    var x, y := s[0], t[0];
    assert x in multiset(t) && y in multiset(s);
    var i :| 0 <= i < |t| && t[i] == x;
    var j :| 0 <= j < |s| && s[j] == y;
    assert compare(x, x) == 0 && compare(y, y) == 0;
  }

  lemma {:induction false} SortedSameMembers<T(!new)>(compare: (T, T) -> int, s: seq<T>, t: seq<T>)
    requires TotalPreorder(compare) && Sorted(compare, s) && Sorted(compare, t)
    requires multiset(s) == multiset(t)
    requires TiesAreEqual(compare, s)
    ensures s == t
  {
    assert |multiset(s)| == |s| && |multiset(t)| == |t|;
    if s != [] {
      SameHead(compare, s, t);
      TailMembers(s);
      TailMembers(t);
      SortedTail(compare, s);
      SortedTail(compare, t);
      SortedSameMembers(compare, s[1..], t[1..]);
    }
  }
}
