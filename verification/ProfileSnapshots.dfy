/** Monthly profile snapshots: normalisation of the evidence lists and of the whole aggregate. */
module ProfileSnapshots {
  import opened Options
  import opened Sorting

  const MAXIMUM_SNAPSHOT_TECHNOLOGIES := 20
  const MAXIMUM_SNAPSHOT_METRIC := 1_000_000

  // ----- one normalised list -----

  /** How a list is normalised: clean trims and validates an item, key is its case-insensitive name. */
  datatype Rules<!T> = Rules(clean: T -> Option<T>, key: T -> string) {
    /** Cleaning twice changes nothing. */
    ghost predicate StableAt(x: T) {
      clean(x).Some? ==> clean(clean(x).value) == clean(x)
    }
  }

  ghost predicate Stable<T(!new)>(rules: Rules<T>) {
    forall x :: rules.StableAt(x)
  }

  function ByKey<T>(key: T -> string): (T, T) -> int {
    (x: T, y: T) => CompareStrings(key(x), key(y))
  }

  predicate AllClean<T>(rules: Rules<T>, values: seq<T>) {
    forall i :: 0 <= i < |values| ==> rules.clean(values[i]).Some?
  }

  function Cleaned<T>(rules: Rules<T>, values: seq<T>): seq<T>
    requires AllClean(rules, values)
  {
    if values == [] then [] else Cleaned(rules, values[..|values| - 1]) + [rules.clean(values[|values| - 1]).value]
  }

  predicate HasKey<T>(key: T -> string, s: seq<T>, k: string) {
    exists i :: 0 <= i < |s| && key(s[i]) == k
  }

  /** The first item of every key, in order. */
  function Firsts<T>(key: T -> string, s: seq<T>): seq<T> {
    if s == [] then []
    else
      var rest, last := Firsts(key, s[..|s| - 1]), s[|s| - 1];
      if HasKey(key, rest, key(last)) then rest else rest + [last]
  }

  function Normalized<T>(rules: Rules<T>, values: seq<T>): Option<seq<T>> {
    if |values| > MAXIMUM_SNAPSHOT_TECHNOLOGIES || !AllClean(rules, values) then None
    else Some(StableSort(ByKey(rules.key), Firsts(rules.key, Cleaned(rules, values))))
  }

  /** normalizeSnapshotNames, and the loop over proficiency values. */
  method Normalize<T>(rules: Rules<T>, values: seq<T>) returns (r: Option<seq<T>>)
    ensures r == Normalized(rules, values)
  {
    if |values| > MAXIMUM_SNAPSHOT_TECHNOLOGIES { return None; }
    var result: seq<T>, seen: set<string> := [], {};
    for i := 0 to |values|
      invariant AllClean(rules, values[..i])
      invariant result == Firsts(rules.key, Cleaned(rules, values[..i]))
      invariant forall k :: k in seen <==> HasKey(rules.key, result, k)
    {
      var item := rules.clean(values[i]);
      if item.None? { return None; }
      var key := rules.key(item.value);
      assert values[..i + 1][..i] == values[..i];
      ghost var cleaned := Cleaned(rules, values[..i]);
      assert Cleaned(rules, values[..i + 1]) == cleaned + [item.value];
      assert (cleaned + [item.value])[..|cleaned|] == cleaned;
      if key !in seen {
        KeyAppended(rules.key, result, item.value);
        seen := seen + {key};
        result := result + [item.value];
      }
    }
    assert values[..|values|] == values;
    return Some(StableSort(ByKey(rules.key), result));
  }

  lemma KeyAppended<T>(key: T -> string, s: seq<T>, x: T)
    ensures forall k :: HasKey(key, s + [x], k) <==> HasKey(key, s, k) || k == key(x)
  {
    forall k ensures HasKey(key, s + [x], k) <==> HasKey(key, s, k) || k == key(x) {
      if k == key(x) { assert key((s + [x])[|s|]) == k; }
      if HasKey(key, s, k) {
        var i :| 0 <= i < |s| && key(s[i]) == k;
        assert key((s + [x])[i]) == k;
      }
    }
  }

  // ----- normal forms -----

  ghost predicate Apart<T>(key: T -> string, s: seq<T>) {
    forall i, j :: 0 <= i < j < |s| ==> key(s[i]) != key(s[j])
  }

  ghost predicate Ascends<T>(key: T -> string, s: seq<T>) {
    forall i, j :: 0 <= i < j < |s| ==> CompareStrings(key(s[i]), key(s[j])) < 0
  }

  /** A list that normalisation produces: at most twenty clean items, strictly ascending by case-insensitive name. */
  ghost predicate NormalForm<T>(rules: Rules<T>, s: seq<T>) {
    && |s| <= MAXIMUM_SNAPSHOT_TECHNOLOGIES
    && (forall i :: 0 <= i < |s| ==> Fixed(rules, s[i]))
    && Ascends(rules.key, s)
  }

  lemma {:induction false} FirstsApart<T>(key: T -> string, s: seq<T>)
    ensures Apart(key, Firsts(key, s)) && |Firsts(key, s)| <= |s|
    ensures forall x :: x in Firsts(key, s) ==> x in s
  {
    if s != [] {
      var rest, last := Firsts(key, s[..|s| - 1]), s[|s| - 1];
      FirstsApart(key, s[..|s| - 1]);
      if !HasKey(key, rest, key(last)) {
        forall i, j | 0 <= i < j < |rest + [last]| ensures key((rest + [last])[i]) != key((rest + [last])[j]) {
          if j == |rest| { assert key(rest[i]) != key(last); }
        }
      }
    }
  }

  /** The item kept for a key is the earliest one that has it. */
  lemma {:induction false} EarliestKept<T>(key: T -> string, s: seq<T>, i: nat)
    requires i < |s| && forall j :: 0 <= j < i ==> key(s[j]) != key(s[i])
    ensures s[i] in Firsts(key, s)
  {
    var rest, n := Firsts(key, s[..|s| - 1]), |s| - 1;
    if i < n {
      EarliestKept(key, s[..n], i);
    } else {
      FirstsApart(key, s[..n]);
      forall j | 0 <= j < |rest| ensures key(rest[j]) != key(s[n]) {
        assert rest[j] in s[..n];
        var k :| 0 <= k < n && s[k] == rest[j];
      }
    }
  }

  /** Every name survives normalisation in its earliest spelling. */
  lemma NormalizedKeepsNames<T>(rules: Rules<T>, values: seq<T>, i: nat)
    requires Normalized(rules, values).Some? && i < |Cleaned(rules, values)|
    requires var s := Cleaned(rules, values); forall j :: 0 <= j < i ==> rules.key(s[j]) != rules.key(s[i])
    ensures Cleaned(rules, values)[i] in Normalized(rules, values).value
  {
    var firsts := Firsts(rules.key, Cleaned(rules, values));
    EarliestKept(rules.key, Cleaned(rules, values), i);
    SortMembers(ByKey(rules.key), firsts);
    assert Cleaned(rules, values)[i] in multiset(firsts);
  }

  lemma {:induction false} FirstsOfApart<T>(key: T -> string, s: seq<T>)
    requires Apart(key, s)
    ensures Firsts(key, s) == s
  {
    if s != [] {
      FirstsOfApart(key, s[..|s| - 1]);
      assert s == s[..|s| - 1] + [s[|s| - 1]];
    }
  }

  lemma KeysOfMembers<T>(key: T -> string, a: seq<T>, b: seq<T>, k: string)
    requires (forall x :: x in a ==> x in b) && !HasKey(key, b, k)
    ensures !HasKey(key, a, k)
  {
    forall i | 0 <= i < |a| ensures key(a[i]) != k {
      assert a[i] in b;
      var j :| 0 <= j < |b| && b[j] == a[i];
      assert key(b[j]) != k;
    }
  }

  ghost predicate Below<T>(key: T -> string, x: T, s: seq<T>) {
    forall i :: 0 <= i < |s| ==> CompareStrings(key(x), key(s[i])) < 0
  }

  lemma ConsAscends<T>(key: T -> string, x: T, s: seq<T>)
    requires Ascends(key, s) && Below(key, x, s)
    ensures Ascends(key, [x] + s)
  {
  }

  lemma BelowHead<T>(key: T -> string, x: T, s: seq<T>)
    requires Ascends(key, s) && s != [] && CompareStrings(key(x), key(s[0])) < 0
    ensures Below(key, x, s)
  {
    forall i | 0 <= i < |s| ensures CompareStrings(key(x), key(s[i])) < 0 {
      if i > 0 { Transitive(key(x), key(s[0]), key(s[i])); }
    }
  }

  lemma Transitive(x: string, y: string, z: string)
    requires CompareStrings(x, y) < 0 && CompareStrings(y, z) <= 0
    ensures CompareStrings(x, z) < 0
  {
    CompareStringsLaws(x, y, z);
    CompareStringsLaws(x, z, y);
    CompareStringsLaws(y, z, x);
    CompareStringsLaws(z, y, x);
  }

  lemma BelowInserted<T>(key: T -> string, h: T, x: T, t: seq<T>)
    requires Below(key, h, t) && CompareStrings(key(h), key(x)) < 0
    ensures Below(key, h, Insert(ByKey(key), x, t))
  {
    InsertMembers(ByKey(key), x, t);
    var longer := Insert(ByKey(key), x, t);
    forall i | 0 <= i < |longer| ensures CompareStrings(key(h), key(longer[i])) < 0 {
      assert longer[i] in multiset(longer);
      assert longer[i] == x || longer[i] in t;
    }
  }

  lemma {:induction false} InsertAscends<T>(key: T -> string, x: T, s: seq<T>)
    requires Ascends(key, s) && !HasKey(key, s, key(x))
    ensures Ascends(key, Insert(ByKey(key), x, s))
  {
    if s != [] {
      CompareStringsLaws(key(x), key(s[0]), []);
      assert key(s[0]) != key(x);
      if ByKey(key)(x, s[0]) <= 0 {
        BelowHead(key, x, s);
        ConsAscends(key, x, s);
      } else {
        CompareStringsLaws(key(s[0]), key(x), []);
        KeysOfMembers(key, s[1..], s, key(x));
        InsertAscends(key, x, s[1..]);
        BelowInserted(key, s[0], x, s[1..]);
        ConsAscends(key, s[0], Insert(ByKey(key), x, s[1..]));
      }
    }
  }

  lemma HeadIsApart<T>(key: T -> string, s: seq<T>)
    requires s != [] && Apart(key, s)
    ensures Apart(key, s[1..]) && !HasKey(key, s[1..], key(s[0]))
  {
    forall i | 0 <= i < |s[1..]| ensures key(s[1..][i]) != key(s[0]) { assert s[1..][i] == s[i + 1]; }
  }

  lemma {:induction false} SortAscends<T>(key: T -> string, s: seq<T>)
    requires Apart(key, s)
    ensures Ascends(key, StableSort(ByKey(key), s))
  {
    if s != [] {
      var rest := StableSort(ByKey(key), s[1..]);
      HeadIsApart(key, s);
      SortAscends(key, s[1..]);
      SortMembers(ByKey(key), s[1..]);
      forall x | x in rest ensures x in s[1..] { assert x in multiset(rest); }
      KeysOfMembers(key, rest, s[1..], key(s[0]));
      InsertAscends(key, s[0], rest);
    }
  }

  lemma {:induction false} CleanedMembers<T(!new)>(rules: Rules<T>, values: seq<T>)
    requires Stable(rules) && AllClean(rules, values)
    ensures |Cleaned(rules, values)| == |values|
    ensures forall x :: x in Cleaned(rules, values) ==> rules.clean(x) == Some(x)
  {
    if values != [] {
      CleanedMembers(rules, values[..|values| - 1]);
      assert rules.StableAt(values[|values| - 1]);
    }
  }

  ghost predicate Fixed<T>(rules: Rules<T>, x: T) {
    rules.clean(x) == Some(x)
  }

  lemma {:induction false} CleanIsFixed<T>(rules: Rules<T>, s: seq<T>)
    requires forall i :: 0 <= i < |s| ==> Fixed(rules, s[i])
    ensures AllClean(rules, s) && Cleaned(rules, s) == s
  {
    if s != [] {
      var n := |s| - 1;
      assert Fixed(rules, s[n]);
      CleanIsFixed(rules, s[..n]);
      forall i | 0 <= i < |s| ensures rules.clean(s[i]).Some? { assert Fixed(rules, s[i]); }
      assert s == s[..n] + [s[n]];
    }
  }

  /** What normalisation accepts it brings into normal form. */
  lemma NormalizedIsNormal<T(!new)>(rules: Rules<T>, values: seq<T>)
    requires Stable(rules) && Normalized(rules, values).Some?
    ensures NormalForm(rules, Normalized(rules, values).value)
  {
    var cleaned := Cleaned(rules, values);
    var firsts, sorted := Firsts(rules.key, cleaned), Normalized(rules, values).value;
    CleanedMembers(rules, values);
    FirstsApart(rules.key, cleaned);
    SortAscends(rules.key, firsts);
    SortMembers(ByKey(rules.key), firsts);
    forall i | 0 <= i < |sorted| ensures Fixed(rules, sorted[i]) {
      assert sorted[i] in multiset(sorted);
      assert sorted[i] in firsts;
    }
    assert |multiset(sorted)| == |multiset(firsts)|;
  }

  lemma ByKeyIsTotal<T(!new)>(key: T -> string)
    ensures TotalPreorder(ByKey(key))
  {
    forall x, y ensures ByKey(key)(x, y) < 0 <==> ByKey(key)(y, x) > 0 { CompareStringsLaws(key(x), key(y), []); }
    forall x, y, z ensures Chains(ByKey(key), x, y, z) { CompareStringsLaws(key(x), key(y), key(z)); }
  }

  /** A normal form is left as it is: normalisation is idempotent. */
  lemma NormalIsFixed<T(!new)>(rules: Rules<T>, s: seq<T>)
    requires NormalForm(rules, s)
    ensures Normalized(rules, s) == Some(s)
  {
    CleanIsFixed(rules, s);
    forall i, j | 0 <= i < j < |s| ensures rules.key(s[i]) != rules.key(s[j]) {
      CompareStringsLaws(rules.key(s[i]), rules.key(s[j]), []);
    }
    FirstsOfApart(rules.key, s);
    ByKeyIsTotal(rules.key);
    SortOfSorted(ByKey(rules.key), s);
  }

  // ----- snapshots -----

  /** What the model does not look into: trimming, lower-casing, and the limits on a trimmed name (not empty, at most
      64 runes and 128 bytes, no control character). */
  datatype Names = Names(trim: string -> string, lower: string -> string, acceptable: string -> bool) {
    ghost predicate TrimsOnce() {
      forall s :: trim(trim(s)) == trim(s)
    }

    function Clean(raw: string): Option<string> {
      if acceptable(trim(raw)) then Some(trim(raw)) else None
    }

    function ForNames(): Rules<string> {
      Rules(raw => Clean(raw), name => lower(name))
    }

    function ForLevels(): Rules<Proficiency> {
      Rules(
        (p: Proficiency) =>
          if Clean(p.name).Some? && 1 <= p.level <= 5 then Some(Proficiency(Clean(p.name).value, p.level)) else None,
        (p: Proficiency) => lower(p.name))
    }
  }

  datatype Proficiency = Proficiency(name: string, level: int)

  datatype Metrics = Metrics(
    ossActivity: int, mergedPullRequests: int, completedQuests: int, currentStreak: int, longestStreak: int)
  {
    predicate InRange() {
      && 0 <= ossActivity <= MAXIMUM_SNAPSHOT_METRIC && 0 <= mergedPullRequests <= MAXIMUM_SNAPSHOT_METRIC
      && 0 <= completedQuests <= MAXIMUM_SNAPSHOT_METRIC && 0 <= currentStreak <= MAXIMUM_SNAPSHOT_METRIC
      && 0 <= longestStreak <= MAXIMUM_SNAPSHOT_METRIC
    }
  }

  /** month is the instant a month starts at. */
  datatype ProfileSnapshot = ProfileSnapshot(
    month: int, languages: seq<string>, frameworks: seq<string>, proficiency: seq<Proficiency>, metrics: Metrics)

  function Snapshot(
    names: Names, monthOf: int -> int, languages: seq<string>, frameworks: seq<string>, proficiency: seq<Proficiency>,
    metrics: Metrics, now: int): Option<ProfileSnapshot>
  {
    SnapshotOf(monthOf(now), Normalized(names.ForNames(), languages), Normalized(names.ForNames(), frameworks),
               Normalized(names.ForLevels(), proficiency), metrics)
  }

  function SnapshotOf(
    month: int, languages: Option<seq<string>>, frameworks: Option<seq<string>>,
    proficiency: Option<seq<Proficiency>>, metrics: Metrics): Option<ProfileSnapshot>
  {
    if languages.None? || frameworks.None? || proficiency.None? || !metrics.InRange() then None
    else Some(ProfileSnapshot(month, languages.value, frameworks.value, proficiency.value, metrics))
  }

  method NewProfileSnapshot(
    names: Names, monthOf: int -> int, languages: seq<string>, frameworks: seq<string>, proficiency: seq<Proficiency>,
    metrics: Metrics, now: int)
    returns (r: Option<ProfileSnapshot>)
    ensures r == Snapshot(names, monthOf, languages, frameworks, proficiency, metrics, now)
  {
    var ls := Normalize(names.ForNames(), languages);
    if ls.None? { return None; }
    var fs := Normalize(names.ForNames(), frameworks);
    if fs.None? { return None; }
    var ps := Normalize(names.ForLevels(), proficiency);
    if ps.None? || !metrics.InRange() { return None; }
    return Some(ProfileSnapshot(monthOf(now), ls.value, fs.value, ps.value, metrics));
  }

  // ----- a snapshot in the fields -----

  predicate UsableNames(names: Names, s: seq<string>) {
    |s| <= 20 && forall i :: 0 <= i < |s| ==> names.acceptable(names.trim(s[i]))
  }

  predicate UsableLevels(names: Names, s: seq<Proficiency>) {
    |s| <= 20 && forall i :: 0 <= i < |s| ==> names.acceptable(names.trim(s[i].name)) && s[i].level in {1, 2, 3, 4, 5}
  }

  predicate Countable(n: int) {
    n >= 0 && n <= 1_000_000
  }

  lemma PartsFit(
    month: int, languages: Option<seq<string>>, frameworks: Option<seq<string>>,
    proficiency: Option<seq<Proficiency>>, m: Metrics)
    ensures var r := SnapshotOf(month, languages, frameworks, proficiency, m);
      && (r.Some? <==> languages.Some? && frameworks.Some? && proficiency.Some? && CountersFit(m))
      && (r.Some? ==> r.value.month == month && r.value.metrics == m)
  {
  }

  predicate CountersFit(m: Metrics) {
    && Countable(m.ossActivity) && Countable(m.mergedPullRequests) && Countable(m.completedQuests)
    && Countable(m.currentStreak) && Countable(m.longestStreak)
  }

  /** A snapshot is built exactly from at most twenty acceptable names a list, levels from one to five and counters up
      to a million; it keeps the counters and the month. */
  lemma SnapshotIff(
    names: Names, monthOf: int -> int, languages: seq<string>, frameworks: seq<string>, proficiency: seq<Proficiency>,
    m: Metrics, now: int)
    ensures var r := Snapshot(names, monthOf, languages, frameworks, proficiency, m, now);
      && (r.Some? <==>
            && UsableNames(names, languages) && UsableNames(names, frameworks) && UsableLevels(names, proficiency)
            && CountersFit(m))
      && (r.Some? ==> r.value.month == monthOf(now) && r.value.metrics == m)
  {
    PartsFit(monthOf(now), Normalized(names.ForNames(), languages), Normalized(names.ForNames(), frameworks),
             Normalized(names.ForLevels(), proficiency), m);
    NamesUsableIff(names, languages);
    NamesUsableIff(names, frameworks);
    LevelsUsableIff(names, proficiency);
  }

  lemma NamesUsableIff(names: Names, s: seq<string>)
    ensures Normalized(names.ForNames(), s).Some? <==> UsableNames(names, s)
  {
    forall i | 0 <= i < |s|
      ensures names.ForNames().clean(s[i]).Some? <==> names.acceptable(names.trim(s[i]))
    {
    }
  }

  lemma LevelsUsableIff(names: Names, s: seq<Proficiency>)
    ensures Normalized(names.ForLevels(), s).Some? <==> UsableLevels(names, s)
  {
    forall i | 0 <= i < |s|
      ensures names.ForLevels().clean(s[i]).Some? <==>
        names.acceptable(names.trim(s[i].name)) && s[i].level in {1, 2, 3, 4, 5}
    {
    }
  }

  lemma {:induction false} CleanedAt<T>(rules: Rules<T>, values: seq<T>, x: T)
    requires AllClean(rules, values)
    ensures x in Cleaned(rules, values) <==> exists i :: 0 <= i < |values| && rules.clean(values[i]) == Some(x)
  {
    if values != [] {
      var n := |values| - 1;
      CleanedAt(rules, values[..n], x);
      if i :| 0 <= i < n && rules.clean(values[..n][i]) == Some(x) { assert rules.clean(values[i]) == Some(x); }
      if i :| 0 <= i < |values| && rules.clean(values[i]) == Some(x) {
        assert i < n ==> rules.clean(values[..n][i]) == Some(x);
      }
    }
  }

  /** What normalisation keeps was cleaned from some item. */
  lemma NormalizedFrom<T>(rules: Rules<T>, values: seq<T>, x: T)
    requires Normalized(rules, values).Some? && x in Normalized(rules, values).value
    ensures exists i :: 0 <= i < |values| && rules.clean(values[i]) == Some(x)
  {
    var firsts := Firsts(rules.key, Cleaned(rules, values));
    SortMembers(ByKey(rules.key), firsts);
    assert x in multiset(firsts);
    FirstsApart(rules.key, Cleaned(rules, values));
    CleanedAt(rules, values, x);
  }

  lemma NameWasGiven(names: Names, given: seq<string>, x: string)
    requires Normalized(names.ForNames(), given).Some? && x in Normalized(names.ForNames(), given).value
    ensures exists i :: 0 <= i < |given| && names.trim(given[i]) == x
  {
    NormalizedFrom(names.ForNames(), given, x);
    var i :| 0 <= i < |given| && names.ForNames().clean(given[i]) == Some(x);
    NameCleaned(names, given[i], x);
  }

  lemma NameCleaned(names: Names, raw: string, x: string)
    requires names.ForNames().clean(raw) == Some(x)
    ensures names.trim(raw) == x
  {
  }

  lemma LevelWasGiven(names: Names, given: seq<Proficiency>, p: Proficiency)
    requires Normalized(names.ForLevels(), given).Some? && p in Normalized(names.ForLevels(), given).value
    ensures exists i :: 0 <= i < |given| && Proficiency(names.trim(given[i].name), given[i].level) == p
  {
    NormalizedFrom(names.ForLevels(), given, p);
    var i :| 0 <= i < |given| && names.ForLevels().clean(given[i]) == Some(p);
  }

  /** Every listed language and framework is the trimmed form of one that was given, every level was given with its
      name. */
  lemma ListedWereGiven(
    names: Names, monthOf: int -> int, languages: seq<string>, frameworks: seq<string>, proficiency: seq<Proficiency>,
    m: Metrics, now: int)
    requires Snapshot(names, monthOf, languages, frameworks, proficiency, m, now).Some?
    ensures var s := Snapshot(names, monthOf, languages, frameworks, proficiency, m, now).value;
      && (forall x :: x in s.languages ==> exists i :: 0 <= i < |languages| && names.trim(languages[i]) == x)
      && (forall x :: x in s.frameworks ==> exists i :: 0 <= i < |frameworks| && names.trim(frameworks[i]) == x)
      && (forall p :: p in s.proficiency ==>
            exists i ::
              0 <= i < |proficiency| && Proficiency(names.trim(proficiency[i].name), proficiency[i].level) == p)
  {
    var s := Snapshot(names, monthOf, languages, frameworks, proficiency, m, now).value;
    forall x | x in s.languages ensures exists i :: 0 <= i < |languages| && names.trim(languages[i]) == x {
      NameWasGiven(names, languages, x);
    }
    forall x | x in s.frameworks ensures exists i :: 0 <= i < |frameworks| && names.trim(frameworks[i]) == x {
      NameWasGiven(names, frameworks, x);
    }
    forall p | p in s.proficiency
      ensures exists i ::
        0 <= i < |proficiency| && Proficiency(names.trim(proficiency[i].name), proficiency[i].level) == p
    {
      LevelWasGiven(names, proficiency, p);
    }
  }

  lemma RulesAreStable(names: Names)
    requires names.TrimsOnce()
    ensures Stable(names.ForNames()) && Stable(names.ForLevels())
  {
    forall x ensures names.ForNames().StableAt(x) {}
    forall x ensures names.ForLevels().StableAt(x) {}
  }

  /** Reading back: a snapshot that was accepted is accepted again from its own fields, unchanged. */
  lemma ReadBackIsIdentity(
    names: Names, monthOf: int -> int, languages: seq<string>, frameworks: seq<string>, proficiency: seq<Proficiency>,
    metrics: Metrics, now: int)
    requires names.TrimsOnce() && monthOf(monthOf(now)) == monthOf(now)
    requires Snapshot(names, monthOf, languages, frameworks, proficiency, metrics, now).Some?
    ensures var s := Snapshot(names, monthOf, languages, frameworks, proficiency, metrics, now).value;
      Snapshot(names, monthOf, s.languages, s.frameworks, s.proficiency, s.metrics, s.month) == Some(s)
  {
    var s := Snapshot(names, monthOf, languages, frameworks, proficiency, metrics, now).value;
    RulesAreStable(names);
    NormalizedIsNormal(names.ForNames(), languages);
    NormalizedIsNormal(names.ForNames(), frameworks);
    NormalizedIsNormal(names.ForLevels(), proficiency);
    NormalIsFixed(names.ForNames(), s.languages);
    NormalIsFixed(names.ForNames(), s.frameworks);
    NormalIsFixed(names.ForLevels(), s.proficiency);
  }
}
