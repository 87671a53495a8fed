/** Which discovered repositories are analysed, and in which order. */
module RepositoryDiscovery {
  import opened IssueModel
  import opened Options
  import opened Sorting

  datatype ForkPolicy = IncludeForks | ExcludeForks | OnlyForks

  datatype Discovered = Discovered(
    fullName: string, archived: bool, fork: bool, stars: int, forks: int, openIssues: int, pushedAt: int,
    language: string, license: Option<string>)

  /** equalFold stands for strings.EqualFold; empty lists accept everything. */
  datatype Criteria = Criteria(
    excludesArchived: bool, forkPolicy: ForkPolicy, minimumStars: int, minimumForks: int, minimumOpenIssues: int,
    maximumOpenIssues: Option<int>, updatedWithinDays: int, languages: seq<string>, licenses: seq<string>,
    categories: seq<nat>, equalFold: (string, string) -> bool)

  datatype Prefiltered = Prefiltered(candidate: Discovered, category: nat)

  predicate MatchesLanguage(criteria: Criteria, language: string) {
    criteria.languages == []
    || exists i :: 0 <= i < |criteria.languages| && criteria.equalFold(language, criteria.languages[i])
  }

  predicate MatchesLicense(criteria: Criteria, license: Option<string>) {
    criteria.licenses == [] || (license.Some? && license.value in criteria.licenses)
  }

  predicate ContainsCategory(criteria: Criteria, category: nat) {
    criteria.categories == [] || category in criteria.categories
  }

  predicate Eligible(criteria: Criteria, now: int, p: Prefiltered) {
    var r := p.candidate;
    && !(criteria.excludesArchived && r.archived)
    && (criteria.forkPolicy.ExcludeForks? ==> !r.fork) && (criteria.forkPolicy.OnlyForks? ==> r.fork)
    && r.stars >= criteria.minimumStars && r.forks >= criteria.minimumForks
    && r.openIssues >= criteria.minimumOpenIssues && r.pushedAt >= now - criteria.updatedWithinDays * DAY
    && (criteria.maximumOpenIssues.Some? ==> r.openIssues <= criteria.maximumOpenIssues.value)
    && MatchesLanguage(criteria, r.language) && MatchesLicense(criteria, r.license)
    && ContainsCategory(criteria, p.category)
  }

  function EligibleFor(criteria: Criteria, now: int): Prefiltered -> bool {
    p => Eligible(criteria, now, p)
  }

  function Classified(classify: Discovered -> nat, source: seq<Discovered>): seq<Prefiltered> {
    if source == [] then []
    else
      var last := source[|source| - 1];
      Classified(classify, source[..|source| - 1]) + [Prefiltered(last, classify(last))]
  }

  /** The comparator, test by test. */
  function DiscoveryOrder(lower: string -> string): (Prefiltered, Prefiltered) -> int {
    (left: Prefiltered, right: Prefiltered) =>
      var byStars := Compare(right.candidate.stars, left.candidate.stars);
      if byStars != 0 then byStars else
      var byPush := Compare(right.candidate.pushedAt, left.candidate.pushedAt);
      if byPush != 0 then byPush else
      CompareStrings(lower(left.candidate.fullName), lower(right.candidate.fullName))
  }

  function Shortlist(
    lower: string -> string, classify: Discovered -> nat, source: seq<Discovered>, criteria: Criteria, now: int)
    : seq<Prefiltered>
  {
    StableSort(DiscoveryOrder(lower), Filter(EligibleFor(criteria, now), Classified(classify, source)))
  }

  method LanguageMatches(criteria: Criteria, language: string) returns (ok: bool)
    ensures ok == MatchesLanguage(criteria, language)
  {
    if |criteria.languages| == 0 { return true; }
    for i := 0 to |criteria.languages|
      invariant forall k :: 0 <= k < i ==> !criteria.equalFold(language, criteria.languages[k])
    {
      if criteria.equalFold(language, criteria.languages[i]) { return true; }
    }
    return false;
  }

  method PrefilterDiscoveryCandidates(
    lower: string -> string, classify: Discovered -> nat, source: seq<Discovered>, criteria: Criteria, now: int)
    returns (candidates: seq<Prefiltered>)
    ensures candidates == Shortlist(lower, classify, source, criteria, now)
  {
    candidates := [];
    var cutoff := now - criteria.updatedWithinDays * DAY;
    for i := 0 to |source|
      invariant candidates == Filter(EligibleFor(criteria, now), Classified(classify, source[..i]))
    {
      var r := source[i];
      ghost var before, p := Classified(classify, source[..i]), Prefiltered(r, classify(r));
      assert source[..i + 1][..i] == source[..i];
      FilterConcat(EligibleFor(criteria, now), before, [p]);
      if criteria.excludesArchived && r.archived { continue; }
      if criteria.forkPolicy.ExcludeForks? && r.fork { continue; }
      if criteria.forkPolicy.OnlyForks? && !r.fork { continue; }
      if r.stars < criteria.minimumStars || r.forks < criteria.minimumForks
         || r.openIssues < criteria.minimumOpenIssues || r.pushedAt < cutoff { continue; }
      if criteria.maximumOpenIssues.Some? && r.openIssues > criteria.maximumOpenIssues.value { continue; }
      var language := LanguageMatches(criteria, r.language);
      if !language || !MatchesLicense(criteria, r.license) { continue; }
      var category := classify(r);
      if !ContainsCategory(criteria, category) { continue; }
      candidates := candidates + [Prefiltered(r, category)];
    }
    assert source[..|source|] == source;
    candidates := StableSort(DiscoveryOrder(lower), candidates);
  }

  // ----- what the shortlist is -----

  lemma DiscoveryOrderIsTotal(lower: string -> string)
    ensures TotalPreorder(DiscoveryOrder(lower))
  {
    var order := DiscoveryOrder(lower);
    forall x, y ensures order(x, y) < 0 <==> order(y, x) > 0 {
      CompareStringsLaws(lower(x.candidate.fullName), lower(y.candidate.fullName), []);
      CompareStringsLaws(lower(y.candidate.fullName), lower(x.candidate.fullName), []);
    }
    forall x, y, z ensures Chains(order, x, y, z) {
      CompareStringsLaws(lower(x.candidate.fullName), lower(y.candidate.fullName), lower(z.candidate.fullName));
    }
  }

  /** A repository is analysed, in the fields: archived ones unless excluded, forks as asked for, sizes within the
      bounds, pushed to in the last so many days, a listed language, license and category where any are listed. */
  ghost predicate Wanted(criteria: Criteria, now: int, r: Discovered, category: nat) {
    && (r.archived ==> !criteria.excludesArchived)
    && (r.fork ==> criteria.forkPolicy != ExcludeForks) && (!r.fork ==> criteria.forkPolicy != OnlyForks)
    && criteria.minimumStars <= r.stars && criteria.minimumForks <= r.forks
    && criteria.minimumOpenIssues <= r.openIssues
    && (forall most :: criteria.maximumOpenIssues == Some(most) ==> r.openIssues <= most)
    && now - r.pushedAt <= criteria.updatedWithinDays * 86_400
    && (criteria.languages != [] ==> exists l :: l in criteria.languages && criteria.equalFold(r.language, l))
    && (criteria.licenses != [] ==> exists l :: l in criteria.licenses && r.license == Some(l))
    && (criteria.categories != [] ==> exists c :: c in criteria.categories && c == category)
  }

  lemma EligibleInFields(criteria: Criteria, now: int, r: Discovered, category: nat)
    ensures Eligible(criteria, now, Prefiltered(r, category)) <==> Wanted(criteria, now, r, category)
  {
    if criteria.languages != [] {
      if l :| l in criteria.languages && criteria.equalFold(r.language, l) {
        var i :| 0 <= i < |criteria.languages| && criteria.languages[i] == l;
      }
      if i :| 0 <= i < |criteria.languages| && criteria.equalFold(r.language, criteria.languages[i]) {
        assert criteria.languages[i] in criteria.languages;
      }
    }
  }

  /** More stars first, then the later push, then the smaller lower-cased name. */
  ghost predicate Before(lower: string -> string, x: Discovered, y: Discovered) {
    || x.stars > y.stars
    || (x.stars == y.stars && x.pushedAt > y.pushedAt)
    || (x.stars == y.stars && x.pushedAt == y.pushedAt && AtMost(lower(x.fullName), lower(y.fullName)))
  }

  lemma ShortlistOrder(
    lower: string -> string, classify: Discovered -> nat, source: seq<Discovered>, criteria: Criteria, now: int)
    ensures var s := Shortlist(lower, classify, source, criteria, now);
      forall i, j :: 0 <= i < j < |s| ==> Before(lower, s[i].candidate, s[j].candidate)
  {
    var s := Shortlist(lower, classify, source, criteria, now);
    DiscoveryOrderIsTotal(lower);
    SortSorted(DiscoveryOrder(lower), Filter(EligibleFor(criteria, now), Classified(classify, source)));
    forall i, j | 0 <= i < j < |s| ensures Before(lower, s[i].candidate, s[j].candidate) {
      assert DiscoveryOrder(lower)(s[i], s[j]) <= 0;
      CompareStringsIff(lower(s[i].candidate.fullName), lower(s[j].candidate.fullName));
    }
  }

  /** Exactly the eligible repositories are analysed. */
  lemma ShortlistMembers(
    lower: string -> string, classify: Discovered -> nat, source: seq<Discovered>, criteria: Criteria, now: int,
    r: Discovered)
    ensures Prefiltered(r, classify(r)) in Shortlist(lower, classify, source, criteria, now)
      <==> r in source && Eligible(criteria, now, Prefiltered(r, classify(r)))
    ensures Prefiltered(r, classify(r)) in Shortlist(lower, classify, source, criteria, now)
      <==> r in source && Wanted(criteria, now, r, classify(r))
  {
    EligibleInFields(criteria, now, r, classify(r));
    var p, classified := Prefiltered(r, classify(r)), Classified(classify, source);
    var kept := Filter(EligibleFor(criteria, now), classified);
    SortMembers(DiscoveryOrder(lower), kept);
    assert p in StableSort(DiscoveryOrder(lower), kept) <==> p in multiset(kept);
    FilterMember(EligibleFor(criteria, now), classified, p);
    ClassifiedCount(classify, source, p);
    assert p in multiset(classified) <==> r in multiset(source);
  }

  lemma {:induction false} ClassifiedCount(classify: Discovered -> nat, source: seq<Discovered>, p: Prefiltered)
    ensures multiset(Classified(classify, source))[p]
      == if p.category == classify(p.candidate) then multiset(source)[p.candidate] else 0
  {
    if source != [] {
      var n := |source| - 1;
      ClassifiedCount(classify, source[..n], p);
      assert source == source[..n] + [source[n]];
    }
  }

  /** Narrowing the criteria only removes entries: what stays keeps its order. */
  lemma NarrowingKeepsOrder(
    lower: string -> string, classify: Discovered -> nat, source: seq<Discovered>, wide: Criteria, narrow: Criteria,
    now: int)
    requires forall p :: Eligible(narrow, now, p) ==> Eligible(wide, now, p)
    ensures Shortlist(lower, classify, source, narrow, now)
      == Filter(EligibleFor(narrow, now), Shortlist(lower, classify, source, wide, now))
  {
    var classified := Classified(classify, source);
    var keep, also := EligibleFor(narrow, now), EligibleFor(wide, now);
    DiscoveryOrderIsTotal(lower);
    FilterOfSort(DiscoveryOrder(lower), keep, Filter(also, classified));
    FilterNarrower(keep, also, classified);
  }

  ghost predicate UniqueNames(lower: string -> string, source: seq<Discovered>) {
    forall x, y :: x in source && y in source && lower(x.fullName) == lower(y.fullName) ==> x == y
  }

  /** With unique names the shortlist does not depend on the order the repositories were found in. */
  lemma ShortlistIsCanonical(
    lower: string -> string, classify: Discovered -> nat, s: seq<Discovered>, t: seq<Discovered>, criteria: Criteria,
    now: int)
    requires multiset(s) == multiset(t) && UniqueNames(lower, s)
    ensures Shortlist(lower, classify, s, criteria, now) == Shortlist(lower, classify, t, criteria, now)
  {
    var a, b := Classified(classify, s), Classified(classify, t);
    forall p ensures multiset(a)[p] == multiset(b)[p] {
      ClassifiedCount(classify, s, p);
      ClassifiedCount(classify, t, p);
    }
    SameCounts(multiset(a), multiset(b));
    FilterOfPermutation(EligibleFor(criteria, now), a, b);
    DiscoveryOrderIsTotal(lower);
    var order, kept := DiscoveryOrder(lower), Filter(EligibleFor(criteria, now), a);
    forall x, y | x in kept && y in kept && order(x, y) == 0 ensures x == y {
      TiedIsSame(lower, classify, s, criteria, now, x, y);
    }
    SortCanonical(order, kept, Filter(EligibleFor(criteria, now), b));
  }

  lemma TiedIsSame(
    lower: string -> string, classify: Discovered -> nat, s: seq<Discovered>, criteria: Criteria, now: int,
    x: Prefiltered, y: Prefiltered)
    requires UniqueNames(lower, s) && DiscoveryOrder(lower)(x, y) == 0
    requires x in Filter(EligibleFor(criteria, now), Classified(classify, s))
    requires y in Filter(EligibleFor(criteria, now), Classified(classify, s))
    ensures x == y
  {
    FilterMember(EligibleFor(criteria, now), Classified(classify, s), x);
    FilterMember(EligibleFor(criteria, now), Classified(classify, s), y);
    ClassifiedCount(classify, s, x);
    ClassifiedCount(classify, s, y);
    assert x in multiset(Classified(classify, s)) && y in multiset(Classified(classify, s));
    assert x.candidate in multiset(s) && y.candidate in multiset(s);
    CompareStringsLaws(lower(x.candidate.fullName), lower(y.candidate.fullName), []);
  }
}
