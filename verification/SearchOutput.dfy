/** From the ranked candidates of a search to one response page: post-analysis filters, ordering,
    the cap of three issues a repository, and slicing. */
module SearchOutput {
  import opened IssueModel
  import opened Sorting
  import opened Ranking
  import opened CandidateWindow

  const MAXIMUM_PER_REPOSITORY: nat := 3

  // ----- filters -----

  predicate NotStale(r: RankedIssue) {
    r.stale != Stale
  }

  predicate WithinEffort(maximum: int, r: RankedIssue) {
    0 < r.effort <= maximum
  }

  function WithoutStale(criteria: SearchCriteria, ranked: seq<RankedIssue>): seq<RankedIssue> {
    if criteria.includesStale then ranked else Filter(r => NotStale(r), ranked)
  }

  function WithoutEffort(criteria: SearchCriteria, ranked: seq<RankedIssue>): seq<RankedIssue> {
    match criteria.maximumEffort
    case None => ranked
    case Some(maximum) => Filter(r => WithinEffort(maximum, r), ranked)
  }

  method FilterRankedIssuesByStale(ranked: seq<RankedIssue>, criteria: SearchCriteria)
    returns (filtered: seq<RankedIssue>, excluded: nat)
    ensures filtered == WithoutStale(criteria, ranked)
    ensures excluded == |ranked| - |filtered|
  {
    if criteria.includesStale {
      return ranked, 0;
    }
    filtered, excluded := [], 0;
    for i := 0 to |ranked|
      invariant filtered == Filter(r => NotStale(r), ranked[..i])
      invariant excluded == i - |filtered|
    {
      FilterSnoc(r => NotStale(r), ranked, i);
      if ranked[i].stale == Stale {
        excluded := excluded + 1;
      } else {
        filtered := filtered + [ranked[i]];
      }
    }
    assert ranked[..|ranked|] == ranked;
  }

  method FilterRankedIssuesByEffort(ranked: seq<RankedIssue>, criteria: SearchCriteria)
    returns (filtered: seq<RankedIssue>)
    ensures filtered == WithoutEffort(criteria, ranked)
  {
    if criteria.maximumEffort.None? {
      return ranked;
    }
    var maximum := criteria.maximumEffort.value;
    filtered := [];
    for i := 0 to |ranked|
      invariant filtered == Filter(r => WithinEffort(maximum, r), ranked[..i])
    {
      FilterSnoc(r => WithinEffort(maximum, r), ranked, i);
      if 0 < ranked[i].effort <= maximum {
        filtered := filtered + [ranked[i]];
      }
    }
    assert ranked[..|ranked|] == ranked;
  }

  datatype Filtered = Filtered(kept: seq<RankedIssue>, staleExcluded: nat, partial: bool)

  /** Drop what both filters drop; when nothing is left give up the effort filter, then the stale filter. */
  function PostAnalysis(criteria: SearchCriteria, ranked: seq<RankedIssue>, partial: bool): Filtered {
    var unstale := WithoutStale(criteria, ranked);
    var fitting := WithoutEffort(criteria, unstale);
    WithoutStaleShrinks(criteria, ranked);
    if fitting != [] then Filtered(fitting, |ranked| - |unstale|, partial)
    else if unstale != [] then Filtered(unstale, |ranked| - |unstale|, true)
    else Filtered(ranked, 0, partial || ranked != [])
  }

  lemma WithoutStaleShrinks(criteria: SearchCriteria, ranked: seq<RankedIssue>)
    ensures |WithoutStale(criteria, ranked)| <= |ranked|
  {
    FilterSplit(r => NotStale(r), ranked);
  }

  method ApplyPostAnalysisFilters(ranked: seq<RankedIssue>, criteria: SearchCriteria, partialMatches: bool)
    returns (r: Filtered)
    ensures r == PostAnalysis(criteria, ranked, partialMatches)
  {
    var filtered, staleExcluded := FilterRankedIssuesByStale(ranked, criteria);
    var effortFiltered := FilterRankedIssuesByEffort(filtered, criteria);
    if |effortFiltered| > 0 {
      return Filtered(effortFiltered, staleExcluded, partialMatches);
    }
    if |filtered| > 0 {
      return Filtered(filtered, staleExcluded, true);
    }
    if |ranked| > 0 {
      return Filtered(ranked, 0, true);
    }
    return Filtered(effortFiltered, staleExcluded, partialMatches);
  }

  // ----- the cap per repository -----

  datatype RepositoryKey = ById(id: int) | ByName(name: string) | ByUrl(url: string) | Unkeyed

  /** fold stands for strings.ToLower after strings.TrimSpace. */
  function KeyOf(fold: string -> string, r: RankedIssue): RepositoryKey {
    var repository := r.candidate.repository;
    if repository.id != 0 then ById(repository.id)
    else if fold(repository.fullName) != "" then RepositoryKey.ByName(fold(repository.fullName))
    else if fold(repository.url) != "" then ByUrl(fold(repository.url))
    else Unkeyed
  }

  function OfKey(fold: string -> string, key: RepositoryKey, s: seq<RankedIssue>): seq<RankedIssue> {
    Filter(r => KeyOf(fold, r) == key, s)
  }

  function First(n: nat, s: seq<RankedIssue>): seq<RankedIssue> {
    if |s| <= n then s else s[..n]
  }

  /** Every item with fewer than three items of its repository before it, and every unkeyed item. */
  function Capped(fold: string -> string, s: seq<RankedIssue>): seq<RankedIssue> {
    if s == [] then []
    else
      var rest, last := s[..|s| - 1], s[|s| - 1];
      Capped(fold, rest) + if HasRoom(fold, rest, last) then [last] else []
  }

  predicate HasRoom(fold: string -> string, before: seq<RankedIssue>, next: RankedIssue) {
    var key := KeyOf(fold, next);
    key == Unkeyed || |OfKey(fold, key, before)| < MAXIMUM_PER_REPOSITORY
  }

  lemma CappedSnoc(fold: string -> string, rest: seq<RankedIssue>, last: RankedIssue)
    ensures Capped(fold, rest + [last]) == Capped(fold, rest) + if HasRoom(fold, rest, last) then [last] else []
  {
    var s := rest + [last];
    assert s[..|s| - 1] == rest && s[|s| - 1] == last;
  }

  method LimitIssuesPerRepository(fold: string -> string, ranked: seq<RankedIssue>)
    returns (limited: seq<RankedIssue>)
    ensures limited == Capped(fold, ranked)
  {
    var counts: map<RepositoryKey, nat> := map[];
    limited := [];
    for i := 0 to |ranked|
      invariant limited == Capped(fold, ranked[..i])
      invariant forall key :: key != Unkeyed ==>
        (if key in counts then counts[key] else 0) == |First(MAXIMUM_PER_REPOSITORY, OfKey(fold, key, ranked[..i]))|
    {
      var key := KeyOf(fold, ranked[i]);
      assert ranked[..i + 1][..i] == ranked[..i];
      forall k: RepositoryKey ensures OfKey(fold, k, ranked[..i + 1])
          == OfKey(fold, k, ranked[..i]) + if key == k then [ranked[i]] else []
      {
        FilterSnoc(r => KeyOf(fold, r) == k, ranked, i);
      }
      var count := if key in counts then counts[key] else 0;
      if key != Unkeyed && count >= MAXIMUM_PER_REPOSITORY {
        continue;
      }
      if key != Unkeyed {
        counts := counts[key := count + 1];
      }
      limited := limited + [ranked[i]];
    }
    assert ranked[..|ranked|] == ranked;
  }

  lemma OfKeySnoc(fold: string -> string, key: RepositoryKey, rest: seq<RankedIssue>, last: RankedIssue)
    ensures OfKey(fold, key, rest + [last])
         == OfKey(fold, key, rest) + if KeyOf(fold, last) == key then [last] else []
  {
    FilterConcat(r => KeyOf(fold, r) == key, rest, [last]);
  }

  /** Of every keyed repository exactly the first three items survive, in order; of the unkeyed, all. */
  lemma {:induction false} CapKeepsFirstThree(fold: string -> string, s: seq<RankedIssue>, key: RepositoryKey)
    ensures OfKey(fold, key, Capped(fold, s))
         == if key == Unkeyed then OfKey(fold, key, s) else First(3, OfKey(fold, key, s))
  {
    if s != [] {
      var rest, last := s[..|s| - 1], s[|s| - 1];
      assert s == rest + [last];
      CapKeepsFirstThree(fold, rest, key);
      OfKeySnoc(fold, key, rest, last);
      var kept := Capped(fold, rest);
      OfKeySnoc(fold, key, kept, last);
      if KeyOf(fold, last) == Unkeyed || |OfKey(fold, KeyOf(fold, last), rest)| < MAXIMUM_PER_REPOSITORY {
        assert Capped(fold, s) == kept + [last];
      } else {
        assert Capped(fold, s) == kept;
      }
    }
  }

  /** x and y count as one repository: the same id; without ids the same name; without either the same address. */
  predicate OneRepository(fold: string -> string, x: Repository, y: Repository) {
    if x.id != 0 || y.id != 0 then x.id == y.id
    else if fold(x.fullName) != "" || fold(y.fullName) != "" then fold(x.fullName) == fold(y.fullName)
    else fold(x.url) == fold(y.url) && fold(x.url) != ""
  }

  lemma KeyInFields(fold: string -> string, x: RankedIssue, y: RankedIssue)
    ensures KeyOf(fold, x) == KeyOf(fold, y) && KeyOf(fold, x) != Unkeyed
      <==> OneRepository(fold, x.candidate.repository, y.candidate.repository)
    ensures KeyOf(fold, x) == Unkeyed <==>
      var r := x.candidate.repository; r.id == 0 && fold(r.fullName) == "" && fold(r.url) == ""
  {
  }

  /** The cap only drops items: what it keeps is a subsequence. */
  ghost predicate Subsequence(s: seq<RankedIssue>, t: seq<RankedIssue>) {
    s == [] || (t != [] && ((s[|s| - 1] == t[|t| - 1] && Subsequence(s[..|s| - 1], t[..|t| - 1]))
                            || Subsequence(s, t[..|t| - 1])))
  }

  lemma {:induction false} CapIsSubsequence(fold: string -> string, s: seq<RankedIssue>)
    ensures Subsequence(Capped(fold, s), s)
  {
    if s != [] {
      CapIsSubsequence(fold, s[..|s| - 1]);
      var kept, last := Capped(fold, s[..|s| - 1]), s[|s| - 1];
      if Capped(fold, s) != kept {
        assert Capped(fold, s) == kept + [last];
        assert (kept + [last])[..|kept|] == kept;
      }
    }
  }

  /** A relation between every item and all later ones. */
  ghost predicate Pairwise(before: (RankedIssue, RankedIssue) -> bool, s: seq<RankedIssue>) {
    forall i, j :: 0 <= i < j < |s| ==> before(s[i], s[j])
  }

  lemma {:induction false} SubsequenceMembers(s: seq<RankedIssue>, t: seq<RankedIssue>)
    requires Subsequence(s, t)
    ensures forall x :: x in s ==> x in t
  {
    if s != [] {
      if s[|s| - 1] == t[|t| - 1] && Subsequence(s[..|s| - 1], t[..|t| - 1]) {
        SubsequenceMembers(s[..|s| - 1], t[..|t| - 1]);
      } else {
        SubsequenceMembers(s, t[..|t| - 1]);
      }
      assert t == t[..|t| - 1] + [t[|t| - 1]];
    }
  }

  lemma {:induction false} SubsequencePairwise(
    before: (RankedIssue, RankedIssue) -> bool, s: seq<RankedIssue>, t: seq<RankedIssue>)
    requires Subsequence(s, t) && Pairwise(before, t)
    ensures Pairwise(before, s)
  {
    if s != [] {
      var n, m := |s| - 1, |t| - 1;
      if s[n] == t[m] && Subsequence(s[..n], t[..m]) {
        SubsequencePairwise(before, s[..n], t[..m]);
        SubsequenceMembers(s[..n], t[..m]);
        forall i | 0 <= i < n ensures before(s[i], s[n]) {
          assert s[..n][i] in t[..m];
          var k :| 0 <= k < m && t[k] == s[i];
        }
        assert forall i, j :: 0 <= i < j < n ==> before(s[..n][i], s[..n][j]);
      } else {
        SubsequencePairwise(before, s, t[..m]);
      }
    }
  }

  lemma {:induction false} CapIdempotent(fold: string -> string, s: seq<RankedIssue>)
    ensures Capped(fold, Capped(fold, s)) == Capped(fold, s)
  {
    if s != [] {
      var rest, last := s[..|s| - 1], s[|s| - 1];
      CapIdempotent(fold, rest);
      var kept := Capped(fold, rest);
      assert s == rest + [last];
      CappedSnoc(fold, rest, last);
      if HasRoom(fold, rest, last) {
        RoomSurvivesCap(fold, rest, last);
        CappedSnoc(fold, kept, last);
        assert Capped(fold, s) == kept + [last];
      } else {
        assert Capped(fold, s) == kept;
      }
    }
  }

  lemma RoomSurvivesCap(fold: string -> string, before: seq<RankedIssue>, next: RankedIssue)
    ensures HasRoom(fold, Capped(fold, before), next) == HasRoom(fold, before, next)
  {
    CapKeepsFirstThree(fold, before, KeyOf(fold, next));
  }

  // ----- pages -----

  datatype Pagination = Pagination(page: int, perPage: int) {
    /** What NewPagination accepts. */
    ghost predicate Valid() {
      page >= 1 && perPage >= 1
    }
  }

  function TotalPages(total: nat, perPage: int): nat
    requires perPage >= 1
  {
    if total > 0 then (total + perPage - 1) / perPage else 0
  }

  /** The slice an issue search returns; the guard on the index is what keeps the product in range. */
  function PageOf<T>(s: seq<T>, p: Pagination): (items: seq<T>)
    requires p.Valid()
    ensures |items| <= p.perPage
  {
    var total, index := |s|, p.page - 1;
    if total > 0 && index <= total / p.perPage then
      GuardBoundsProduct(total, index, p.perPage);
      var start := index * p.perPage;
      if start < total then
        var end := if start + p.perPage < total then start + p.perPage else total;
        s[start..end]
      else []
    else []
  }

  /** No page, however large, makes the guarded search compute an offset beyond the list. */
  lemma GuardBoundsProduct(total: nat, index: nat, perPage: int)
    requires perPage >= 1 && index <= total / perPage
    ensures 0 <= index * perPage <= total
  {
    assert (total / perPage) * perPage <= total;
    assert index * perPage <= (total / perPage) * perPage by { MulMonotone(index, total / perPage, perPage); }
  }

  lemma MulMonotone(x: nat, y: nat, z: nat)
    requires x <= y
    ensures x * z <= y * z
  {
    assert y * z == x * z + (y - x) * z;
  }

  /** The slice of a repository discovery, which multiplies unguarded. */
  function DiscoveryPageOf<T>(s: seq<T>, p: Pagination): seq<T>
    requires p.Valid()
  {
    var start := (p.page - 1) * p.perPage;
    assert start >= 0 by { MulMonotone(0, p.page - 1, p.perPage); }
    if start < |s| then
      var end := if start + p.perPage < |s| then start + p.perPage else |s|;
      s[start..end]
    else []
  }

  /** The guard never changes the answer. */
  lemma GuardedPageIsPlainPage<T>(s: seq<T>, p: Pagination)
    requires p.Valid()
    ensures PageOf(s, p) == DiscoveryPageOf(s, p)
  {
    var index, total := p.page - 1, |s|;
    if index > total / p.perPage {
      MulMonotone(total / p.perPage + 1, index, p.perPage);
      assert (total / p.perPage + 1) * p.perPage > total;
    }
  }

  /** The items of the first n pages. */
  function FirstPages<T>(s: seq<T>, perPage: int, n: nat): seq<T>
    requires perPage >= 1
  {
    if n == 0 then [] else FirstPages(s, perPage, n - 1) + PageOf(s, Pagination(n, perPage))
  }

  lemma {:induction false} FirstPagesArePrefix<T>(s: seq<T>, perPage: int, n: nat)
    requires perPage >= 1
    ensures FirstPages(s, perPage, n) == Prefix(s, n * perPage)
  {
    if n > 0 {
      FirstPagesArePrefix(s, perPage, n - 1);
      PageExtendsPrefix(s, perPage, n - 1);
      assert FirstPages(s, perPage, n) == FirstPages(s, perPage, n - 1) + PageOf(s, Pagination(n, perPage));
    } else {
      assert 0 * perPage == 0;
    }
  }

  function Prefix<T>(s: seq<T>, n: int): seq<T> {
    if n < 0 then [] else if n < |s| then s[..n] else s
  }

  lemma PageExtendsPrefix<T>(s: seq<T>, perPage: int, index: nat)
    requires perPage >= 1
    ensures Prefix(s, index * perPage) + PageOf(s, Pagination(index + 1, perPage)) == Prefix(s, (index + 1) * perPage)
  {
    GuardedPageIsPlainPage(s, Pagination(index + 1, perPage));
    MulMonotone(0, index, perPage);
    var start := index * perPage;
    assert (index + 1) * perPage == start + perPage;
  }

  /** Walking pages 1 to TotalPages visits every item once and in order; later pages are empty; a further page
      is announced exactly when it is not empty. */
  lemma PagesCoverList<T>(s: seq<T>, p: Pagination)
    requires p.Valid()
    ensures FirstPages(s, p.perPage, TotalPages(|s|, p.perPage)) == s
    ensures p.page <= TotalPages(|s|, p.perPage) <==> PageOf(s, p) != []
    ensures p.page < TotalPages(|s|, p.perPage) <==> PageOf(s, Pagination(p.page + 1, p.perPage)) != []
  {
    var total, n := |s|, TotalPages(|s|, p.perPage);
    FirstPagesArePrefix(s, p.perPage, n);
    CeilingBounds(total, p.perPage);
    NonEmptyPages(s, p);
    NonEmptyPages(s, Pagination(p.page + 1, p.perPage));
  }

  lemma CeilingBounds(total: nat, perPage: int)
    requires perPage >= 1
    ensures TotalPages(total, perPage) * perPage >= total
    ensures total > 0 ==> (TotalPages(total, perPage) - 1) * perPage < total
  {
    if total > 0 {
      var n := (total + perPage - 1) / perPage;
      assert n * perPage <= total + perPage - 1 < n * perPage + perPage;
      assert (n - 1) * perPage == n * perPage - perPage;
    }
  }

  lemma NonEmptyPages<T>(s: seq<T>, p: Pagination)
    requires p.Valid()
    ensures p.page <= TotalPages(|s|, p.perPage) <==> PageOf(s, p) != []
  {
    var n := TotalPages(|s|, p.perPage);
    CeilingBounds(|s|, p.perPage);
    GuardedPageIsPlainPage(s, p);
    if p.page <= n {
      MulMonotone(p.page - 1, n - 1, p.perPage);
    } else {
      MulMonotone(n, p.page - 1, p.perPage);
    }
  }

  /** How many candidates one request analyses. */
  function AnalysisLimit(hasRecommender: bool, analysisLimit: nat, p: Pagination, candidates: nat): nat
    requires p.Valid()
  {
    if !hasRecommender || candidates == 0 then 0
    else
      var limit :=
        if p.page <= analysisLimit / p.perPage then
          GuardBoundsProduct(analysisLimit, p.page, p.perPage);
          Min(analysisLimit, p.page * p.perPage)
        else analysisLimit;
      Min(limit, candidates)
  }

  function Min(x: nat, y: nat): nat {
    if x < y then x else y
  }

  /** The overflow-safe limit is the plain minimum of the bound, the items up to this page and the candidates. */
  lemma AnalysisLimitIsMinimum(analysisLimit: nat, p: Pagination, candidates: nat)
    requires p.Valid()
    ensures p.page * p.perPage >= 0
    ensures AnalysisLimit(true, analysisLimit, p, candidates)
         == Min(Min(analysisLimit, p.page * p.perPage), candidates)
    ensures AnalysisLimit(false, analysisLimit, p, candidates) == 0
  {
    MulMonotone(0, p.page, p.perPage);
    if p.page > analysisLimit / p.perPage {
      MulMonotone(analysisLimit / p.perPage + 1, p.page, p.perPage);
      assert (analysisLimit / p.perPage + 1) * p.perPage > analysisLimit;
    }
  }

  /** A page in the items themselves: the next perPage of them, or what is left. */
  lemma PageInItems<T>(s: seq<T>, p: Pagination)
    requires p.Valid()
    ensures var start := (p.page - 1) * p.perPage;
      && (forall k :: 0 <= k < |PageOf(s, p)| ==> 0 <= start + k < |s| && PageOf(s, p)[k] == s[start + k])
      && (|PageOf(s, p)| == p.perPage || |PageOf(s, p)| == if start < |s| then |s| - start else 0)
  {
    GuardedPageIsPlainPage(s, p);
    MulMonotone(0, p.page - 1, p.perPage);
  }

  // ----- one response -----

  datatype Environment = Environment(lower: string -> string, fold: string -> string, now: int)

  /** The preference matches of an evaluated issue: the candidate's, one for not being stale or staleness being
      accepted, one for its effort. */
  function RankedMatches(criteria: SearchCriteria, now: int): RankedIssue -> int {
    (r: RankedIssue) =>
      MatchCount(ReasonsOf(criteria, now)(r.candidate))
      + (if criteria.includesStale || NotStale(r) then 1 else 0)
      + (if criteria.maximumEffort.None? || WithinEffort(criteria.maximumEffort.value, r) then 1 else 0)
  }

  /** Nothing speaks against showing the issue as far as its age goes. */
  predicate NotTooOld(criteria: SearchCriteria, r: RankedIssue) {
    criteria.includesStale || !r.stale.Stale?
  }

  /** The effort is known and within what was asked for. */
  predicate Affordable(criteria: SearchCriteria, r: RankedIssue) {
    criteria.maximumEffort.Some? ==> 1 <= r.effort && r.effort <= criteria.maximumEffort.value
  }

  /** The matches of an evaluated issue, counted in its fields. */
  function MatchesMet(criteria: SearchCriteria, now: int): RankedIssue -> int {
    (r: RankedIssue) =>
      PreferencesMet(criteria, r.candidate, now)
      + (if NotTooOld(criteria, r) then 1 else 0) + (if Affordable(criteria, r) then 1 else 0)
  }

  lemma MatchesInFields(criteria: SearchCriteria, now: int, r: RankedIssue)
    ensures RankedMatches(criteria, now)(r) == MatchesMet(criteria, now)(r)
  {
    CandidateWindow.MatchesInFields(criteria, now, r.candidate);
    Tally(criteria, r, MatchCount(ReasonsOf(criteria, now)(r.candidate)), PreferencesMet(criteria, r.candidate, now));
  }

  lemma Tally(criteria: SearchCriteria, r: RankedIssue, counted: int, met: int)
    requires counted == met
    ensures counted + (if criteria.includesStale || NotStale(r) then 1 else 0)
            + (if criteria.maximumEffort.None? || WithinEffort(criteria.maximumEffort.value, r) then 1 else 0)
         == met + (if NotTooOld(criteria, r) then 1 else 0) + (if Affordable(criteria, r) then 1 else 0)
  {
  }

  /** What survives the filters, in the fields: what is not too old and affordable; when there is none of that, what is
      not too old; and everything when all is too old. */
  lemma PostAnalysisInFields(criteria: SearchCriteria, ranked: seq<RankedIssue>, partial: bool)
    ensures var f := PostAnalysis(criteria, ranked, partial);
      var current := Filter(r => NotTooOld(criteria, r), ranked);
      var fitting := Filter(r => NotTooOld(criteria, r) && Affordable(criteria, r), ranked);
      if fitting != [] then f.kept == fitting && f.staleExcluded == |ranked| - |current| && f.partial == partial
      else if current != [] then f.kept == current && f.staleExcluded == |ranked| - |current| && f.partial
      else f.kept == ranked && f.staleExcluded == 0 && f.partial == (partial || ranked != [])
  {
    var current, both := r => NotTooOld(criteria, r), r => NotTooOld(criteria, r) && Affordable(criteria, r);
    if criteria.includesStale {
      FilterAll(current, ranked);
    } else {
      FilterSame(r => NotStale(r), current, ranked);
    }
    var kept := WithoutStale(criteria, ranked);
    assert kept == Filter(current, ranked);
    FilterNarrower(both, current, ranked);
    forall r | r in kept ensures NotTooOld(criteria, r) { FilterMember(current, ranked, r); }
    AffordableOf(criteria, kept);
  }

  /** The filter by effort of issues that are not too old. */
  lemma AffordableOf(criteria: SearchCriteria, kept: seq<RankedIssue>)
    requires forall r :: r in kept ==> NotTooOld(criteria, r)
    ensures WithoutEffort(criteria, kept) == Filter(r => NotTooOld(criteria, r) && Affordable(criteria, r), kept)
  {
    var both := r => NotTooOld(criteria, r) && Affordable(criteria, r);
    match criteria.maximumEffort
    case None => FilterAll(both, kept);
    case Some(maximum) => FilterSame(r => WithinEffort(maximum, r), both, kept);
  }

  datatype Response = Response(
    items: seq<RankedIssue>, total: nat, totalPages: nat, hasNext: bool, partial: bool, counts: Counts)

  /** Everything a search lists over all its pages. */
  function Listing(env: Environment, criteria: SearchCriteria, ranked: seq<RankedIssue>, partial: bool)
    : seq<RankedIssue>
  {
    var filtered := PostAnalysis(criteria, ranked, partial);
    Capped(env.fold, ResponseOrder(env.lower, criteria.sortBy, filtered.partial,
                                   RankedMatches(criteria, env.now), filtered.kept))
  }

  /** What may stand before what in a response. */
  ghost function ListedBefore(env: Environment, criteria: SearchCriteria, partial: bool)
    : (RankedIssue, RankedIssue) -> bool
  {
    (x, y) => Listed(env.lower, criteria.sortBy, partial, MatchesMet(criteria, env.now), x, y)
  }

  lemma ListedBySameMatches(env: Environment, criteria: SearchCriteria, partial: bool, x: RankedIssue, y: RankedIssue)
    requires Listed(env.lower, criteria.sortBy, partial, RankedMatches(criteria, env.now), x, y)
    ensures ListedBefore(env, criteria, partial)(x, y)
  {
    MatchesInFields(criteria, env.now, x);
    MatchesInFields(criteria, env.now, y);
  }

  /** The whole listing, before and after the cap, stands in the order its fields ask for. */
  lemma ListingInFields(env: Environment, criteria: SearchCriteria, ranked: seq<RankedIssue>, partial: bool)
    ensures Pairwise(ListedBefore(env, criteria, PostAnalysis(criteria, ranked, partial).partial),
                     Listing(env, criteria, ranked, partial))
  {
    var f := PostAnalysis(criteria, ranked, partial);
    var matches, before := RankedMatches(criteria, env.now), ListedBefore(env, criteria, f.partial);
    var ordered := ResponseOrder(env.lower, criteria.sortBy, f.partial, matches, f.kept);
    ListedByFields(env.lower, criteria.sortBy, f.partial, matches, f.kept);
    forall i, j | 0 <= i < j < |ordered| ensures before(ordered[i], ordered[j]) {
      ListedBySameMatches(env, criteria, f.partial, ordered[i], ordered[j]);
    }
    CapIsSubsequence(env.fold, ordered);
    SubsequencePairwise(before, Capped(env.fold, ordered), ordered);
  }

  method Slice<T>(list: seq<T>, p: Pagination) returns (items: seq<T>, totalPages: nat)
    requires p.Valid()
    ensures items == PageOf(list, p) && totalPages == TotalPages(|list|, p.perPage)
  {
    var total := |list|;
    totalPages := 0;
    if total > 0 {
      totalPages := (total + p.perPage - 1) / p.perPage;
    }
    items := [];
    var pageIndex := p.page - 1;
    if total > 0 && pageIndex <= total / p.perPage {
      GuardBoundsProduct(total, pageIndex, p.perPage);
      var start := pageIndex * p.perPage;
      if start < total {
        items := items + list[start..if start + p.perPage < total then start + p.perPage else total];
      }
    }
  }

  /** The part of issueSearchOutput after enrichment. */
  method IssueSearchOutput(
    env: Environment, criteria: SearchCriteria, ranked: seq<RankedIssue>, partialMatches: bool,
    entryCounts: Counts, p: Pagination
  ) returns (r: Response)
    requires p.Valid()
    ensures var list := Listing(env, criteria, ranked, partialMatches);
            && r.items == PageOf(list, p)
            && r.total == |list|
            && r.totalPages == TotalPages(|list|, p.perPage)
            && r.hasNext == (p.page < r.totalPages)
    ensures Pairwise(ListedBefore(env, criteria, r.partial), r.items)
    ensures r.partial == PostAnalysis(criteria, ranked, partialMatches).partial
    ensures forall reason :: CountOf(r.counts, reason) == CountOf(entryCounts, reason)
              + if reason == StaleIssue then PostAnalysis(criteria, ranked, partialMatches).staleExcluded else 0
  {
    var filtered := ApplyPostAnalysisFilters(ranked, criteria, partialMatches);
    var ordered := SortRankedIssues(env.lower, filtered.kept, criteria.sortBy);
    if filtered.partial {
      ordered := StableSort(Descending(RankedMatches(criteria, env.now)), ordered);
    }
    var limited := LimitIssuesPerRepository(env.fold, ordered);
    var items, totalPages := Slice(limited, p);
    ListingInFields(env, criteria, ranked, partialMatches);
    PageInItems(limited, p);
    var counts := entryCounts;
    if filtered.staleExcluded > 0 {
      counts := counts[StaleIssue := CountOf(counts, StaleIssue) + filtered.staleExcluded];
    }
    r := Response(items, |limited|, totalPages, p.page < totalPages, filtered.partial, counts);
  }

  // ----- main results -----

  lemma FilterKeepsUnique(lower: string -> string, keep: RankedIssue -> bool, s: seq<RankedIssue>)
    requires UniqueReferences(lower, s)
    ensures UniqueReferences(lower, Filter(keep, s))
  {
    forall x ensures x in Filter(keep, s) ==> x in s { FilterMember(keep, s, x); }
  }

  lemma StaleFilterOfPermutation(
    lower: string -> string, criteria: SearchCriteria, s: seq<RankedIssue>, t: seq<RankedIssue>)
    requires multiset(s) == multiset(t) && UniqueReferences(lower, s)
    ensures multiset(WithoutStale(criteria, s)) == multiset(WithoutStale(criteria, t))
    ensures UniqueReferences(lower, WithoutStale(criteria, s))
  {
    if !criteria.includesStale {
      FilterOfPermutation(r => NotStale(r), s, t);
      FilterKeepsUnique(lower, r => NotStale(r), s);
    }
  }

  lemma EffortFilterOfPermutation(
    lower: string -> string, criteria: SearchCriteria, s: seq<RankedIssue>, t: seq<RankedIssue>)
    requires multiset(s) == multiset(t) && UniqueReferences(lower, s)
    ensures multiset(WithoutEffort(criteria, s)) == multiset(WithoutEffort(criteria, t))
    ensures UniqueReferences(lower, WithoutEffort(criteria, s))
  {
    if criteria.maximumEffort.Some? {
      var maximum := criteria.maximumEffort.value;
      FilterOfPermutation(r => WithinEffort(maximum, r), s, t);
      FilterKeepsUnique(lower, r => WithinEffort(maximum, r), s);
    }
  }

  lemma SameSize<T>(s: seq<T>, t: seq<T>)
    requires multiset(s) == multiset(t)
    ensures |s| == |t|
  {
    assert |multiset(s)| == |s|;
  }

  /** Filtering commutes with reordering: same survivors, same counters, same flag. */
  lemma PostAnalysisOfPermutation(
    lower: string -> string, criteria: SearchCriteria, s: seq<RankedIssue>, t: seq<RankedIssue>, partial: bool)
    requires multiset(s) == multiset(t) && UniqueReferences(lower, s)
    ensures var f, g := PostAnalysis(criteria, s, partial), PostAnalysis(criteria, t, partial);
            && multiset(f.kept) == multiset(g.kept) && UniqueReferences(lower, f.kept)
            && f.staleExcluded == g.staleExcluded && f.partial == g.partial
  {
    var fs, ft := WithoutStale(criteria, s), WithoutStale(criteria, t);
    StaleFilterOfPermutation(lower, criteria, s, t);
    EffortFilterOfPermutation(lower, criteria, fs, ft);
    SameSize(s, t);
    SameSize(fs, ft);
    SameSize(WithoutEffort(criteria, fs), WithoutEffort(criteria, ft));
  }

  /** The listing, and with it every page, total and flag of a response, depends only on which evaluated issues
      there are and not on the order they were evaluated or cached in. */
  lemma ListingIsCanonical(
    env: Environment, criteria: SearchCriteria, s: seq<RankedIssue>, t: seq<RankedIssue>, partial: bool)
    requires multiset(s) == multiset(t) && UniqueReferences(env.lower, s)
    ensures Listing(env, criteria, s, partial) == Listing(env, criteria, t, partial)
  {
    PostAnalysisOfPermutation(env.lower, criteria, s, t, partial);
    var f, g := PostAnalysis(criteria, s, partial), PostAnalysis(criteria, t, partial);
    ResponseOrderIsCanonical(env.lower, criteria.sortBy, f.partial, RankedMatches(criteria, env.now), f.kept, g.kept);
  }

  /** The stale and effort filters never leave a response empty when something was evaluated. */
  lemma ListingNeverEmptied(env: Environment, criteria: SearchCriteria, ranked: seq<RankedIssue>, partial: bool)
    ensures Listing(env, criteria, ranked, partial) == [] <==> ranked == []
  {
    var filtered := PostAnalysis(criteria, ranked, partial);
    var matches := RankedMatches(criteria, env.now);
    var ordered := ResponseOrder(env.lower, criteria.sortBy, filtered.partial, matches, filtered.kept);
    ResponseOrderMembers(env.lower, criteria.sortBy, filtered.partial, matches, filtered.kept);
    assert |multiset(ordered)| == |ordered| && |multiset(filtered.kept)| == |filtered.kept|;
    if ordered != [] {
      var key := KeyOf(env.fold, ordered[0]);
      FilterMember(r => KeyOf(env.fold, r) == key, ordered, ordered[0]);
      CapKeepsFirstThree(env.fold, ordered, key);
      assert OfKey(env.fold, key, Capped(env.fold, ordered)) != [];
    }
  }
}
