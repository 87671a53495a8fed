/** The three orderings of a result list and what their chain amounts to.
    lower stands for strings.ToLower and matches for PreferenceMatchCount; both are arbitrary functions here. */
module Ranking {
  import opened IssueModel
  import opened Sorting

  // ----- comparisons -----

  function ByName(lower: string -> string): (RankedIssue, RankedIssue) -> int {
    (x: RankedIssue, y: RankedIssue) =>
      CompareStrings(lower(x.candidate.repository.fullName), lower(y.candidate.repository.fullName))
  }

  /** The comparator of RankIssues, test by test. */
  function RecommendationOrder(lower: string -> string): (RankedIssue, RankedIssue) -> int {
    (left: RankedIssue, right: RankedIssue) =>
      var byScore := Compare(right.score, left.score);
      if byScore != 0 then byScore else
      var bySkill := Compare(right.skillPercentage, left.skillPercentage);
      if bySkill != 0 then bySkill else
      var byStars := Compare(right.candidate.repository.stars, left.candidate.repository.stars);
      if byStars != 0 then byStars else
      var byUpdate := Compare(right.candidate.issue.updatedAt, left.candidate.issue.updatedAt);
      if byUpdate != 0 then byUpdate else
      var byName :=
        CompareStrings(lower(left.candidate.repository.fullName), lower(right.candidate.repository.fullName));
      if byName != 0 then byName else
      Compare(left.candidate.issue.number, right.candidate.issue.number)
  }

  /** The comparator SortRankedIssues uses for an order other than the recommendation order. */
  function RequestedOrder(order: SearchSort): (RankedIssue, RankedIssue) -> int {
    (left: RankedIssue, right: RankedIssue) =>
      match order
      case SkillMatch => Compare(right.skillPercentage, left.skillPercentage)
      case Effort => Compare(left.effort, right.effort)
      case Difficulty => Compare(left.difficulty, right.difficulty)
      case MaintainerResponse =>
        if left.responseAvailable != right.responseAvailable then (if right.responseAvailable then 1 else -1)
        else Compare(right.responseLevel, left.responseLevel)
      case Updated => Compare(right.candidate.issue.updatedAt, left.candidate.issue.updatedAt)
      case _ => 0
  }

  function RankIssues(lower: string -> string, input: seq<RankedIssue>): seq<RankedIssue> {
    StableSort(RecommendationOrder(lower), input)
  }

  function SortRankedIssues(lower: string -> string, input: seq<RankedIssue>, order: SearchSort): seq<RankedIssue> {
    var ranked := RankIssues(lower, input);
    if order == Recommendation then ranked else StableSort(RequestedOrder(order), ranked)
  }

  /** The order in which a response lists its issues: the requested order over the recommendation order,
      and over both the number of matched preferences when the matches are partial. */
  function ResponseOrder(
    lower: string -> string, order: SearchSort, partial: bool, matches: RankedIssue -> int,
    input: seq<RankedIssue>
  ): seq<RankedIssue> {
    var ranked := SortRankedIssues(lower, input, order);
    if partial then StableSort(Descending(matches), ranked) else ranked
  }

  // ----- every comparator is a total preorder -----

  lemma SamePreorder(c: (RankedIssue, RankedIssue) -> int, d: (RankedIssue, RankedIssue) -> int)
    requires TotalPreorder(d)
    requires forall x, y :: c(x, y) == d(x, y)
    ensures TotalPreorder(c)
  {
    forall x, y, z ensures Chains(c, x, y, z) { assert Chains(d, x, y, z); }
  }

  lemma ByNameIsTotal(lower: string -> string)
    ensures TotalPreorder(ByName(lower))
  {
    var c := ByName(lower);
    forall x, y ensures c(x, y) < 0 <==> c(y, x) > 0 {
      CompareStringsLaws(lower(x.candidate.repository.fullName), lower(y.candidate.repository.fullName), []);
    }
    forall x, y, z ensures Chains(c, x, y, z) {
      CompareStringsLaws(lower(x.candidate.repository.fullName), lower(y.candidate.repository.fullName),
                         lower(z.candidate.repository.fullName));
    }
  }

  /** The nested tests of RankIssues are a lexicographic order over six keys. */
  lemma RecommendationOrderIsTotal(lower: string -> string)
    ensures TotalPreorder(RecommendationOrder(lower))
  {
    var score := Descending((r: RankedIssue) => r.score);
    var skill := Descending((r: RankedIssue) => r.skillPercentage);
    var stars := Descending((r: RankedIssue) => r.candidate.repository.stars);
    var update := Descending((r: RankedIssue) => r.candidate.issue.updatedAt);
    var number := Ascending((r: RankedIssue) => r.candidate.issue.number);
    DescendingIsTotal((r: RankedIssue) => r.score);
    DescendingIsTotal((r: RankedIssue) => r.skillPercentage);
    DescendingIsTotal((r: RankedIssue) => r.candidate.repository.stars);
    DescendingIsTotal((r: RankedIssue) => r.candidate.issue.updatedAt);
    AscendingIsTotal((r: RankedIssue) => r.candidate.issue.number);
    ByNameIsTotal(lower);
    var named := Lexicographic(ByName(lower), number);
    var updated := Lexicographic(update, named);
    var starred := Lexicographic(stars, updated);
    var skilled := Lexicographic(skill, starred);
    var scored := Lexicographic(score, skilled);
    LexicographicIsTotal(ByName(lower), number);
    LexicographicIsTotal(update, named);
    LexicographicIsTotal(stars, updated);
    LexicographicIsTotal(skill, starred);
    LexicographicIsTotal(score, skilled);
    SamePreorder(RecommendationOrder(lower), scored);
  }

  lemma RequestedOrderIsTotal(order: SearchSort)
    ensures TotalPreorder(RequestedOrder(order))
  {
    var c := RequestedOrder(order);
    forall x, y ensures c(x, y) < 0 <==> c(y, x) > 0 { }
    forall x, y, z ensures Chains(c, x, y, z) { }
  }

  // ----- main results -----

  /** Ties of the requested order fall back to the recommendation order: one sort in place of two. */
  lemma RequestedSortIsLexicographic(lower: string -> string, input: seq<RankedIssue>, order: SearchSort)
    ensures order != Recommendation ==>
      SortRankedIssues(lower, input, order)
      == StableSort(Lexicographic(RequestedOrder(order), RecommendationOrder(lower)), input)
    ensures order == Recommendation || order == Unrecognised ==>
      SortRankedIssues(lower, input, order) == RankIssues(lower, input)
  {
    RequestedOrderIsTotal(order);
    RecommendationOrderIsTotal(lower);
    ChainedSorts(RequestedOrder(order), RecommendationOrder(lower), input);
    var ranked := RankIssues(lower, input);
    if order == Unrecognised {
      SortOfSorted(RequestedOrder(order), ranked);
    }
  }

  /** The comparator the whole chain amounts to. */
  ghost function CombinedOrder(lower: string -> string, order: SearchSort, partial: bool, matches: RankedIssue -> int)
    : (RankedIssue, RankedIssue) -> int
  {
    var sorted := Lexicographic(RequestedOrder(order), RecommendationOrder(lower));
    if partial then Lexicographic(Descending(matches), sorted) else sorted
  }

  lemma CombinedOrderIsTotal(lower: string -> string, order: SearchSort, partial: bool, matches: RankedIssue -> int)
    ensures TotalPreorder(CombinedOrder(lower, order, partial, matches))
  {
    RequestedOrderIsTotal(order);
    RecommendationOrderIsTotal(lower);
    LexicographicIsTotal(RequestedOrder(order), RecommendationOrder(lower));
    DescendingIsTotal(matches);
    LexicographicIsTotal(Descending(matches), Lexicographic(RequestedOrder(order), RecommendationOrder(lower)));
  }

  /** For every order, partial or not, the two or three chained stable sorts are one lexicographic sort. */
  lemma ResponseOrderIsOneSort(
    lower: string -> string, order: SearchSort, partial: bool, matches: RankedIssue -> int,
    input: seq<RankedIssue>)
    ensures ResponseOrder(lower, order, partial, matches, input)
         == StableSort(CombinedOrder(lower, order, partial, matches), input)
  {
    RequestedOrderIsTotal(order);
    RecommendationOrderIsTotal(lower);
    LexicographicIsTotal(RequestedOrder(order), RecommendationOrder(lower));
    DescendingIsTotal(matches);
    var sorted := Lexicographic(RequestedOrder(order), RecommendationOrder(lower));
    RequestedSortIsLexicographic(lower, input, order);
    if order == Recommendation {
      ChainedSorts(RequestedOrder(order), RecommendationOrder(lower), input);
      SortOfSorted(RequestedOrder(order), RankIssues(lower, input));
    }
    assert SortRankedIssues(lower, input, order) == StableSort(sorted, input);
    if partial {
      ChainedSorts(Descending(matches), sorted, input);
    }
  }

  /** No two members share both their lower-cased repository name and their issue number. */
  ghost predicate UniqueReferences(lower: string -> string, s: seq<RankedIssue>) {
    forall x, y :: x in s && y in s
                   && lower(x.candidate.repository.fullName) == lower(y.candidate.repository.fullName)
                   && x.candidate.issue.number == y.candidate.issue.number
                   ==> x == y
  }

  lemma CombinedTieIsSameReference(
    lower: string -> string, order: SearchSort, partial: bool, matches: RankedIssue -> int,
    x: RankedIssue, y: RankedIssue)
    requires CombinedOrder(lower, order, partial, matches)(x, y) == 0
    ensures lower(x.candidate.repository.fullName) == lower(y.candidate.repository.fullName)
    ensures x.candidate.issue.number == y.candidate.issue.number
  {
    CompareStringsLaws(lower(x.candidate.repository.fullName), lower(y.candidate.repository.fullName), []);
    assert RecommendationOrder(lower)(x, y) == 0;
    assert Compare(x.candidate.issue.number, y.candidate.issue.number) == 0;
  }

  /** With unique references the response order is canonical: any permutation of the input gives the same list. */
  lemma ResponseOrderIsCanonical(
    lower: string -> string, order: SearchSort, partial: bool, matches: RankedIssue -> int,
    s: seq<RankedIssue>, t: seq<RankedIssue>)
    requires multiset(s) == multiset(t) && UniqueReferences(lower, s)
    ensures ResponseOrder(lower, order, partial, matches, s) == ResponseOrder(lower, order, partial, matches, t)
  {
    var c := CombinedOrder(lower, order, partial, matches);
    CombinedOrderIsTotal(lower, order, partial, matches);
    forall x, y | x in s && y in s && c(x, y) == 0 ensures x == y {
      CombinedTieIsSameReference(lower, order, partial, matches, x, y);
    }
    SortCanonical(c, s, t);
    ResponseOrderIsOneSort(lower, order, partial, matches, s);
    ResponseOrderIsOneSort(lower, order, partial, matches, t);
  }

  // ----- what comes first, in the fields -----

  /** x may stand before y in the recommendation order: higher score, then better skill match, more stars, later
      update, smaller lower-cased name, smaller number. */
  ghost predicate Recommended(lower: string -> string, x: RankedIssue, y: RankedIssue) {
    && x.score >= y.score
    && (x.score == y.score ==> BetterMatch(lower, x, y))
  }

  ghost predicate BetterMatch(lower: string -> string, x: RankedIssue, y: RankedIssue) {
    && x.skillPercentage >= y.skillPercentage
    && (x.skillPercentage == y.skillPercentage ==>
          && x.candidate.repository.stars >= y.candidate.repository.stars
          && (x.candidate.repository.stars == y.candidate.repository.stars ==>
                && x.candidate.issue.updatedAt >= y.candidate.issue.updatedAt
                && (x.candidate.issue.updatedAt == y.candidate.issue.updatedAt ==> SmallerReference(lower, x, y))))
  }

  ghost predicate SmallerReference(lower: string -> string, x: RankedIssue, y: RankedIssue) {
    var nameX, nameY := lower(x.candidate.repository.fullName), lower(y.candidate.repository.fullName);
    AtMost(nameX, nameY) && (nameX == nameY ==> x.candidate.issue.number <= y.candidate.issue.number)
  }

  /** The requested field decides first: better match, smaller effort, smaller difficulty, a known and better
      response level, later update; ties fall back to the recommendation order. */
  ghost predicate Requested(lower: string -> string, order: SearchSort, x: RankedIssue, y: RankedIssue) {
    match order
    case SkillMatch =>
      x.skillPercentage > y.skillPercentage || (x.skillPercentage == y.skillPercentage && Recommended(lower, x, y))
    case Effort => x.effort < y.effort || (x.effort == y.effort && Recommended(lower, x, y))
    case Difficulty => x.difficulty < y.difficulty || (x.difficulty == y.difficulty && Recommended(lower, x, y))
    case MaintainerResponse =>
      || (x.responseAvailable && !y.responseAvailable)
      || (x.responseAvailable == y.responseAvailable && x.responseLevel > y.responseLevel)
      || (x.responseAvailable == y.responseAvailable && x.responseLevel == y.responseLevel && Recommended(lower, x, y))
    case Updated =>
      || x.candidate.issue.updatedAt > y.candidate.issue.updatedAt
      || (x.candidate.issue.updatedAt == y.candidate.issue.updatedAt && Recommended(lower, x, y))
    case Recommendation => Recommended(lower, x, y)
    case Unrecognised => Recommended(lower, x, y)
  }

  lemma RecommendationInFields(lower: string -> string, x: RankedIssue, y: RankedIssue)
    ensures RecommendationOrder(lower)(x, y) <= 0 <==> Recommended(lower, x, y)
  {
    var nameX, nameY := lower(x.candidate.repository.fullName), lower(y.candidate.repository.fullName);
    CompareStringsIff(nameX, nameY);
    CompareStringsLaws(nameX, nameY, []);
  }

  /** RankIssues: a permutation in which every issue may stand before all later ones. */
  lemma RankedByFields(lower: string -> string, input: seq<RankedIssue>)
    ensures var r := RankIssues(lower, input);
      && multiset(r) == multiset(input)
      && forall i, j :: 0 <= i < j < |r| ==> Recommended(lower, r[i], r[j])
  {
    var r := RankIssues(lower, input);
    RecommendationOrderIsTotal(lower);
    SortSorted(RecommendationOrder(lower), input);
    SortMembers(RecommendationOrder(lower), input);
    forall i, j | 0 <= i < j < |r| ensures Recommended(lower, r[i], r[j]) {
      RecommendationInFields(lower, r[i], r[j]);
    }
  }

  lemma RequestedInFields(lower: string -> string, order: SearchSort, x: RankedIssue, y: RankedIssue)
    requires Lexicographic(RequestedOrder(order), RecommendationOrder(lower))(x, y) <= 0
    ensures Requested(lower, order, x, y)
  {
    RecommendationInFields(lower, x, y);
  }

  /** SortRankedIssues: the same for the requested field over the recommendation order. */
  lemma SortedByRequestedField(lower: string -> string, input: seq<RankedIssue>, order: SearchSort)
    ensures var r := SortRankedIssues(lower, input, order);
      && multiset(r) == multiset(input)
      && forall i, j :: 0 <= i < j < |r| ==> Requested(lower, order, r[i], r[j])
  {
    ListedByFields(lower, order, false, (r: RankedIssue) => 0, input);
  }

  /** What may stand before what in a response; partial results put the number of matches first. */
  ghost predicate Listed(
    lower: string -> string, order: SearchSort, partial: bool, matches: RankedIssue -> int,
    x: RankedIssue, y: RankedIssue)
  {
    if partial then matches(x) > matches(y) || (matches(x) == matches(y) && Requested(lower, order, x, y))
    else Requested(lower, order, x, y)
  }

  /** The order of a response before its cap, for every requested order, partial or not. */
  lemma ListedByFields(
    lower: string -> string, order: SearchSort, partial: bool, matches: RankedIssue -> int, input: seq<RankedIssue>)
    ensures var r := ResponseOrder(lower, order, partial, matches, input);
      && multiset(r) == multiset(input)
      && forall i, j :: 0 <= i < j < |r| ==> Listed(lower, order, partial, matches, r[i], r[j])
  {
    var c, r := CombinedOrder(lower, order, partial, matches), ResponseOrder(lower, order, partial, matches, input);
    ResponseOrderIsOneSort(lower, order, partial, matches, input);
    CombinedOrderIsTotal(lower, order, partial, matches);
    SortSorted(c, input);
    SortMembers(c, input);
    forall i, j | 0 <= i < j < |r| ensures Listed(lower, order, partial, matches, r[i], r[j]) {
      assert c(r[i], r[j]) <= 0;
      CombinedInFields(lower, order, partial, matches, r[i], r[j]);
    }
  }

  lemma CombinedInFields(
    lower: string -> string, order: SearchSort, partial: bool, matches: RankedIssue -> int,
    x: RankedIssue, y: RankedIssue)
    requires CombinedOrder(lower, order, partial, matches)(x, y) <= 0
    ensures Listed(lower, order, partial, matches, x, y)
  {
    if !partial || matches(x) == matches(y) {
      assert Lexicographic(RequestedOrder(order), RecommendationOrder(lower))(x, y) <= 0;
      RequestedInFields(lower, order, x, y);
    }
  }

  /** The response order is a permutation of its input. */
  lemma ResponseOrderMembers(
    lower: string -> string, order: SearchSort, partial: bool, matches: RankedIssue -> int,
    input: seq<RankedIssue>)
    ensures multiset(ResponseOrder(lower, order, partial, matches, input)) == multiset(input)
  {
    ResponseOrderIsOneSort(lower, order, partial, matches, input);
    SortMembers(CombinedOrder(lower, order, partial, matches), input);
  }
}
