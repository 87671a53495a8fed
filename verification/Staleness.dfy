/** The staleness policy of one issue. Times are seconds, zero is an unset time. */
module Staleness {
  import opened IssueModel

  const FRESH_WITHIN_DAYS := 30
  const STALE_AFTER_DAYS := 180
  const MAXIMUM_CLAIM_COMMENTS := 100

  datatype Comment = Comment(createdAt: nat, bot: bool, maintainer: bool)

  datatype PullRequest = PullRequest(number: int, updatedAt: nat, draft: bool, open: bool, mergedAt: nat)

  datatype Input = Input(
    now: nat, createdAt: nat, updatedAt: nat, archived: bool, claimed: bool, assignees: nat,
    comments: seq<Comment>, commentsTruncated: bool, linked: seq<PullRequest>, linkedTruncated: bool)

  /** The rule that decided. */
  datatype Rule =
    | DatesUnavailable | RepositoryArchived | PullRequestMerged | MaintainerRecent | PullRequestActive
    | RecentlyCreated | WorkObserved | HistoryTruncated | Inactive | Ageing

  datatype Assessment = Assessment(
    state: StaleState, rule: Rule, lastHuman: nat, lastMaintainer: nat, lastLinked: nat, sampleSize: nat,
    truncated: bool)

  predicate RecentWithin(now: nat, observed: nat, days: nat) {
    observed != 0 && observed <= now && now - observed <= days * DAY
  }

  predicate OlderThan(now: nat, observed: nat, days: nat) {
    observed != 0 && observed <= now && now - observed > days * DAY
  }

  function LatestTime(a: nat, b: nat): nat {
    if b > a then b else a
  }

  // ----- evidence -----

  function First<T>(s: seq<T>, limit: nat): seq<T> {
    if |s| > limit then s[..limit] else s
  }

  predicate Seen(c: Comment, now: nat) {
    c.createdAt != 0 && c.createdAt <= now
  }

  predicate Human(c: Comment, now: nat) {
    Seen(c, now) && !c.bot
  }

  predicate SeenPullRequest(p: PullRequest, now: nat) {
    p.number >= 1 && p.updatedAt != 0 && p.updatedAt <= now
  }

  predicate Counts(p: PullRequest, now: nat) {
    SeenPullRequest(p, now) && !p.draft
  }

  /** The latest of base and the times of the items that count. */
  function Latest<T>(s: seq<T>, counts: T -> bool, at: T -> nat, base: nat): nat {
    if s == [] then base
    else
      var earlier, last := Latest(s[..|s| - 1], counts, at, base), s[|s| - 1];
      if counts(last) then LatestTime(earlier, at(last)) else earlier
  }

  function Size<T>(s: seq<T>, counts: T -> bool): nat {
    if s == [] then 0 else Size(s[..|s| - 1], counts) + if counts(s[|s| - 1]) then 1 else 0
  }

  function At(): Comment -> nat {
    (c: Comment) => c.createdAt
  }

  function UpdatedAt(): PullRequest -> nat {
    (p: PullRequest) => p.updatedAt
  }

  function SeenAt(now: nat): Comment -> bool {
    c => Seen(c, now)
  }

  function SeenPullRequestAt(now: nat): PullRequest -> bool {
    p => SeenPullRequest(p, now)
  }

  function HumanAt(now: nat): Comment -> bool {
    c => Human(c, now)
  }

  function MaintainerAt(now: nat): Comment -> bool {
    c => Human(c, now) && c.maintainer
  }

  function CountsAt(now: nat): PullRequest -> bool {
    p => Counts(p, now)
  }

  predicate Qualifies(p: PullRequest, now: nat, merged: bool) {
    Counts(p, now) && if merged then p.mergedAt != 0 else p.open
  }

  predicate AnyPullRequest(s: seq<PullRequest>, now: nat, merged: bool) {
    exists i :: 0 <= i < |s| && Qualifies(s[i], now, merged)
  }

  /** What the loops collect. */
  datatype Evidence = Evidence(
    lastHuman: nat, lastMaintainer: nat, lastLinked: nat, sampleSize: nat, open: bool, merged: bool, truncated: bool)

  function Now(input: Input): nat {
    if input.now == 0 then input.updatedAt else input.now
  }

  function Collected(input: Input): Evidence {
    var now := Now(input);
    var comments, linked := First(input.comments, MAXIMUM_CLAIM_COMMENTS), First(input.linked, MAXIMUM_METRIC_SAMPLES);
    Evidence(
      Latest(linked, CountsAt(now), UpdatedAt(), Latest(comments, HumanAt(now), At(), input.createdAt)),
      Latest(comments, MaintainerAt(now), At(), 0),
      Latest(linked, CountsAt(now), UpdatedAt(), 0),
      Size(comments, SeenAt(now)) + Size(linked, SeenPullRequestAt(now)),
      AnyPullRequest(linked, now, false),
      AnyPullRequest(linked, now, true),
      input.commentsTruncated || input.linkedTruncated
      || |input.comments| > MAXIMUM_CLAIM_COMMENTS || |input.linked| > MAXIMUM_METRIC_SAMPLES)
  }

  predicate DatesValid(input: Input) {
    Now(input) != 0 && input.createdAt != 0 && input.updatedAt != 0 && input.createdAt <= Now(input)
  }

  function Verdict(input: Input, e: Evidence): (StaleState, Rule) {
    var now := Now(input);
    if !DatesValid(input) then (Unknown, DatesUnavailable)
    else if input.archived then (Stale, RepositoryArchived)
    else if e.merged then (Stale, PullRequestMerged)
    else if RecentWithin(now, e.lastMaintainer, FRESH_WITHIN_DAYS) then (Fresh, MaintainerRecent)
    else if e.open && RecentWithin(now, e.lastLinked, FRESH_WITHIN_DAYS) then (Fresh, PullRequestActive)
    else if RecentWithin(now, input.createdAt, FRESH_WITHIN_DAYS) then (Fresh, RecentlyCreated)
    else if input.claimed || input.assignees > 0 || e.open then (Aging, WorkObserved)
    else if e.truncated then (Unknown, HistoryTruncated)
    else if OlderThan(now, e.lastHuman, STALE_AFTER_DAYS) then (Stale, Inactive)
    else (Aging, Ageing)
  }

  function StateOf(input: Input): StaleState {
    Verdict(input, Collected(input)).0
  }

  /** The loop over the comments. */
  method ScanComments(comments: seq<Comment>, now: nat, createdAt: nat)
    returns (lastHuman: nat, lastMaintainer: nat, sampleSize: nat)
    ensures lastHuman == Latest(comments, HumanAt(now), At(), createdAt)
    ensures lastMaintainer == Latest(comments, MaintainerAt(now), At(), 0)
    ensures sampleSize == Size(comments, SeenAt(now))
  {
    lastHuman, lastMaintainer, sampleSize := createdAt, 0, 0;
    for i := 0 to |comments|
      invariant lastHuman == Latest(comments[..i], HumanAt(now), At(), createdAt)
      invariant lastMaintainer == Latest(comments[..i], MaintainerAt(now), At(), 0)
      invariant sampleSize == Size(comments[..i], SeenAt(now))
    {
      var comment := comments[i];
      assert comments[..i + 1][..i] == comments[..i];
      if comment.createdAt == 0 || comment.createdAt > now { continue; }
      sampleSize := sampleSize + 1;
      if comment.bot { continue; }
      lastHuman := LatestTime(lastHuman, comment.createdAt);
      if comment.maintainer { lastMaintainer := LatestTime(lastMaintainer, comment.createdAt); }
    }
    assert comments[..|comments|] == comments;
  }

  /** The loop over the linked pull requests. */
  method ScanPullRequests(linked: seq<PullRequest>, now: nat, commented: nat)
    returns (lastHuman: nat, lastLinked: nat, sampleSize: nat, open: bool, merged: bool)
    ensures lastHuman == Latest(linked, CountsAt(now), UpdatedAt(), commented)
    ensures lastLinked == Latest(linked, CountsAt(now), UpdatedAt(), 0)
    ensures sampleSize == Size(linked, SeenPullRequestAt(now))
    ensures open == AnyPullRequest(linked, now, false) && merged == AnyPullRequest(linked, now, true)
  {
    lastHuman, lastLinked, sampleSize, open, merged := commented, 0, 0, false, false;
    for i := 0 to |linked|
      invariant lastHuman == Latest(linked[..i], CountsAt(now), UpdatedAt(), commented)
      invariant lastLinked == Latest(linked[..i], CountsAt(now), UpdatedAt(), 0)
      invariant sampleSize == Size(linked[..i], SeenPullRequestAt(now))
      invariant open == AnyPullRequest(linked[..i], now, false) && merged == AnyPullRequest(linked[..i], now, true)
    {
      var pullRequest := linked[i];
      assert linked[..i + 1][..i] == linked[..i];
      AnyPullRequestStep(linked, now, false, i);
      AnyPullRequestStep(linked, now, true, i);
      if pullRequest.number < 1 || pullRequest.updatedAt == 0 || pullRequest.updatedAt > now { continue; }
      sampleSize := sampleSize + 1;
      if pullRequest.draft { continue; }
      lastLinked := LatestTime(lastLinked, pullRequest.updatedAt);
      lastHuman := LatestTime(lastHuman, pullRequest.updatedAt);
      open := open || pullRequest.open;
      merged := merged || pullRequest.mergedAt != 0;
    }
    assert linked[..|linked|] == linked;
  }

  method AssessStaleness(input: Input) returns (a: Assessment)
    ensures (a.state, a.rule) == Verdict(input, Collected(input))
    ensures DatesValid(input) ==>
      var e := Collected(input);
      a == Assessment(a.state, a.rule, e.lastHuman, e.lastMaintainer, e.lastLinked, e.sampleSize, e.truncated)
  {
    var now := if input.now == 0 then input.updatedAt else input.now;
    var truncated := input.commentsTruncated || input.linkedTruncated;
    if now == 0 || input.createdAt == 0 || input.updatedAt == 0 || input.createdAt > now {
      return Assessment(Unknown, DatesUnavailable, 0, 0, 0, 0, truncated);
    }
    var comments := input.comments;
    if |comments| > MAXIMUM_CLAIM_COMMENTS {
      comments := comments[..MAXIMUM_CLAIM_COMMENTS];
      truncated := true;
    }
    var commented, lastMaintainer, commentCount := ScanComments(comments, now, input.createdAt);
    var linked := input.linked;
    if |linked| > MAXIMUM_METRIC_SAMPLES {
      linked := linked[..MAXIMUM_METRIC_SAMPLES];
      truncated := true;
    }
    var lastHuman, lastLinked, linkedCount, open, merged := ScanPullRequests(linked, now, commented);
    var e := Evidence(lastHuman, lastMaintainer, lastLinked, commentCount + linkedCount, open, merged, truncated);
    assert e == Collected(input);
    var verdict := Verdict(input, e);
    return Assessment(verdict.0, verdict.1, lastHuman, lastMaintainer, lastLinked, e.sampleSize, truncated);
  }

  lemma AnyPullRequestStep(s: seq<PullRequest>, now: nat, merged: bool, n: nat)
    requires n < |s|
    ensures AnyPullRequest(s[..n + 1], now, merged)
      <==> AnyPullRequest(s[..n], now, merged) || Qualifies(s[n], now, merged)
  {
    var longer, shorter := s[..n + 1], s[..n];
    assert longer == shorter + [s[n]];
    if i :| 0 <= i < n && Qualifies(shorter[i], now, merged) { assert longer[i] == shorter[i]; }
    if i :| 0 <= i <= n && Qualifies(longer[i], now, merged) { assert i < n ==> shorter[i] == longer[i]; }
    assert longer[n] == s[n];
  }

  // ----- what the latest time is -----

  /** The latest time is attained, and nothing that counts is later. */
  lemma {:induction false} LatestIsMaximum<T>(s: seq<T>, counts: T -> bool, at: T -> nat, base: nat)
    ensures var r := Latest(s, counts, at, base);
      && r >= base && (forall i :: 0 <= i < |s| && counts(s[i]) ==> at(s[i]) <= r)
      && (r == base || exists i :: 0 <= i < |s| && counts(s[i]) && at(s[i]) == r)
  {
    if s != [] {
      var n := |s| - 1;
      LatestIsMaximum(s[..n], counts, at, base);
      var earlier, r := Latest(s[..n], counts, at, base), Latest(s, counts, at, base);
      if r != base {
        if r == earlier {
          var i :| 0 <= i < n && counts(s[..n][i]) && at(s[..n][i]) == r;
          assert counts(s[i]) && at(s[i]) == r;
        } else {
          assert counts(s[n]) && at(s[n]) == r;
        }
      }
      forall i | 0 <= i < |s| && counts(s[i]) ensures at(s[i]) <= r {
        if i < n { assert s[..n][i] == s[i]; }
      }
    }
  }

  // ----- the verdict in terms of the evidence -----

  ghost predicate OldComments(comments: seq<Comment>, now: nat) {
    forall i :: 0 <= i < |comments| && Human(comments[i], now) ==>
      OlderThan(now, comments[i].createdAt, STALE_AFTER_DAYS)
  }

  ghost predicate OldPullRequests(linked: seq<PullRequest>, now: nat) {
    forall i :: 0 <= i < |linked| && Counts(linked[i], now) ==> OlderThan(now, linked[i].updatedAt, STALE_AFTER_DAYS)
  }

  lemma LatestOlder<T>(s: seq<T>, counts: T -> bool, at: T -> nat, base: nat, now: nat, days: nat)
    requires base != 0 && base <= now && forall i :: 0 <= i < |s| && counts(s[i]) ==> 0 < at(s[i]) <= now
    ensures Latest(s, counts, at, base) <= now
    ensures OlderThan(now, Latest(s, counts, at, base), days)
      <==> OlderThan(now, base, days) && forall i :: 0 <= i < |s| && counts(s[i]) ==> OlderThan(now, at(s[i]), days)
  {
    LatestIsMaximum(s, counts, at, base);
  }

  /** The latest human or linked time is old exactly when all of them are. */
  lemma TracesOld(comments: seq<Comment>, linked: seq<PullRequest>, createdAt: nat, now: nat)
    requires 0 < createdAt <= now
    ensures var commented := Latest(comments, HumanAt(now), At(), createdAt);
      OlderThan(now, Latest(linked, CountsAt(now), UpdatedAt(), commented), STALE_AFTER_DAYS) <==>
        OlderThan(now, createdAt, STALE_AFTER_DAYS) && OldComments(comments, now) && OldPullRequests(linked, now)
  {
    var commented := Latest(comments, HumanAt(now), At(), createdAt);
    LatestIsMaximum(comments, HumanAt(now), At(), createdAt);
    LatestOlder(comments, HumanAt(now), At(), createdAt, now, STALE_AFTER_DAYS);
    LatestOlder(linked, CountsAt(now), UpdatedAt(), commented, now, STALE_AFTER_DAYS);
    assert OldComments(comments, now) <==>
      forall i :: 0 <= i < |comments| && HumanAt(now)(comments[i]) ==>
        OlderThan(now, At()(comments[i]), STALE_AFTER_DAYS);
    assert OldPullRequests(linked, now) <==>
      forall i :: 0 <= i < |linked| && CountsAt(now)(linked[i]) ==>
        OlderThan(now, UpdatedAt()(linked[i]), STALE_AFTER_DAYS);
  }

  /** Maintainers are human. */
  lemma MaintainerOld(comments: seq<Comment>, now: nat)
    requires OldComments(comments, now)
    ensures var lastMaintainer := Latest(comments, MaintainerAt(now), At(), 0);
      lastMaintainer != 0 ==> OlderThan(now, lastMaintainer, STALE_AFTER_DAYS)
  {
    LatestIsMaximum(comments, MaintainerAt(now), At(), 0);
    var lastMaintainer := Latest(comments, MaintainerAt(now), At(), 0);
    if lastMaintainer != 0 {
      var i :| 0 <= i < |comments| && MaintainerAt(now)(comments[i]) && At()(comments[i]) == lastMaintainer;
      assert Human(comments[i], now);
    }
  }

  /** An issue is stale exactly when its repository is archived, a linked pull request was merged, or the history is
      complete, nobody works on it, and every human trace of it is more than 180 days old. */
  lemma StaleIff(input: Input)
    ensures var now, comments := Now(input), First(input.comments, MAXIMUM_CLAIM_COMMENTS);
      var linked := First(input.linked, MAXIMUM_METRIC_SAMPLES);
      StateOf(input) == Stale <==>
        && DatesValid(input)
        && (|| input.archived || AnyPullRequest(linked, now, true)
            || (&& !Collected(input).truncated && !input.claimed && input.assignees == 0
                && !AnyPullRequest(linked, now, false)
                && OlderThan(now, input.createdAt, STALE_AFTER_DAYS)
                && OldComments(comments, now) && OldPullRequests(linked, now)))
  {
    var now := Now(input);
    var comments, linked := First(input.comments, MAXIMUM_CLAIM_COMMENTS), First(input.linked, MAXIMUM_METRIC_SAMPLES);
    if DatesValid(input) {
      TracesOld(comments, linked, input.createdAt, now);
      if OldComments(comments, now) { MaintainerOld(comments, now); }
    }
  }

  lemma LatestRecent<T>(s: seq<T>, counts: T -> bool, at: T -> nat, now: nat, days: nat)
    requires forall i :: 0 <= i < |s| && counts(s[i]) ==> 0 < at(s[i]) <= now
    ensures RecentWithin(now, Latest(s, counts, at, 0), days)
      <==> exists i :: 0 <= i < |s| && counts(s[i]) && RecentWithin(now, at(s[i]), days)
  {
    LatestIsMaximum(s, counts, at, 0);
  }

  ghost predicate RecentMaintainer(comments: seq<Comment>, now: nat) {
    exists i :: 0 <= i < |comments| && MaintainerAt(now)(comments[i])
      && RecentWithin(now, At()(comments[i]), FRESH_WITHIN_DAYS)
  }

  ghost predicate RecentPullRequest(linked: seq<PullRequest>, now: nat) {
    exists i :: 0 <= i < |linked| && CountsAt(now)(linked[i])
      && RecentWithin(now, UpdatedAt()(linked[i]), FRESH_WITHIN_DAYS)
  }

  /** An issue is fresh exactly when it is neither archived nor merged and, within 30 days, it was created, a
      maintainer wrote, or, with an open linked pull request, a linked pull request moved. */
  lemma FreshIff(input: Input)
    ensures var now, comments := Now(input), First(input.comments, MAXIMUM_CLAIM_COMMENTS);
      var linked := First(input.linked, MAXIMUM_METRIC_SAMPLES);
      StateOf(input) == Fresh <==>
        && DatesValid(input) && !input.archived && !AnyPullRequest(linked, now, true)
        && (|| RecentWithin(now, input.createdAt, FRESH_WITHIN_DAYS) || RecentMaintainer(comments, now)
            || (AnyPullRequest(linked, now, false) && RecentPullRequest(linked, now)))
  {
    var now := Now(input);
    LatestRecent(First(input.comments, MAXIMUM_CLAIM_COMMENTS), MaintainerAt(now), At(), now, FRESH_WITHIN_DAYS);
    LatestRecent(First(input.linked, MAXIMUM_METRIC_SAMPLES), CountsAt(now), UpdatedAt(), now, FRESH_WITHIN_DAYS);
  }

  /** A truncated history makes an issue stale only through its repository or a merged pull request. */
  lemma TruncatedIsStaleOnlyByFact(input: Input)
    requires Collected(input).truncated && StateOf(input) == Stale
    ensures input.archived || AnyPullRequest(First(input.linked, MAXIMUM_METRIC_SAMPLES), Now(input), true)
  {
  }

  // ----- the verdict in the fields -----

  /** A human comment of the last so many days. */
  predicate WroteWithin(c: Comment, now: nat, days: nat) {
    !c.bot && 1 <= c.createdAt && c.createdAt <= now && now <= c.createdAt + days * 86_400
  }

  /** A pull request that is no draft and whose last update is dated. */
  predicate Visible(p: PullRequest, now: nat) {
    p.number >= 1 && !p.draft && 1 <= p.updatedAt && p.updatedAt <= now
  }

  ghost predicate HumanWroteWithin(input: Input, now: nat, days: nat) {
    exists i :: 0 <= i < |input.comments| && i < 100 && WroteWithin(input.comments[i], now, days)
  }

  ghost predicate MaintainerWroteWithin(input: Input, now: nat, days: nat) {
    exists i :: 0 <= i < |input.comments| && i < 100 && input.comments[i].maintainer
                && WroteWithin(input.comments[i], now, days)
  }

  ghost predicate PullMovedWithin(input: Input, now: nat, days: nat) {
    exists i :: 0 <= i < |input.linked| && i < 100 && Visible(input.linked[i], now)
                && now <= input.linked[i].updatedAt + days * 86_400
  }

  ghost predicate PullIsOpen(input: Input, now: nat) {
    exists i :: 0 <= i < |input.linked| && i < 100 && Visible(input.linked[i], now) && input.linked[i].open
  }

  ghost predicate PullIsMerged(input: Input, now: nat) {
    exists i :: 0 <= i < |input.linked| && i < 100 && Visible(input.linked[i], now) && input.linked[i].mergedAt != 0
  }

  predicate Cut(input: Input) {
    input.commentsTruncated || input.linkedTruncated || |input.comments| > 100 || |input.linked| > 100
  }

  lemma CommentsInFields(input: Input, now: nat, days: nat)
    ensures var comments := First(input.comments, MAXIMUM_CLAIM_COMMENTS);
      && (RecentWithin(now, Latest(comments, MaintainerAt(now), At(), 0), days)
          <==> MaintainerWroteWithin(input, now, days))
      && ((forall i :: 0 <= i < |comments| && Human(comments[i], now) ==> OlderThan(now, comments[i].createdAt, days))
          <==> !HumanWroteWithin(input, now, days))
  {
    var comments := First(input.comments, MAXIMUM_CLAIM_COMMENTS);
    LatestRecent(comments, MaintainerAt(now), At(), now, days);
    forall i | 0 <= i < |comments|
      ensures comments[i] == input.comments[i] && i < 100
      ensures Human(comments[i], now) && !OlderThan(now, comments[i].createdAt, days)
        <==> WroteWithin(input.comments[i], now, days)
      ensures MaintainerAt(now)(comments[i]) && RecentWithin(now, At()(comments[i]), days)
        <==> WroteWithin(input.comments[i], now, days) && input.comments[i].maintainer
    {
    }
    if i :| 0 <= i < |input.comments| && i < 100 && WroteWithin(input.comments[i], now, days) {
      assert comments[i] == input.comments[i];
    }
    if i :| 0 <= i < |input.comments| && i < 100 && input.comments[i].maintainer
            && WroteWithin(input.comments[i], now, days)
    {
      assert comments[i] == input.comments[i];
    }
  }

  lemma PullsInFields(input: Input, now: nat, days: nat)
    ensures var linked := First(input.linked, MAXIMUM_METRIC_SAMPLES);
      && (RecentWithin(now, Latest(linked, CountsAt(now), UpdatedAt(), 0), days) <==> PullMovedWithin(input, now, days))
      && ((forall i :: 0 <= i < |linked| && Counts(linked[i], now) ==> OlderThan(now, linked[i].updatedAt, days))
          <==> !PullMovedWithin(input, now, days))
      && (AnyPullRequest(linked, now, false) <==> PullIsOpen(input, now))
      && (AnyPullRequest(linked, now, true) <==> PullIsMerged(input, now))
  {
    var linked := First(input.linked, MAXIMUM_METRIC_SAMPLES);
    LatestRecent(linked, CountsAt(now), UpdatedAt(), now, days);
    forall i | 0 <= i < |linked|
      ensures linked[i] == input.linked[i] && i < 100
      ensures Counts(linked[i], now) <==> Visible(input.linked[i], now)
    {
    }
    if i :| 0 <= i < |input.linked| && i < 100 && Visible(input.linked[i], now)
            && now <= input.linked[i].updatedAt + days * 86_400
    {
      assert linked[i] == input.linked[i] && RecentWithin(now, UpdatedAt()(linked[i]), days);
    }
    OpenInFields(input, now, linked);
    MergedInFields(input, now, linked);
  }

  lemma OpenInFields(input: Input, now: nat, linked: seq<PullRequest>)
    requires linked == First(input.linked, 100)
    ensures AnyPullRequest(linked, now, false) <==> PullIsOpen(input, now)
  {
    if i :| 0 <= i < |linked| && Qualifies(linked[i], now, false) { assert linked[i] == input.linked[i]; }
    if i :| 0 <= i < |input.linked| && i < 100 && Visible(input.linked[i], now) && input.linked[i].open {
      assert Qualifies(linked[i], now, false);
    }
  }

  lemma MergedInFields(input: Input, now: nat, linked: seq<PullRequest>)
    requires linked == First(input.linked, 100)
    ensures AnyPullRequest(linked, now, true) <==> PullIsMerged(input, now)
  {
    if i :| 0 <= i < |linked| && Qualifies(linked[i], now, true) { assert linked[i] == input.linked[i]; }
    if i :| 0 <= i < |input.linked| && i < 100 && Visible(input.linked[i], now) && input.linked[i].mergedAt != 0 {
      assert Qualifies(linked[i], now, true);
    }
  }

  /** The issue has usable dates for its clock. */
  predicate Dated(input: Input, now: nat) {
    now > 0 && input.createdAt > 0 && input.updatedAt > 0 && input.createdAt <= now
  }

  /** Its fate is known. */
  ghost predicate Closed(input: Input, now: nat) {
    input.archived || PullIsMerged(input, now)
  }

  /** Within 30 days it was created, a maintainer wrote, or, with an open pull request, a pull request moved. */
  ghost predicate Young(input: Input, now: nat) {
    || now <= input.createdAt + 30 * 86_400 || MaintainerWroteWithin(input, now, 30)
    || (PullIsOpen(input, now) && PullMovedWithin(input, now, 30))
  }

  /** Somebody works on it. */
  ghost predicate Busy(input: Input, now: nat) {
    input.claimed || input.assignees > 0 || PullIsOpen(input, now)
  }

  /** For 180 days nothing human happened. */
  ghost predicate Quiet(input: Input, now: nat) {
    && now > input.createdAt + 180 * 86_400 && !HumanWroteWithin(input, now, 180) && !PullMovedWithin(input, now, 180)
  }

  /** The four verdicts, each in the fields of the input; an unset clock is the last update of the issue. */
  lemma StateInFields(input: Input)
    ensures var now := if input.now > 0 then input.now else input.updatedAt;
      var open := Dated(input, now) && !Closed(input, now);
      && (StateOf(input) == Fresh <==> open && Young(input, now))
      && (StateOf(input) == Aging <==>
            open && !Young(input, now) && (Busy(input, now) || (!Cut(input) && !Quiet(input, now))))
      && (StateOf(input) == Stale <==>
            || (Dated(input, now) && Closed(input, now))
            || (open && !Young(input, now) && !Busy(input, now) && !Cut(input) && Quiet(input, now)))
      && (StateOf(input) == Unknown <==>
            !Dated(input, now) || (open && !Young(input, now) && !Busy(input, now) && Cut(input)))
  {
    RuleInFields(input);
  }

  /** What the cascade tests, in the fields. */
  lemma EvidenceInFields(input: Input)
    ensures var now, e := Now(input), Collected(input);
      && (RecentWithin(now, e.lastMaintainer, FRESH_WITHIN_DAYS) <==> MaintainerWroteWithin(input, now, 30))
      && (RecentWithin(now, e.lastLinked, FRESH_WITHIN_DAYS) <==> PullMovedWithin(input, now, 30))
      && (e.open <==> PullIsOpen(input, now)) && (e.merged <==> PullIsMerged(input, now))
      && (e.truncated <==> Cut(input))
      && (Dated(input, now) ==> (OlderThan(now, e.lastHuman, STALE_AFTER_DAYS) <==> Quiet(input, now)))
  {
    var now := Now(input);
    CommentsInFields(input, now, 30);
    CommentsInFields(input, now, 180);
    PullsInFields(input, now, 30);
    PullsInFields(input, now, 180);
    if Dated(input, now) {
      TracesOld(First(input.comments, MAXIMUM_CLAIM_COMMENTS), First(input.linked, MAXIMUM_METRIC_SAMPLES),
                input.createdAt, now);
    }
  }

  /** Which rule decides, each in the fields of the input. */
  lemma RuleInFields(input: Input)
    ensures var now := if input.now > 0 then input.now else input.updatedAt;
      var (state, rule) := Verdict(input, Collected(input));
      var open := Dated(input, now) && !Closed(input, now);
      var maintained, moving := MaintainerWroteWithin(input, now, 30),
                                PullIsOpen(input, now) && PullMovedWithin(input, now, 30);
      var idle := open && !Young(input, now) && !Busy(input, now);
      && (rule == DatesUnavailable <==> !Dated(input, now))
      && (rule == RepositoryArchived <==> Dated(input, now) && input.archived)
      && (rule == PullRequestMerged <==> Dated(input, now) && !input.archived && PullIsMerged(input, now))
      && (rule == MaintainerRecent <==> open && maintained)
      && (rule == PullRequestActive <==> open && !maintained && moving)
      && (rule == RecentlyCreated <==>
            open && !maintained && !moving && now <= input.createdAt + 30 * 86_400)
      && (rule == WorkObserved <==> open && !Young(input, now) && Busy(input, now))
      && (rule == HistoryTruncated <==> idle && Cut(input))
      && (rule == Inactive <==> idle && !Cut(input) && Quiet(input, now))
      && (rule == Ageing <==> idle && !Cut(input) && !Quiet(input, now))
      && state == StateOfRule(rule)
  {
    EvidenceInFields(input);
  }

  /** The verdict a rule stands for. */
  function StateOfRule(rule: Rule): StaleState {
    match rule
    case DatesUnavailable => Unknown
    case HistoryTruncated => Unknown
    case RepositoryArchived => Stale
    case PullRequestMerged => Stale
    case Inactive => Stale
    case MaintainerRecent => Fresh
    case PullRequestActive => Fresh
    case RecentlyCreated => Fresh
    case WorkObserved => Aging
    case Ageing => Aging
  }

  // ----- the clock -----

  /** All evidence is dated no later than the clock. */
  ghost predicate DatedBy(input: Input) {
    && input.now != 0 && input.createdAt <= input.now
    && (forall i :: 0 <= i < |input.comments| ==> input.comments[i].createdAt <= input.now)
    && (forall i :: 0 <= i < |input.linked| ==> input.linked[i].updatedAt <= input.now)
  }

  /** Where the clock can take a state: fresh, aging, stale in this order, and from fresh to unknown when the history
      is truncated; stale and unknown are final. */
  predicate Later(before: StaleState, after: StaleState, truncated: bool) {
    || before == after
    || (before == Fresh && (after == Unknown ==> truncated))
    || (before == Aging && after == Stale)
  }

  lemma {:induction false} SameLatest<T>(s: seq<T>, counts: T -> bool, also: T -> bool, at: T -> nat, base: nat)
    requires forall i :: 0 <= i < |s| ==> counts(s[i]) == also(s[i])
    ensures Latest(s, counts, at, base) == Latest(s, also, at, base)
  {
    if s != [] { SameLatest(s[..|s| - 1], counts, also, at, base); }
  }

  lemma SameQualifying(linked: seq<PullRequest>, before: nat, now: nat, merged: bool)
    requires before <= now && forall i :: 0 <= i < |linked| ==> linked[i].updatedAt <= before
    ensures AnyPullRequest(linked, before, merged) <==> AnyPullRequest(linked, now, merged)
  {
    forall i | 0 <= i < |linked| ensures Qualifies(linked[i], before, merged) <==> Qualifies(linked[i], now, merged) {}
  }

  lemma CollectedLater(input: Input, now: nat)
    requires DatedBy(input) && input.now <= now
    ensures var e, f := Collected(input), Collected(input.(now := now));
      && f.lastHuman == e.lastHuman && f.lastMaintainer == e.lastMaintainer && f.lastLinked == e.lastLinked
      && f.open == e.open && f.merged == e.merged && f.truncated == e.truncated
  {
    var comments, linked := First(input.comments, MAXIMUM_CLAIM_COMMENTS), First(input.linked, MAXIMUM_METRIC_SAMPLES);
    SameLatest(comments, HumanAt(input.now), HumanAt(now), At(), input.createdAt);
    SameLatest(comments, MaintainerAt(input.now), MaintainerAt(now), At(), 0);
    SameLatest(linked, CountsAt(input.now), CountsAt(now), UpdatedAt(), 0);
    SameLatest(linked, CountsAt(input.now), CountsAt(now), UpdatedAt(),
               Latest(comments, HumanAt(input.now), At(), input.createdAt));
    SameQualifying(linked, input.now, now, false);
    SameQualifying(linked, input.now, now, true);
  }

  /** For fixed evidence the clock moves the verdict only forward. */
  lemma ClockMovesForward(input: Input, now: nat)
    requires DatedBy(input) && input.now <= now
    ensures Later(StateOf(input), StateOf(input.(now := now)), Collected(input).truncated)
  {
    CollectedLater(input, now);
    var comments, linked := First(input.comments, MAXIMUM_CLAIM_COMMENTS), First(input.linked, MAXIMUM_METRIC_SAMPLES);
    LatestIsMaximum(comments, HumanAt(input.now), At(), input.createdAt);
    LatestIsMaximum(comments, MaintainerAt(input.now), At(), 0);
    LatestIsMaximum(linked, CountsAt(input.now), UpdatedAt(), 0);
    var commented := Latest(comments, HumanAt(input.now), At(), input.createdAt);
    LatestIsMaximum(linked, CountsAt(input.now), UpdatedAt(), commented);
  }

  // ----- one more comment -----

  lemma LatestAppended<T>(s: seq<T>, x: T, counts: T -> bool, at: T -> nat, base: nat)
    ensures Latest(s + [x], counts, at, base)
      == if counts(x) then LatestTime(Latest(s, counts, at, base), at(x)) else Latest(s, counts, at, base)
  {
    assert (s + [x])[..|s|] == s;
  }

  lemma {:induction false} LatestGrowsWithBase<T>(s: seq<T>, counts: T -> bool, at: T -> nat, base: nat, larger: nat)
    requires base <= larger
    ensures Latest(s, counts, at, base) <= Latest(s, counts, at, larger)
  {
    if s != [] { LatestGrowsWithBase(s[..|s| - 1], counts, at, base, larger); }
  }

  /** Later human and maintainer times never turn a verdict stale. */
  lemma VerdictWithLaterTimes(input: Input, comments: seq<Comment>, e: Evidence, f: Evidence)
    requires DatesValid(input) && Verdict(input, e).0 != Stale
    requires e.lastMaintainer <= f.lastMaintainer <= Now(input)
    requires input.createdAt <= e.lastHuman <= f.lastHuman <= Now(input)
    requires f.lastLinked == e.lastLinked && f.open == e.open && f.merged == e.merged && (e.truncated ==> f.truncated)
    ensures Verdict(input.(comments := comments), f).0 != Stale
  {
  }

  /** Appending a comment, whoever wrote it and whenever, never turns an issue stale. */
  lemma CommentNeverMakesStale(input: Input, comment: Comment)
    requires StateOf(input) != Stale
    ensures StateOf(input.(comments := input.comments + [comment])) != Stale
  {
    var after := input.(comments := input.comments + [comment]);
    var now, linked := Now(input), First(input.linked, MAXIMUM_METRIC_SAMPLES);
    if DatesValid(input) {
      var e, f := Collected(input), Collected(after);
      CommentCollected(First(input.comments, MAXIMUM_CLAIM_COMMENTS), comment, linked, now, input.createdAt);
      if |input.comments| < MAXIMUM_CLAIM_COMMENTS {
        assert First(after.comments, MAXIMUM_CLAIM_COMMENTS) == input.comments + [comment];
      } else {
        assert First(after.comments, MAXIMUM_CLAIM_COMMENTS) == First(input.comments, MAXIMUM_CLAIM_COMMENTS);
      }
      VerdictWithLaterTimes(input, after.comments, e, f);
    }
  }

  /** A comment moves the latest human and maintainer times forward, never past the clock. */
  lemma CommentCollected(comments: seq<Comment>, comment: Comment, linked: seq<PullRequest>, now: nat, createdAt: nat)
    requires createdAt <= now
    ensures var before := Latest(comments, MaintainerAt(now), At(), 0);
      var after := Latest(comments + [comment], MaintainerAt(now), At(), 0);
      before <= after <= now
    ensures var base := Latest(comments, HumanAt(now), At(), createdAt);
      var larger := Latest(comments + [comment], HumanAt(now), At(), createdAt);
      var before := Latest(linked, CountsAt(now), UpdatedAt(), base);
      var after := Latest(linked, CountsAt(now), UpdatedAt(), larger);
      createdAt <= before <= after <= now
  {
    LatestAppended(comments, comment, HumanAt(now), At(), createdAt);
    LatestAppended(comments, comment, MaintainerAt(now), At(), 0);
    var base := Latest(comments, HumanAt(now), At(), createdAt);
    var larger := Latest(comments + [comment], HumanAt(now), At(), createdAt);
    LatestGrowsWithBase(linked, CountsAt(now), UpdatedAt(), base, larger);
    LatestIsMaximum(comments, HumanAt(now), At(), createdAt);
    LatestIsMaximum(comments + [comment], HumanAt(now), At(), createdAt);
    LatestIsMaximum(comments + [comment], MaintainerAt(now), At(), 0);
    LatestIsMaximum(linked, CountsAt(now), UpdatedAt(), base);
    LatestIsMaximum(linked, CountsAt(now), UpdatedAt(), larger);
  }
}
