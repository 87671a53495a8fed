/** Eligibility of search candidates and the window a search works on. */
module CandidateWindow {
  import opened IssueModel
  import opened Options
  import opened Sets
  import opened Sorting

  datatype ExclusionReason =
    | PullRequest | NotOpen | ArchivedRepository | AlreadyAssigned | StaleIssue | OutsideUpdateWindow
    | BotGenerated | SensitiveContent | InsufficientDescription | BelowMinimumStars | LanguageMismatch
    | FrameworkMismatch | LabelMismatch | AboveMaximumDifficulty | EnglishNotAllowed

  /** Whether a candidate fails one particular check. Staleness is judged later, never here. */
  predicate Misses(criteria: SearchCriteria, c: Candidate, now: int, reason: ExclusionReason) {
    match reason
    case PullRequest => c.issue.isPullRequest
    case NotOpen => !c.issue.isOpen
    case ArchivedRepository => criteria.excludesArchived && c.repository.archived
    case AlreadyAssigned => c.issue.assignees > 0
    case StaleIssue => false
    case OutsideUpdateWindow =>
      var cutoff := now - criteria.updatedWithinDays * DAY;
      c.issue.updatedAt < cutoff || c.repository.updatedAt < cutoff
    case BotGenerated => c.issue.botGenerated
    case SensitiveContent => c.issue.sensitive
    case InsufficientDescription => c.issue.insufficientDescription
    case BelowMinimumStars => c.repository.stars < criteria.minimumStars
    case LanguageMismatch => !criteria.languageMatches(c)
    case FrameworkMismatch => !criteria.frameworkMatches(c)
    case LabelMismatch => !criteria.labelMatches(c)
    case AboveMaximumDifficulty => c.issue.estimatedDifficulty > criteria.maximumDifficulty
    case EnglishNotAllowed => !criteria.includesEnglish && c.issue.probablyEnglish
  }

  /** The checks in the order they run. */
  const CHECKS: seq<ExclusionReason> := [
    PullRequest, NotOpen, ArchivedRepository, AlreadyAssigned, OutsideUpdateWindow, BotGenerated,
    SensitiveContent, InsufficientDescription, BelowMinimumStars, LanguageMismatch, FrameworkMismatch,
    LabelMismatch, AboveMaximumDifficulty, EnglishNotAllowed]

  const PREFERENCES: set<ExclusionReason> := {
    OutsideUpdateWindow, BelowMinimumStars, LanguageMismatch, FrameworkMismatch, LabelMismatch,
    AboveMaximumDifficulty, EnglishNotAllowed}

  predicate IsPreferenceExclusion(reason: ExclusionReason) {
    reason.OutsideUpdateWindow? || reason.BelowMinimumStars? || reason.LanguageMismatch?
    || reason.FrameworkMismatch? || reason.LabelMismatch? || reason.AboveMaximumDifficulty?
    || reason.EnglishNotAllowed?
  }

  /** The reasons a candidate is excluded for: every check it misses, in check order. */
  function Reasons(criteria: SearchCriteria, c: Candidate, now: int): seq<ExclusionReason> {
    Filter(reason => Misses(criteria, c, now, reason), CHECKS)
  }

  predicate OnlyPreferences(reasons: seq<ExclusionReason>) {
    reasons != [] && forall reason | reason in reasons :: IsPreferenceExclusion(reason)
  }

  /** How many of the seven preferences a candidate with these exclusions still meets. */
  function MatchCount(reasons: seq<ExclusionReason>): nat {
    |PREFERENCES - Members(reasons)|
  }

  /** ExclusionReasons for one criteria and one moment. */
  function ReasonsOf(criteria: SearchCriteria, now: int): Candidate -> seq<ExclusionReason> {
    c => Reasons(criteria, c, now)
  }

  /** Both loops of PreferenceMatchCount, over the preferences in whatever order they are listed. */
  method PreferenceMatchCount(reasons: seq<ExclusionReason>, preferences: seq<ExclusionReason>)
    returns (score: nat)
    requires Distinct(preferences)
    ensures score == |Members(preferences) - Members(reasons)|
    ensures Members(preferences) == PREFERENCES ==> score == MatchCount(reasons)
  {
    var failed: set<ExclusionReason> := {};
    for i := 0 to |reasons|
      invariant failed == Members(reasons[..i])
    {
      MembersSnoc(reasons, i);
      failed := failed + {reasons[i]};
    }
    assert reasons[..|reasons|] == reasons;
    score := CountUnfailed(preferences, failed);
  }

  method CountUnfailed(preferences: seq<ExclusionReason>, failed: set<ExclusionReason>) returns (score: nat)
    requires Distinct(preferences)
    ensures score == |Members(preferences) - failed|
  {
    score := 0;
    for i := 0 to |preferences|
      invariant score == |Members(preferences[..i]) - failed|
    {
      MembersSnoc(preferences, i);
      AddOne(Members(preferences[..i]), preferences[i], failed);
      if preferences[i] !in failed {
        score := score + 1;
      }
    }
    assert preferences[..|preferences|] == preferences;
  }

  lemma MembersSnoc(s: seq<ExclusionReason>, i: nat)
    requires i < |s|
    ensures Members(s[..i + 1]) == Members(s[..i]) + {s[i]}
    ensures Distinct(s) ==> s[i] !in Members(s[..i])
  {
    assert s[..i + 1] == s[..i] + [s[i]];
  }

  lemma AddOne(seen: set<ExclusionReason>, next: ExclusionReason, failed: set<ExclusionReason>)
    requires next !in seen
    ensures |(seen + {next}) - failed| == |seen - failed| + if next in failed then 0 else 1
  {
    if next in failed {
      assert (seen + {next}) - failed == seen - failed;
    } else {
      assert (seen + {next}) - failed == (seen - failed) + {next};
    }
  }

  // ----- the checks -----

  method ExclusionReasons(criteria: SearchCriteria, c: Candidate, now: int) returns (reasons: seq<ExclusionReason>)
    ensures reasons == Reasons(criteria, c, now)
    ensures Reported(criteria, c, now, reasons) && InCheckOrder(reasons)
  {
    ReasonsInFields(criteria, c, now);
    ReasonsInOrder(criteria, c, now);
    var misses := reason => Misses(criteria, c, now, reason);
    reasons := RunChecks(misses, CHECKS);
  }

  method RunChecks(misses: ExclusionReason -> bool, checks: seq<ExclusionReason>)
    returns (reasons: seq<ExclusionReason>)
    ensures reasons == Filter(misses, checks)
  {
    reasons := [];
    for i := 0 to |checks|
      invariant reasons == Filter(misses, checks[..i])
    {
      FilterSnoc(misses, checks, i);
      if misses(checks[i]) {
        reasons := reasons + [checks[i]];
      }
    }
    assert checks[..|checks|] == checks;
  }

  method HasOnlyPreferenceExclusions(reasons: seq<ExclusionReason>) returns (only: bool)
    ensures only == OnlyPreferences(reasons)
  {
    if |reasons| == 0 {
      return false;
    }
    for i := 0 to |reasons|
      invariant forall k :: 0 <= k < i ==> IsPreferenceExclusion(reasons[k])
    {
      if !IsPreferenceExclusion(reasons[i]) {
        return false;
      }
    }
    return true;
  }

  lemma FilterSnoc<T>(keep: T -> bool, s: seq<T>, i: nat)
    requires i < |s|
    ensures Filter(keep, s[..i + 1]) == Filter(keep, s[..i]) + if keep(s[i]) then [s[i]] else []
  {
    assert s[..i + 1] == s[..i] + [s[i]];
    FilterConcat(keep, s[..i], [s[i]]);
  }

  lemma {:induction false} FilterDistinct<T>(keep: T -> bool, s: seq<T>)
    requires forall i, j :: 0 <= i < j < |s| ==> s[i] != s[j]
    ensures var f := Filter(keep, s); forall i, j :: 0 <= i < j < |f| ==> f[i] != f[j]
  {
    if s != [] {
      FilterDistinct(keep, s[1..]);
      FilterMember(keep, s[1..], s[0]);
    }
  }

  lemma ChecksDistinct()
    ensures Distinct(CHECKS)
  {
  }

  /** No reason is reported twice. */
  lemma ReasonsDistinct(criteria: SearchCriteria, c: Candidate, now: int)
    ensures Distinct(Reasons(criteria, c, now))
  {
    ChecksDistinct();
    DistinctChecks(reason => Misses(criteria, c, now, reason), CHECKS);
  }

  lemma ReasonsOfDistinct(criteria: SearchCriteria, now: int)
    ensures forall c :: Distinct(ReasonsOf(criteria, now)(c))
  {
    forall c ensures Distinct(ReasonsOf(criteria, now)(c)) {
      ReasonsDistinct(criteria, c, now);
    }
  }

  lemma DistinctChecks(misses: ExclusionReason -> bool, checks: seq<ExclusionReason>)
    requires Distinct(checks)
    ensures Distinct(Filter(misses, checks))
  {
    FilterDistinct(misses, checks);
  }

  /** For a candidate that misses preferences only, the match count is seven minus its misses. */
  lemma MatchCountIsSevenMinusMisses(reasons: seq<ExclusionReason>)
    requires Distinct(reasons) && OnlyPreferences(reasons)
    ensures MatchCount(reasons) == 7 - |reasons|
  {
    var missed := Members(reasons);
    assert forall reason :: IsPreferenceExclusion(reason) ==> reason in PREFERENCES;
    DistinctSize(reasons);
    assert missed <= PREFERENCES;
    assert |PREFERENCES - missed| + |missed| == |PREFERENCES| by {
      assert (PREFERENCES - missed) + missed == PREFERENCES;
      assert (PREFERENCES - missed) !! missed;
    }
  }

  // ----- the reasons in the fields -----

  /** A candidate no search may show, whatever its preferences. */
  predicate Barred(criteria: SearchCriteria, c: Candidate) {
    || c.issue.isPullRequest || !c.issue.isOpen || c.issue.assignees > 0 || c.issue.botGenerated
    || c.issue.sensitive || c.issue.insufficientDescription
    || (c.repository.archived && criteria.excludesArchived)
  }

  /** Issue and repository were both updated in the last so many days. */
  predicate RecentlyUpdated(criteria: SearchCriteria, c: Candidate, now: int) {
    && now - c.issue.updatedAt <= criteria.updatedWithinDays * 86_400
    && now - c.repository.updatedAt <= criteria.updatedWithinDays * 86_400
  }

  /** The number of preferences a candidate meets. */
  function PreferencesMet(criteria: SearchCriteria, c: Candidate, now: int): nat {
    (if RecentlyUpdated(criteria, c, now) then 1 else 0)
    + (if c.repository.stars >= criteria.minimumStars then 1 else 0)
    + (if criteria.languageMatches(c) then 1 else 0)
    + (if criteria.frameworkMatches(c) then 1 else 0)
    + (if criteria.labelMatches(c) then 1 else 0)
    + (if c.issue.estimatedDifficulty <= criteria.maximumDifficulty then 1 else 0)
    + (if criteria.includesEnglish || !c.issue.probablyEnglish then 1 else 0)
  }

  /** Every reason is reported exactly under its own condition; staleness never is. */
  predicate Reported(criteria: SearchCriteria, c: Candidate, now: int, reasons: seq<ExclusionReason>) {
    SafetyReported(criteria, c, reasons) && PreferencesReported(criteria, c, now, reasons) && StaleIssue !in reasons
  }

  predicate SafetyReported(criteria: SearchCriteria, c: Candidate, reasons: seq<ExclusionReason>) {
    && (PullRequest in reasons <==> c.issue.isPullRequest)
    && (NotOpen in reasons <==> !c.issue.isOpen)
    && (ArchivedRepository in reasons <==> c.repository.archived && criteria.excludesArchived)
    && (AlreadyAssigned in reasons <==> c.issue.assignees > 0)
    && (BotGenerated in reasons <==> c.issue.botGenerated)
    && (SensitiveContent in reasons <==> c.issue.sensitive)
    && (InsufficientDescription in reasons <==> c.issue.insufficientDescription)
  }

  predicate PreferencesReported(criteria: SearchCriteria, c: Candidate, now: int, reasons: seq<ExclusionReason>) {
    && (OutsideUpdateWindow in reasons <==> !RecentlyUpdated(criteria, c, now))
    && (BelowMinimumStars in reasons <==> c.repository.stars < criteria.minimumStars)
    && (LanguageMismatch in reasons <==> !criteria.languageMatches(c))
    && (FrameworkMismatch in reasons <==> !criteria.frameworkMatches(c))
    && (LabelMismatch in reasons <==> !criteria.labelMatches(c))
    && (AboveMaximumDifficulty in reasons <==> c.issue.estimatedDifficulty > criteria.maximumDifficulty)
    && (EnglishNotAllowed in reasons <==> c.issue.probablyEnglish && !criteria.includesEnglish)
  }

  /** When a check runs. */
  function Turn(reason: ExclusionReason): nat {
    match reason
    case PullRequest => 1
    case NotOpen => 2
    case ArchivedRepository => 3
    case AlreadyAssigned => 4
    case OutsideUpdateWindow => 5
    case BotGenerated => 6
    case SensitiveContent => 7
    case InsufficientDescription => 8
    case BelowMinimumStars => 9
    case LanguageMismatch => 10
    case FrameworkMismatch => 11
    case LabelMismatch => 12
    case AboveMaximumDifficulty => 13
    case EnglishNotAllowed => 14
    case StaleIssue => 15
  }

  ghost predicate InCheckOrder(reasons: seq<ExclusionReason>) {
    forall i, j :: 0 <= i < j < |reasons| ==> Turn(reasons[i]) < Turn(reasons[j])
  }

  lemma AllChecked()
    ensures forall reason :: reason in CHECKS <==> reason != StaleIssue
    ensures InCheckOrder(CHECKS)
  {
    forall reason: ExclusionReason | reason != StaleIssue ensures reason in CHECKS {
      assert CHECKS[Turn(reason) - 1] == reason;
    }
  }

  lemma ReasonIff(criteria: SearchCriteria, c: Candidate, now: int, reason: ExclusionReason)
    ensures reason in Reasons(criteria, c, now) <==> reason != StaleIssue && Misses(criteria, c, now, reason)
  {
    AllChecked();
    MissedIsReason(reason => Misses(criteria, c, now, reason), CHECKS, reason);
  }

  lemma UpdatesInFields(criteria: SearchCriteria, c: Candidate, now: int)
    ensures Misses(criteria, c, now, OutsideUpdateWindow) <==> !RecentlyUpdated(criteria, c, now)
  {
  }

  ghost predicate Judges(criteria: SearchCriteria, c: Candidate, now: int, reasons: seq<ExclusionReason>) {
    forall reason :: reason in reasons <==> reason != StaleIssue && Misses(criteria, c, now, reason)
  }

  lemma SafetyInFields(criteria: SearchCriteria, c: Candidate, now: int, reasons: seq<ExclusionReason>)
    requires Judges(criteria, c, now, reasons)
    ensures SafetyReported(criteria, c, reasons)
  {
  }

  lemma PreferencesInFields(criteria: SearchCriteria, c: Candidate, now: int, reasons: seq<ExclusionReason>)
    requires Judges(criteria, c, now, reasons)
    ensures PreferencesReported(criteria, c, now, reasons)
  {
    UpdatesInFields(criteria, c, now);
  }

  lemma ReasonsInFields(criteria: SearchCriteria, c: Candidate, now: int)
    ensures Reported(criteria, c, now, Reasons(criteria, c, now))
  {
    var reasons := Reasons(criteria, c, now);
    forall reason ensures reason in reasons <==> reason != StaleIssue && Misses(criteria, c, now, reason) {
      ReasonIff(criteria, c, now, reason);
    }
    SafetyInFields(criteria, c, now, reasons);
    PreferencesInFields(criteria, c, now, reasons);
  }

  lemma ReasonsInOrder(criteria: SearchCriteria, c: Candidate, now: int)
    ensures InCheckOrder(Reasons(criteria, c, now))
  {
    AllChecked();
    FilterInOrder(reason => Misses(criteria, c, now, reason), CHECKS);
  }

  lemma {:induction false} FilterInOrder(misses: ExclusionReason -> bool, checks: seq<ExclusionReason>)
    requires InCheckOrder(checks)
    ensures InCheckOrder(Filter(misses, checks))
  {
    if checks != [] {
      FilterInOrder(misses, checks[1..]);
      forall reason | reason in Filter(misses, checks[1..]) ensures Turn(checks[0]) < Turn(reason) {
        FilterMember(misses, checks[1..], reason);
        var i :| 1 <= i < |checks| && checks[i] == reason;
      }
    }
  }

  function One(reason: ExclusionReason, failed: set<ExclusionReason>): nat {
    if reason in failed then 0 else 1
  }

  /** The members of a list that are not in failed, one at a time. */
  function Unfailed(listed: seq<ExclusionReason>, failed: set<ExclusionReason>): nat {
    if listed == [] then 0 else Unfailed(listed[..|listed| - 1], failed) + One(listed[|listed| - 1], failed)
  }

  lemma {:induction false} UnfailedCount(listed: seq<ExclusionReason>, failed: set<ExclusionReason>)
    requires Distinct(listed)
    ensures Unfailed(listed, failed) == |Members(listed) - failed|
  {
    if listed != [] {
      var n := |listed| - 1;
      UnfailedCount(listed[..n], failed);
      MembersSnoc(listed, n);
      assert listed[..n + 1] == listed;
      AddOne(Members(listed[..n]), listed[n], failed);
    }
  }

  lemma UnfailedStep(listed: seq<ExclusionReason>, i: nat, failed: set<ExclusionReason>)
    requires i < |listed|
    ensures Unfailed(listed[..i + 1], failed) == Unfailed(listed[..i], failed) + One(listed[i], failed)
  {
    assert listed[..i + 1][..i] == listed[..i];
  }

  lemma PreferencesCount(failed: set<ExclusionReason>, listed: seq<ExclusionReason>)
    requires |listed| == 7 && Distinct(listed)
    ensures |Members(listed) - failed|
      == One(listed[0], failed) + One(listed[1], failed) + One(listed[2], failed) + One(listed[3], failed)
         + One(listed[4], failed) + One(listed[5], failed) + One(listed[6], failed)
  {
    UnfailedCount(listed, failed);
    UnfailedStep(listed, 0, failed);
    UnfailedStep(listed, 1, failed);
    UnfailedStep(listed, 2, failed);
    UnfailedStep(listed, 3, failed);
    UnfailedStep(listed, 4, failed);
    UnfailedStep(listed, 5, failed);
    UnfailedStep(listed, 6, failed);
    assert listed[..7] == listed && listed[..0] == [];
  }

  lemma PreferencesListed() returns (listed: seq<ExclusionReason>)
    ensures |listed| == 7 && Distinct(listed) && Members(listed) == PREFERENCES
    ensures listed[0] == OutsideUpdateWindow && listed[1] == BelowMinimumStars && listed[2] == LanguageMismatch
    ensures listed[3] == FrameworkMismatch && listed[4] == LabelMismatch && listed[5] == AboveMaximumDifficulty
    ensures listed[6] == EnglishNotAllowed
  {
    listed := [OutsideUpdateWindow, BelowMinimumStars, LanguageMismatch, FrameworkMismatch, LabelMismatch,
               AboveMaximumDifficulty, EnglishNotAllowed];
  }

  lemma MetCount(criteria: SearchCriteria, c: Candidate, now: int, reasons: seq<ExclusionReason>)
    requires Reported(criteria, c, now, reasons)
    ensures MatchCount(reasons) == PreferencesMet(criteria, c, now)
  {
    var listed := PreferencesListed();
    PreferencesCount(Members(reasons), listed);
  }

  /** The match count is the number of preferences met. */
  lemma MatchCountInFields(criteria: SearchCriteria, c: Candidate, now: int)
    ensures MatchCount(Reasons(criteria, c, now)) == PreferencesMet(criteria, c, now)
  {
    ReasonsInFields(criteria, c, now);
    MetCount(criteria, c, now, Reasons(criteria, c, now));
  }

  lemma MatchesInFields(criteria: SearchCriteria, now: int, c: Candidate)
    ensures MatchCount(ReasonsOf(criteria, now)(c)) == PreferencesMet(criteria, c, now)
  {
    assert ReasonsOf(criteria, now)(c) == Reasons(criteria, c, now);
    MatchCountInFields(criteria, c, now);
  }

  lemma Judged(criteria: SearchCriteria, c: Candidate, now: int, reasons: seq<ExclusionReason>)
    requires Reported(criteria, c, now, reasons)
    ensures reasons == [] <==> !Barred(criteria, c) && PreferencesMet(criteria, c, now) == 7
    ensures OnlyPreferences(reasons) <==> !Barred(criteria, c) && PreferencesMet(criteria, c, now) < 7
  {
    if reasons != [] {
      assert reasons[0] in reasons;
      if OnlyPreferences(reasons) { assert IsPreferenceExclusion(reasons[0]); }
    }
    if !Barred(criteria, c) {
      forall reason | reason in reasons ensures IsPreferenceExclusion(reason) { }
    }
  }

  /** What the reasons decide: a full match, or only preferences missed. */
  lemma JudgedInFields(criteria: SearchCriteria, c: Candidate, now: int)
    ensures Reasons(criteria, c, now) == []
      <==> !Barred(criteria, c) && PreferencesMet(criteria, c, now) == 7
    ensures OnlyPreferences(Reasons(criteria, c, now))
      <==> !Barred(criteria, c) && PreferencesMet(criteria, c, now) < 7
  {
    ReasonsInFields(criteria, c, now);
    Judged(criteria, c, now, Reasons(criteria, c, now));
  }

  // ----- the window; reasonsOf(c) stands for ExclusionReasons(criteria, c, now) -----

  type Counts = map<ExclusionReason, nat>

  function CountOf(counts: Counts, reason: ExclusionReason): nat {
    if reason in counts then counts[reason] else 0
  }

  datatype Window = Window(candidates: seq<Candidate>, counts: Counts, checked: nat, partial: bool)

  function Exact(reasonsOf: Candidate -> seq<ExclusionReason>, found: seq<Candidate>): seq<Candidate> {
    Filter(c => reasonsOf(c) == [], found)
  }

  function Near(reasonsOf: Candidate -> seq<ExclusionReason>, found: seq<Candidate>): seq<Candidate> {
    Filter(c => OnlyPreferences(reasonsOf(c)), found)
  }

  function ByMatches(reasonsOf: Candidate -> seq<ExclusionReason>): (Candidate, Candidate) -> int {
    Descending(c => MatchCount(reasonsOf(c)))
  }

  /** The candidates a search goes on with. */
  function WindowOf(reasonsOf: Candidate -> seq<ExclusionReason>, found: seq<Candidate>): seq<Candidate> {
    if Exact(reasonsOf, found) == [] && Near(reasonsOf, found) != []
    then StableSort(ByMatches(reasonsOf), Near(reasonsOf, found))
    else Exact(reasonsOf, found)
  }

  /** How many of the candidates are excluded for one reason. */
  function Missing(reasonsOf: Candidate -> seq<ExclusionReason>, found: seq<Candidate>, reason: ExclusionReason): nat {
    |Filter(c => reason in reasonsOf(c), found)|
  }

  ghost predicate CountsAgree(
    counts: Counts, reasonsOf: Candidate -> seq<ExclusionReason>, found: seq<Candidate>
  ) {
    forall reason :: CountOf(counts, reason) == Missing(reasonsOf, found, reason)
  }

  method FilterIssueCandidates(reasonsOf: Candidate -> seq<ExclusionReason>, found: seq<Candidate>)
    returns (window: Window)
    requires forall c :: Distinct(reasonsOf(c))
    ensures window.candidates == WindowOf(reasonsOf, found)
    ensures CountsAgree(window.counts, reasonsOf, found)
    ensures window.checked == |found|
    ensures window.partial <==> Exact(reasonsOf, found) == [] && Near(reasonsOf, found) != []
  {
    var exact, near: seq<Candidate>, counts: Counts := [], [], map[];
    for i := 0 to |found|
      invariant exact == Exact(reasonsOf, found[..i])
      invariant near == Near(reasonsOf, found[..i])
      invariant CountsAgree(counts, reasonsOf, found[..i])
    {
      var c := found[i];
      FilterSnoc(c => reasonsOf(c) == [], found, i);
      FilterSnoc(c => OnlyPreferences(reasonsOf(c)), found, i);
      MissingSnoc(reasonsOf, found, i);
      var reasons := reasonsOf(c);
      if |reasons| == 0 {
        exact := exact + [c];
      } else {
        counts := Increment(counts, reasons);
        var only := HasOnlyPreferenceExclusions(reasons);
        if only {
          near := near + [c];
        }
      }
    }
    assert found[..|found|] == found;
    var candidates, partial := exact, false;
    if |exact| == 0 && |near| > 0 {
      candidates, partial := StableSort(ByMatches(reasonsOf), near), true;
    }
    window := Window(candidates, counts, |found|, partial);
  }

  method Increment(counts: Counts, reasons: seq<ExclusionReason>) returns (r: Counts)
    requires Distinct(reasons)
    ensures forall reason :: CountOf(r, reason) == CountOf(counts, reason) + if reason in reasons then 1 else 0
  {
    r := counts;
    for i := 0 to |reasons|
      invariant forall reason ::
          CountOf(r, reason) == CountOf(counts, reason) + if reason in reasons[..i] then 1 else 0
    {
      assert reasons[i] !in reasons[..i];
      assert reasons[..i + 1] == reasons[..i] + [reasons[i]];
      r := r[reasons[i] := CountOf(r, reasons[i]) + 1];
    }
    assert reasons[..|reasons|] == reasons;
  }

  lemma MissingSnoc(reasonsOf: Candidate -> seq<ExclusionReason>, found: seq<Candidate>, i: nat)
    requires i < |found|
    ensures forall reason :: Missing(reasonsOf, found[..i + 1], reason)
                == Missing(reasonsOf, found[..i], reason) + if reason in reasonsOf(found[i]) then 1 else 0
  {
    forall reason ensures Missing(reasonsOf, found[..i + 1], reason)
                == Missing(reasonsOf, found[..i], reason) + if reason in reasonsOf(found[i]) then 1 else 0
    {
      FilterSnoc(c => reason in reasonsOf(c), found, i);
    }
  }

  /** One search, and when its window is empty a relaxed one, judged by the original criteria at its own time.
      The answers are the searcher's; None is a failed request. */
  method LoadCandidateWindow(
    reasonsOf: Candidate -> seq<ExclusionReason>, answer: Option<seq<Candidate>>, relaxable: bool,
    laterReasonsOf: Candidate -> seq<ExclusionReason>, relaxedAnswer: Option<seq<Candidate>>
  ) returns (r: Option<Window>)
    requires forall c :: Distinct(reasonsOf(c)) && Distinct(laterReasonsOf(c))
    ensures answer.None? ==> r.None?
    ensures answer.Some? && (WindowOf(reasonsOf, answer.value) != [] || !relaxable) ==>
      && r.Some? && r.value.candidates == WindowOf(reasonsOf, answer.value)
      && CountsAgree(r.value.counts, reasonsOf, answer.value)
      && r.value.checked == |answer.value|
      && (r.value.partial <==> Exact(reasonsOf, answer.value) == [] && Near(reasonsOf, answer.value) != [])
    ensures answer.Some? && WindowOf(reasonsOf, answer.value) == [] && relaxable ==>
      && (r.Some? <==> relaxedAnswer.Some?)
      && (r.Some? ==>
            && r.value.candidates == WindowOf(laterReasonsOf, relaxedAnswer.value)
            && r.value.checked == |relaxedAnswer.value|
            && (r.value.partial <==>
                  Exact(laterReasonsOf, relaxedAnswer.value) == [] && Near(laterReasonsOf, relaxedAnswer.value) != [])
            && forall reason :: CountOf(r.value.counts, reason)
                 == Missing(reasonsOf, answer.value, reason) + Missing(laterReasonsOf, relaxedAnswer.value, reason))
  {
    if answer.None? {
      return None;
    }
    var entry := FilterIssueCandidates(reasonsOf, answer.value);
    if |entry.candidates| > 0 {
      return Some(entry);
    }
    if !relaxable {
      return Some(entry);
    }
    if relaxedAnswer.None? {
      return None;
    }
    var relaxed := FilterIssueCandidates(laterReasonsOf, relaxedAnswer.value);
    var merged := map reason | reason in entry.counts.Keys + relaxed.counts.Keys ::
      CountOf(entry.counts, reason) + CountOf(relaxed.counts, reason);
    return Some(relaxed.(counts := merged));
  }

  // ----- what the window is -----

  lemma NearMembers(reasonsOf: Candidate -> seq<ExclusionReason>, found: seq<Candidate>, c: Candidate)
    ensures c in Exact(reasonsOf, found) <==> c in found && reasonsOf(c) == []
    ensures c in Near(reasonsOf, found) <==> c in found && OnlyPreferences(reasonsOf(c))
    ensures c in StableSort(ByMatches(reasonsOf), Near(reasonsOf, found)) <==> c in Near(reasonsOf, found)
  {
    FilterMember(c => reasonsOf(c) == [], found, c);
    FilterMember(c => OnlyPreferences(reasonsOf(c)), found, c);
    var near := Near(reasonsOf, found);
    SortMembers(ByMatches(reasonsOf), near);
    assert c in multiset(StableSort(ByMatches(reasonsOf), near)) <==> c in multiset(near);
  }

  /** The window is exactly the fully matching candidates, in the order found, when there are any. Otherwise it
      is exactly those that miss preferences only, fewest misses first and otherwise in the order found. */
  lemma WindowIsClosestSafeCandidates(reasonsOf: Candidate -> seq<ExclusionReason>, found: seq<Candidate>)
    requires forall c :: Distinct(reasonsOf(c))
    ensures (exists c :: c in found && reasonsOf(c) == []) ==> WindowOf(reasonsOf, found) == Exact(reasonsOf, found)
    ensures !(exists c :: c in found && reasonsOf(c) == []) ==>
      WindowOf(reasonsOf, found) == StableSort(Ascending((c: Candidate) => |reasonsOf(c)|), Near(reasonsOf, found))
  {
    forall c {:trigger reasonsOf(c)}
      ensures c in Exact(reasonsOf, found) <==> c in found && reasonsOf(c) == []
      ensures c in Near(reasonsOf, found) ==> OnlyPreferences(reasonsOf(c))
    {
      NearMembers(reasonsOf, found, c);
    }
    if Exact(reasonsOf, found) != [] {
      var c := Exact(reasonsOf, found)[0];
      assert c in found && reasonsOf(c) == [];
    } else {
      SortByMissesOrMatches(reasonsOf, Near(reasonsOf, found));
    }
  }

  lemma MatchesOrMisses(reasonsOf: Candidate -> seq<ExclusionReason>, x: Candidate, y: Candidate)
    requires Distinct(reasonsOf(x)) && Distinct(reasonsOf(y))
    requires OnlyPreferences(reasonsOf(x)) && OnlyPreferences(reasonsOf(y))
    ensures ByMatches(reasonsOf)(x, y) == Ascending((c: Candidate) => |reasonsOf(c)|)(x, y)
  {
    MatchCountIsSevenMinusMisses(reasonsOf(x));
    MatchCountIsSevenMinusMisses(reasonsOf(y));
    assert ByMatches(reasonsOf)(x, y) == Compare(MatchCount(reasonsOf(y)), MatchCount(reasonsOf(x)));
    assert Ascending((c: Candidate) => |reasonsOf(c)|)(x, y) == Compare(|reasonsOf(x)|, |reasonsOf(y)|);
  }

  lemma {:induction false} SortByMissesOrMatches(reasonsOf: Candidate -> seq<ExclusionReason>, s: seq<Candidate>)
    requires forall c :: Distinct(reasonsOf(c))
    requires forall c :: c in s ==> OnlyPreferences(reasonsOf(c))
    ensures StableSort(ByMatches(reasonsOf), s) == StableSort(Ascending((c: Candidate) => |reasonsOf(c)|), s)
  {
    if s != [] {
      SortByMissesOrMatches(reasonsOf, s[1..]);
      var rest := StableSort(ByMatches(reasonsOf), s[1..]);
      SortMembers(ByMatches(reasonsOf), s[1..]);
      forall c | c in rest
        ensures ByMatches(reasonsOf)(s[0], c) == Ascending((c: Candidate) => |reasonsOf(c)|)(s[0], c)
      {
        assert c in multiset(s[1..]);
        MatchesOrMisses(reasonsOf, s[0], c);
      }
      InsertSame(ByMatches(reasonsOf), Ascending((c: Candidate) => |reasonsOf(c)|), s[0], rest);
    }
  }

  lemma {:induction false} InsertSame<T>(first: (T, T) -> int, second: (T, T) -> int, x: T, s: seq<T>)
    requires forall y :: y in s ==> first(x, y) == second(x, y)
    ensures Insert(first, x, s) == Insert(second, x, s)
  {
    if s != [] {
      assert s[0] in s;
      InsertSame(first, second, x, s[1..]);
    }
  }

  /** No candidate with a safety exclusion enters the window, exact or partial: no pull request, closed, assigned, bot
      generated, sensitive or undescribed issue, and no archived repository when those are excluded. */
  lemma WindowIsSafe(criteria: SearchCriteria, found: seq<Candidate>, now: int, c: Candidate, reason: ExclusionReason)
    requires c in WindowOf(ReasonsOf(criteria, now), found)
    requires !IsPreferenceExclusion(reason)
    ensures c in found && !Misses(criteria, c, now, reason) && !Barred(criteria, c)
  {
    var reasonsOf := ReasonsOf(criteria, now);
    WindowInFields(criteria, found, now, c);
    NearMembers(reasonsOf, found, c);
    MissedIsReason(reason => Misses(criteria, c, now, reason), CHECKS, reason);
    assert reasonsOf(c) == Reasons(criteria, c, now);
  }

  lemma MissedIsReason(misses: ExclusionReason -> bool, checks: seq<ExclusionReason>, reason: ExclusionReason)
    ensures reason in Filter(misses, checks) <==> reason in checks && misses(reason)
  {
    FilterMember(misses, checks, reason);
  }

  ghost predicate FullMatchFound(criteria: SearchCriteria, found: seq<Candidate>, now: int) {
    exists o :: o in found && !Barred(criteria, o) && PreferencesMet(criteria, o, now) == 7
  }

  /** The window in the fields: never a barred candidate; every other one that meets all seven preferences, and the
      rest of them when none does. */
  lemma WindowInFields(criteria: SearchCriteria, found: seq<Candidate>, now: int, c: Candidate)
    ensures c in WindowOf(ReasonsOf(criteria, now), found) <==>
      && c in found && !Barred(criteria, c)
      && (PreferencesMet(criteria, c, now) == 7 || !FullMatchFound(criteria, found, now))
  {
    var reasonsOf := ReasonsOf(criteria, now);
    NearMembers(reasonsOf, found, c);
    JudgedInFields(criteria, c, now);
    ExactInFields(criteria, found, now);
    NearInFields(criteria, found, now);
  }

  lemma ExactInFields(criteria: SearchCriteria, found: seq<Candidate>, now: int)
    ensures Exact(ReasonsOf(criteria, now), found) != [] <==> FullMatchFound(criteria, found, now)
  {
    var reasonsOf := ReasonsOf(criteria, now);
    if Exact(reasonsOf, found) != [] {
      var o := Exact(reasonsOf, found)[0];
      NearMembers(reasonsOf, found, o);
      JudgedInFields(criteria, o, now);
    }
    if FullMatchFound(criteria, found, now) {
      var o :| o in found && !Barred(criteria, o) && PreferencesMet(criteria, o, now) == 7;
      NearMembers(reasonsOf, found, o);
      JudgedInFields(criteria, o, now);
    }
  }

  lemma NearInFields(criteria: SearchCriteria, found: seq<Candidate>, now: int)
    ensures Near(ReasonsOf(criteria, now), found) != [] <==>
      exists o :: o in found && !Barred(criteria, o) && PreferencesMet(criteria, o, now) < 7
  {
    var reasonsOf := ReasonsOf(criteria, now);
    if Near(reasonsOf, found) != [] {
      var o := Near(reasonsOf, found)[0];
      NearMembers(reasonsOf, found, o);
      JudgedInFields(criteria, o, now);
    }
    if o :| o in found && !Barred(criteria, o) && PreferencesMet(criteria, o, now) < 7 {
      NearMembers(reasonsOf, found, o);
      JudgedInFields(criteria, o, now);
    }
  }

  lemma SortedByCount(reasonsOf: Candidate -> seq<ExclusionReason>, near: seq<Candidate>)
    ensures var w := StableSort(ByMatches(reasonsOf), near);
      forall i, j :: 0 <= i < j < |w| ==> MatchCount(reasonsOf(w[i])) >= MatchCount(reasonsOf(w[j]))
  {
    var w := StableSort(ByMatches(reasonsOf), near);
    DescendingIsTotal(c => MatchCount(reasonsOf(c)));
    SortSorted(ByMatches(reasonsOf), near);
    forall i, j | 0 <= i < j < |w| ensures MatchCount(reasonsOf(w[i])) >= MatchCount(reasonsOf(w[j])) {
      assert ByMatches(reasonsOf)(w[i], w[j]) <= 0;
      assert ByMatches(reasonsOf)(w[i], w[j]) == Compare(MatchCount(reasonsOf(w[j])), MatchCount(reasonsOf(w[i])));
    }
  }

  /** More preferences met come first. */
  lemma NearOrderInFields(criteria: SearchCriteria, near: seq<Candidate>, now: int)
    ensures var w := StableSort(ByMatches(ReasonsOf(criteria, now)), near);
      forall i, j :: 0 <= i < j < |w| ==> PreferencesMet(criteria, w[i], now) >= PreferencesMet(criteria, w[j], now)
  {
    var w := StableSort(ByMatches(ReasonsOf(criteria, now)), near);
    SortedByCount(ReasonsOf(criteria, now), near);
    forall i | 0 <= i < |w|
      ensures MatchCount(ReasonsOf(criteria, now)(w[i])) == PreferencesMet(criteria, w[i], now)
    {
      MatchCountInFields(criteria, w[i], now);
    }
  }

  /** The order of the window in the fields; it is partial exactly when it is not empty and has no full match. */
  lemma WindowOrderInFields(criteria: SearchCriteria, found: seq<Candidate>, now: int)
    ensures var w := WindowOf(ReasonsOf(criteria, now), found);
      && (forall i, j :: 0 <= i < j < |w| ==>
            PreferencesMet(criteria, w[i], now) >= PreferencesMet(criteria, w[j], now))
      && (Exact(ReasonsOf(criteria, now), found) == [] && Near(ReasonsOf(criteria, now), found) != []
          <==> w != [] && !FullMatchFound(criteria, found, now))
  {
    var reasonsOf := ReasonsOf(criteria, now);
    var w, near := WindowOf(reasonsOf, found), Near(reasonsOf, found);
    ExactInFields(criteria, found, now);
    SortMembers(ByMatches(reasonsOf), near);
    if Exact(reasonsOf, found) == [] {
      NearOrderInFields(criteria, near, now);
    } else {
      forall i | 0 <= i < |w| ensures PreferencesMet(criteria, w[i], now) == 7 {
        WindowInFields(criteria, found, now, w[i]);
      }
    }
  }
}
