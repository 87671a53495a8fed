/** The part of a GitHub issue, its repository and its evaluation that search and ranking look at.
    Times are integers in seconds; text that only opaque checks read is represented by their verdicts. */
module IssueModel {
  import opened Options

  const DAY: int := 86_400

  /** How many samples a metric looks at. */
  const MAXIMUM_METRIC_SAMPLES := 100

  datatype Repository = Repository(
    id: int,
    owner: string,
    name: string,
    fullName: string,
    url: string,
    stars: int,
    archived: bool,
    updatedAt: int)

  datatype IssueSummary = IssueSummary(
    number: int,
    isPullRequest: bool,
    isOpen: bool,
    assignees: nat,
    botGenerated: bool,
    sensitive: bool,
    insufficientDescription: bool,
    estimatedDifficulty: int,
    probablyEnglish: bool,
    updatedAt: int)

  datatype Candidate = Candidate(repository: Repository, issue: IssueSummary)

  datatype SearchSort = Recommendation | SkillMatch | Effort | Difficulty | MaintainerResponse | Updated | Unrecognised

  /** The validated criteria; the three text matchers are supplied by the criteria themselves. */
  datatype SearchCriteria = SearchCriteria(
    excludesArchived: bool,
    updatedWithinDays: int,
    minimumStars: int,
    maximumDifficulty: int,
    maximumEffort: Option<int>,
    includesEnglish: bool,
    includesStale: bool,
    sortBy: SearchSort,
    languageMatches: Candidate -> bool,
    frameworkMatches: Candidate -> bool,
    labelMatches: Candidate -> bool)

  datatype StaleState = Fresh | Aging | Stale | Unknown

  /** One evaluated issue. effort is the rank of its effort band, 0 when the band is not recognised;
      details stands for everything the response carries and no ordering reads. */
  datatype RankedIssue = RankedIssue(
    candidate: Candidate,
    score: int,
    skillPercentage: int,
    effort: int,
    difficulty: int,
    responseAvailable: bool,
    responseLevel: int,
    stale: StaleState,
    details: seq<int>)
}
