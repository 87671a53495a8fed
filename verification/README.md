# IssueScout API: a verified model of its core

IssueScout is a Go API that searches GitHub issues for a contributor, ranks them, and keeps account-owned data in
PostgreSQL. These modules model its self-contained algorithms and state machines and prove what they promise:

- **Migrations** (`MigrationCatalog`, `MigrationProtocol`, `MigrationProgress`): one `Migrate` call as a method over a
  database, and many migrators as a step system with crashes, ended sessions and commits that are applied after the
  client gave up, with safety over every run and the way back to a complete database from it.
- **OAuth states and sessions** (`OAuthStates`; `Sessions`, `SessionStore`, `SessionRuns`, `SessionFields`): tables as
  maps, every transaction as a method with its statements in order and its rollback, and theorems about whole runs of
  calls.
- **Cache** (`RecencyModel`, `LruCache`): a map and a doubly linked list of heap nodes with a sentinel, refined to a
  list of entries in most-recently-used order.
- **Search pipeline** (`Sorting`, `IssueModel`, `Ranking`, `CandidateWindow`, `SearchOutput`, `Enrichment`,
  `EnrichmentRuns`, `EvaluationRuns`, `RepositoryDiscovery`): candidate filtering, incremental enrichment with its
  books, what becomes of its evaluations under overlapping requests, the chained stable sorts, the cap per repository,
  paging, and the shortlist of repository discovery.
- **Account-owned store** (`OwnedRows`, `FailureReports`, `Preferences`, `AccountExport`, `ProfileSnapshots`,
  `SnapshotRetention`): optimistic versions, quotas, unique references, the paged export, and the 24 retained months.
- **Evidence algorithms** (`SelfSynchronising`, `Utf8`, `AnalysisText`, `MaintainerResponse`, `Staleness`,
  `AccountId`): term search and truncation over UTF-8, percentiles and the response level, the staleness policy, and
  the identifier parser and printer.

The code is stated through specification functions, and for every operation that decides something further results say
what these functions mean in the fields of the inputs or, for tables, in the calls of a run: which login, callback or
write is accepted, which issue comes first, which candidate is shown, what a row contains.

Conventions. Times are integers (seconds; zero is unset where the code tests for a zero time). One SQL statement, or
one transaction, is one atomic step, and unique indexes and CHECK constraints make a statement fail as a whole. Digests
are injective on the credentials used. A failed call is modelled by a fault: the statement ran and answered, it ran and
the answer was lost, or it did not run. A page request is not atomic: its read of the ranking cache, its end and those
of other requests interleave freely. Characters, lower-casing, trimming and return-path validation are arbitrary
functions with the few laws stated where they are needed. A map keyed by token, hash or month is a table with that
unique index.

Where the code and its surroundings disagree, the model follows the code, and these lemmas say what that means:

- `loadMigrations` does not check names, while the table requires unique ones
  (`MigrationCatalog.UndisturbedRunCompletes`, `MigrationCatalog.RepeatedNameNeverCompletes`).
- Errors of the account store are read off the table after the statement failed, and each can be wrong about the table:
  an exceeded quota for a table with room, a version conflict at the very version that was expected
  (`FailureReports.VersionReportIff`, `CreateReportIff`, `RenameReportIff`, and a witness for each).
- Overlapping page requests overwrite each other's ranking entry and so repeat detail loads
  (`EnrichmentRuns.FinishForgetsIff`, `EnrichmentRuns.OverlapReloads`).
- A detail load is not checked against the reference it was asked for. When GitHub answers for a renamed repository, its
  evaluation is not found again while the repository counts as enriched, so metadata replaces it
  (`EvaluationRuns.FreshEvaluationIff`, `EvaluationRuns.RenamedIsDowngraded`).
- An absent preferences row is inserted whatever version was expected, so two accepted writes can expect the same
  version (`Preferences.UnbasedAcceptedIff`, `Preferences.SharedVersionIff`,
  `Preferences.FirstWriteSharesItsVersion`).
- A snapshot for a month older than all 24 retained ones replaces the oldest retained month
  (`SnapshotRetention.StepKeepsNewestIff`, `SnapshotRetention.OlderMonthIsKept`).
- A completion whose return path does not match spends the state (`OAuthStates.SpentForGood`).
- The branch for cache entries "written before RecommendationEnrichedKeys existed" is dead for entries this code wrote
  (`EnrichmentRuns.LegacyBranchNeverFires`).

`dafny verify dfyconfig.toml` checks the whole project.

## Model

| member | source | states |
|---|---|---|
| MigrationCatalog.LoadMigrations | apps/api/internal/database/postgres/migration.go:175-218 | loading succeeds exactly when every entry is a readable, non-empty `NNNNNN_name.sql` file and the versions are 1..n without gap or repeat; the result is sorted and holds exactly the parsed files |
| MigrationCatalog.ReadableIff | apps/api/internal/database/postgres/migration.go:175-218 | a file is accepted exactly when it is not empty and its name is six digits, an underscore, one or more of a-z, 0-9 and underscore, and `.sql` |
| MigrationCatalog.ParseInFields | apps/api/internal/database/postgres/migration.go:175-218 | the version is the number the six digits write, the name is what stands between, the SQL is the content |
| MigrationCatalog.ContiguousIffComplete | apps/api/internal/database/postgres/migration.go:207-215 | after sorting, "version i+1 at index i" holds exactly when the versions are complete: the loop check detects every gap and every duplicate |
| MigrationCatalog.VerifyMigrationSet | apps/api/internal/database/postgres/migration.go:254-283 | verification accepts exactly the applied sets that are a checksum-matching prefix 1..k of the catalog |
| MigrationCatalog.PresentPrefixIsAll | apps/api/internal/database/postgres/migration.go:272-280 | the pigeonhole step: a set of n versions that contains 1..n contains nothing else |
| MigrationCatalog.Database.Migrate | apps/api/internal/database/postgres/migration.go:55-108 | one call against a database: drift exactly when the applied set is not a prefix, nothing changed on refusal; otherwise the executed SQL grows by exactly the migrations from k up to where the loop stops, in order, and nil is returned exactly when that is the end |
| MigrationCatalog.Database.ApplyPending | apps/api/internal/database/postgres/migration.go:98-107 | the loop of `Migrate`: it skips what is applied, executes the rest in order, and stops at the first failure |
| MigrationCatalog.Database.ApplyMigration | apps/api/internal/database/postgres/migration.go:285-332 | the SQL and its record commit together or not at all; a lost acknowledgement leaves both committed and reports failure; a name or version already recorded fails |
| MigrationCatalog.UndisturbedRunCompletes | apps/api/internal/database/postgres/migration.go:334-339 | an undisturbed run completes if and only if no pending name collides with a recorded or another pending one: loading checks versions only, so a catalog that repeats a name loads and verifies but can never finish |
| MigrationCatalog.RepeatedNameNeverCompletes | apps/api/internal/database/postgres/migration.go:175-218 | the concrete catalog: two files named `users` with versions 1 and 2 load and verify, and neither an undisturbed run nor any later one gets past the first |
| MigrationCatalog.RestartCompletes | apps/api/internal/database/postgres/migration.go:98-107 | whatever one run went through, a later undisturbed run carries on and together they complete exactly when a single undisturbed run would have |
| MigrationProtocol.StepKeepsInv | apps/api/internal/database/postgres/migration.go:55-108 | every statement of every process, every crash, session end and late commit keeps the protocol invariant |
| MigrationProtocol.EveryRunIsSafe | apps/api/internal/database/postgres/migration.go:55-108 | in every reachable state of any number of migrators: the table holds versions 1..k with matching checksums, the executed SQL is those k migrations once each and in order, a process that returned nil has its whole catalog executed, and at most one live session is inside the lock |
| MigrationProtocol.ExecutedIsAppendOnly | apps/api/internal/database/postgres/migration.go:285-332 | what was executed is never undone or reordered later in the run |
| MigrationProtocol.OneCatalog | apps/api/internal/database/postgres/migration.go:254-283 | when all processes embed one catalog the table is always a prefix of it and a nil return means all of it |
| MigrationProtocol.VerifiedAgrees | apps/api/internal/database/postgres/migration.go:254-283 | what verification accepts agrees with the SQL executed so far |
| MigrationProgress.UndisturbedProcessSucceeds | apps/api/internal/database/postgres/migration.go:55-108 | after any run that leaves the lock free, a new process whose catalog continues the table, with new names, can run to success by its own steps alone; it executes exactly the rest of its catalog and frees the lock |
| MigrationProgress.OneMoreProcessFinishes | apps/api/internal/database/postgres/migration.go:55-172 | however migrators of one catalog with distinct names crashed, failed or lost acknowledgements before, one more undisturbed process ends with every migration of the catalog executed exactly once and in order |
| OAuthStates.StateRepository.PickBatch | apps/api/internal/database/postgres/auth_repository.go:521-532 | the pruned batch is the oldest hundred of the stale rows that nobody has locked, or all of them |
| OAuthStates.BatchIsOldest | apps/api/internal/database/postgres/auth_repository.go:521-532 | the batch is, of the rows that are expired or were consumed an hour ago and that nobody has locked, the hundred oldest, or all when there are fewer |
| OAuthStates.SaveInRows | apps/api/internal/database/postgres/auth_repository.go:521-540 | a save adds its row, takes exactly its batch out and leaves every other row alone |
| OAuthStates.StateRepository.Save | apps/api/internal/database/postgres/auth_repository.go:86-114 | the statement inserts a fresh row with an expiry after its creation and removes exactly the stale batch; it fails on the zero digest, an expiry not after creation or a known hash, and then changes nothing |
| OAuthStates.StateRepository.Consume | apps/api/internal/database/postgres/auth_repository.go:117-138 | the statement marks the row exactly when it is unconsumed and unexpired at `now`; the answer is the saved path, not found, or failed |
| OAuthStates.Authentication.Start | apps/api/internal/usecase/authenticate.go:127-177 | start saves one state that expires after the TTL, or nothing when the path is invalid |
| OAuthStates.Authentication.ConsumeState | apps/api/internal/usecase/authenticate.go:335-359 | the path is validated first, then the state is consumed, then the paths are compared: a mismatch is reported after the state is spent |
| OAuthStates.Authentication.Complete | apps/api/internal/usecase/authenticate.go:179-227 | a code is exchanged exactly when the state was consumed by this call and its path matched |
| OAuthStates.Authentication.Deny | apps/api/internal/usecase/authenticate.go:229-238 | denial consumes the state like completion does and never exchanges |
| OAuthStates.SingleUse | apps/api/internal/usecase/authenticate.go:179-238 | in every run a state is consumed at most as often as it was saved, and exchanges never outnumber consumptions |
| OAuthStates.OneExchangePerState | apps/api/internal/usecase/authenticate.go:179-227 | with fresh hashes every state leads to at most one consumption and at most one exchange, for any clock, lost replies and pruning |
| OAuthStates.UsedInTime | apps/api/internal/database/postgres/auth_repository.go:542-547 | every consumption comes after the call that saved the state and before that state expires; an exchange needs the path the state was saved with |
| OAuthStates.SpentForGood | apps/api/internal/usecase/authenticate.go:335-359 | a state that was spent, even by a completion whose path did not match, is never consumed, exchanged or returned again in the run |
| OAuthStates.PruningIsInvisible | apps/api/internal/database/postgres/auth_repository.go:521-540 | with a monotone clock and fresh hashes every call of a run has the same effect and the same answer as in the run that never prunes, whichever stale rows are taken |
| OAuthStates.RowHasOrigin | apps/api/internal/database/postgres/auth_repository.go:521-540 | every row of the table was stored by an earlier start with that path, creation time and expiry |
| OAuthStates.ExchangedIff | apps/api/internal/usecase/authenticate.go:179-227 | a well-formed, answered completion is answered `Exchanged` exactly when an earlier start issued its state, with a path that validates to the same one, its lifetime is not over and nobody presented the state in between; otherwise `Invalid` |
| OAuthStates.ReturnedIff | apps/api/internal/usecase/authenticate.go:229-238 | a denial returns a path under the same conditions, and never exchanges |
| OAuthStates.StartedIff | apps/api/internal/usecase/authenticate.go:127-177 | a start saves its state exactly when path, hash and lifetime are valid and the statement runs, and is answered exactly when the answer arrives as well |
| OAuthStates.RefusedOrUnavailable | apps/api/internal/usecase/authenticate.go:335-359 | a malformed callback is refused and consumes nothing; one whose statement is not answered is unavailable |
| SessionStore.Store.FindOrCreateIdentity | apps/api/internal/database/postgres/auth_repository.go:319-374 | a known GitHub user keeps its account and gets a refreshed profile, an inactive account is refused, an unknown user gets the account of the draft |
| SessionStore.Store.InsertSession | apps/api/internal/database/postgres/auth_repository.go:376-395 | a session row is inserted exactly when its token and its id are new, with the id, CSRF digest and times of its draft |
| SessionStore.Store.RevokeRows | apps/api/internal/database/postgres/auth_repository.go:628-636 | an update sets the revocation time of exactly the chosen rows, or fails as a whole when one was created later |
| SessionStore.Store.UpsertIdentityAndCreateSession | apps/api/internal/database/postgres/auth_repository.go:142-196 | the login transaction: identity, session and trim together, or rolled back as a whole |
| SessionStore.Store.RotateSession | apps/api/internal/database/postgres/auth_repository.go:216-274 | the rotation transaction: the current session must be live, unexpired and of the account of the draft; it is revoked and replaced, or nothing changes; the error tells an invalid draft, a missing session and a failed query apart, and a transaction that cannot begin is a failed query |
| SessionStore.Store.RevokeSession | apps/api/internal/database/postgres/auth_repository.go:277-297 | exactly the live session of the token is revoked |
| SessionStore.Store.RevokeAllSessions | apps/api/internal/database/postgres/auth_repository.go:301-317 | exactly the live sessions of the account are revoked |
| SessionStore.Store.FindSession | apps/api/internal/database/postgres/auth_repository.go:199-212 | a session is found exactly when it is live, unexpired and its account is active and has an identity, which is returned with it |
| Sessions.CutSize | apps/api/internal/database/postgres/auth_repository.go:589-600 | ordering by creation and id and skipping n rows keeps min(n, count) of them |
| Sessions.SessionAdded | apps/api/internal/database/postgres/auth_repository.go:376-416 | insert and trim leave exactly the new session and those others that have fewer than maxActive - 1 newer ones; other accounts are untouched |
| Sessions.LiveBounded | apps/api/internal/database/postgres/auth_repository.go:397-416 | after an insert and trim the account has exactly min(before + 1, maxActive) live sessions |
| Sessions.NewestSurvive | apps/api/internal/database/postgres/auth_repository.go:589-600 | a trim never revokes a session and keeps an older one |
| SessionRuns.StepKeepsLinks | apps/api/internal/database/postgres/migrations/000001_accounts_and_sessions.sql:13-62 | every call keeps the schema guarantees: sessions have accounts, accounts have exactly one identity, ids are distinct |
| SessionRuns.LiveSessionsBounded | apps/api/internal/database/postgres/auth_repository.go:589-600 | in every run with a configured maximum no account ever has more live sessions than that |
| SessionRuns.StepRevivesNothing | apps/api/internal/database/postgres/auth_repository.go:628-636 | no call makes a dead token live except by issuing it |
| SessionRuns.EndedNeverAuthenticates | apps/api/internal/database/postgres/auth_repository.go:602-619 | a session that was revoked, rotated away or deleted with its account never authenticates again, in any later state of any run with fresh tokens |
| SessionRuns.DeadNeverAuthenticates | apps/api/internal/database/postgres/auth_repository.go:602-619 | the same for a session that a trim revoked |
| SessionRuns.RotationsWithinIssuances | apps/api/internal/database/postgres/auth_repository.go:216-274 | every token is rotated at most as often as it was issued, and less often while its session is live |
| SessionRuns.FreshTokenRotatedOnce | apps/api/internal/database/postgres/auth_repository.go:216-274 | with fresh tokens every token is rotated at most once in a run, and not at all while its session is live |
| SessionRuns.RotationReplaces | apps/api/internal/database/postgres/auth_repository.go:236-262 | a rotation ends the current session and starts a live one of the same account under a new token |
| SessionRuns.TracesToLogin | apps/api/internal/database/postgres/auth_repository.go:216-274 | every session, rotated or not, traces back to a committed login of the user its account belongs to |
| SessionRuns.AuthenticatedUserLoggedIn | apps/api/internal/database/postgres/auth_repository.go:602-619 | a token authenticates a user only if that user logged in, and only before the expiry the token was issued with |
| SessionRuns.AccountKept | apps/api/internal/database/postgres/auth_repository.go:549-552 | the account of a GitHub user stays the same as long as it is not deleted |
| SessionRuns.LoginsAgree | apps/api/internal/database/postgres/auth_repository.go:319-374 | all logins of one GitHub user id give sessions of the same account while that account exists |
| SessionRuns.IssuedWith | apps/api/internal/database/postgres/auth_repository.go:376-395 | every session of a run carries the id, CSRF digest, creation time and expiry of the draft it was issued with |
| SessionFields.LoginIff | apps/api/internal/database/postgres/auth_repository.go:142-196 | a login is accepted exactly when its draft is well formed, its user is new or has an active account, and token and id are new and no newer session would be revoked |
| SessionFields.RotateIff | apps/api/internal/database/postgres/auth_repository.go:216-274 | a rotation is accepted exactly when its draft is well formed and of the account of the current session, that one is live and unexpired, and there is a place for the new one; not found exactly when the current one is not live or expired |
| SessionFields.RevokeIff | apps/api/internal/database/postgres/auth_repository.go:277-317 | one revocation needs a live session, both kinds only sessions that are not created later |
| SessionFields.CommitsIff | apps/api/internal/database/postgres/auth_repository.go:142-317 | a call commits exactly when it is accepted and not rolled back or kept from beginning |
| SessionFields.LoginEffect | apps/api/internal/database/postgres/auth_repository.go:319-374 | a login keeps the account of a known user, gives an unknown one the account of the draft, and stores the profile of the draft |
| SessionFields.DeletionEffect | apps/api/internal/database/postgres/migrations/000001_accounts_and_sessions.sql:13-62 | deleting an account takes exactly its identity and its sessions with it |
| SessionFields.StepLiveIff | apps/api/internal/database/postgres/auth_repository.go:397-416 | a call leaves a session live exactly when it issues it, or finds it live and neither ends it nor pushes it out with at least maxActive - 1 newer ones |
| SessionFields.ProfileOfLastLogin | apps/api/internal/database/postgres/auth_repository.go:319-374 | in every run the identity of a user has the profile of the last committed login of that user |
| SessionFields.AuthenticatesIff | apps/api/internal/database/postgres/auth_repository.go:602-619 | in every run a token authenticates a user exactly when some call issued it, nothing has ended or pushed out its session since, its draft has not expired and its account is active and the user's |
| SessionFields.FoundFields | apps/api/internal/database/postgres/auth_repository.go:199-212 | what a lookup of such a token finds: the id, CSRF digest and times of the draft it was issued with, and the profile of the last login of its user |
| LruCache.Cache.Get | apps/api/internal/cache/memory/lru.go:54-91 | over a real linked list and map: the entries become those of the specification, a hit returns a fresh equal copy, an expired entry is removed |
| LruCache.Cache.Set | apps/api/internal/cache/memory/lru.go:93-134 | the entries become those of the specification with a private copy of the value; the footprint grows by fresh objects only |
| LruCache.Cache.Remove | apps/api/internal/cache/memory/lru.go:136-145 | the list element and its map entry go together |
| LruCache.Cache.Refresh | apps/api/internal/cache/memory/lru.go:107-121 | a known key has its value and expiry replaced in place and moves to the front |
| LruCache.Cache.Add | apps/api/internal/cache/memory/lru.go:123-133 | a new key goes to the front and the last element is removed when the list is over capacity |
| LruCache.List.PushFront | apps/api/internal/cache/memory/lru.go:128 | container/list: the element becomes the first, the links stay a circle through the sentinel |
| LruCache.List.MoveToFront | apps/api/internal/cache/memory/lru.go:81 | container/list: the element moves to the front and the others keep their order |
| LruCache.List.Remove | apps/api/internal/cache/memory/lru.go:144 | container/list: exactly this element leaves the circle |
| RecencyModel.RunKeepsBound | apps/api/internal/cache/memory/lru.go:128-131 | in every reachable state keys are distinct and their number is within the capacity |
| RecencyModel.GetInPlaces | apps/api/internal/cache/memory/lru.go:54-91 | a read hits exactly where its key is cached and alive and moves that entry to the front; an expired entry gives up its slot; any other read changes nothing |
| RecencyModel.SetInPlaces | apps/api/internal/cache/memory/lru.go:93-134 | a write puts its entry first in place of the old one of its key, or drops the last entry when the cache is full |
| RecencyModel.CachedIsLastWritten | apps/api/internal/cache/memory/lru.go:93-134 | whatever is cached for a key is what its last write put there |
| RecencyModel.HitIsLastWrite | apps/api/internal/cache/memory/lru.go:76-91 | a hit returns the value of the last write of that key, and that write is younger than the TTL |
| RecencyModel.TouchedIsFirst | apps/api/internal/cache/memory/lru.go:81 | a write or a hit puts its key first, with a full TTL or the expiry it had |
| RecencyModel.RetainedUntilExpiry | apps/api/internal/cache/memory/lru.go:54-145 | with a monotone clock a touched key still hits while it has not expired and fewer than `capacity` distinct other keys were touched since |
| Ranking.RecommendationOrderIsTotal | apps/api/internal/domain/issue/recommendation_metrics.go:204-242 | the nested comparator of `RankIssues` is a total preorder |
| Ranking.RequestedSortIsLexicographic | apps/api/internal/domain/issue/recommendation_metrics.go:246-276 | the recommendation sort followed by the requested sort equals one sort by (requested, recommendation) |
| Ranking.ResponseOrderIsOneSort | apps/api/internal/usecase/search_issues.go:366-375 | all three chained stable sorts equal one lexicographic sort |
| Ranking.ResponseOrderIsCanonical | apps/api/internal/usecase/search_issues.go:366-375 | when (lower-cased full name, number) is unique the list is the same for every permutation of the input |
| Ranking.ResponseOrderMembers | apps/api/internal/usecase/search_issues.go:366-375 | sorting neither loses nor repeats an issue |
| Ranking.RankedByFields | apps/api/internal/domain/issue/recommendation_metrics.go:204-242 | in the result every issue stands before those with a lower score, then skill match, stars and update time, then larger lower-cased names and numbers |
| Ranking.SortedByRequestedField | apps/api/internal/domain/issue/recommendation_metrics.go:246-276 | for every requested order its field decides first: skill, update and response level descending with known levels before unknown, effort and difficulty ascending; ties by the recommendation order |
| Ranking.ListedByFields | apps/api/internal/usecase/search_issues.go:366-375 | the order of a response before its cap: for partial results the number of matches descending, then the requested order |
| Sorting.CompareStringsIff | apps/api/internal/domain/issue/recommendation_metrics.go:230-235 | a string is at most another exactly when it is a prefix of it or smaller where they first differ |
| Sorting.ChainedSorts | apps/api/internal/domain/issue/recommendation_metrics.go:246-276 | a stable sort after another is a sort by the lexicographic order |
| Sorting.Characterised | apps/api/internal/domain/issue/recommendation_metrics.go:204-242 | there is only one list a stable sort may return: sorted, with ties in input order |
| CandidateWindow.ExclusionReasons | apps/api/internal/domain/issue/candidate.go:82-140 | every reason is reported exactly under its own condition on the candidate and the criteria, in the order of the checks, and staleness never |
| CandidateWindow.HasOnlyPreferenceExclusions | apps/api/internal/domain/issue/candidate.go:172-182 | true exactly for a non-empty list of preference reasons |
| CandidateWindow.PreferenceMatchCount | apps/api/internal/domain/issue/candidate.go:187-203 | the count is the number of preference dimensions that are not among the reasons |
| CandidateWindow.ReasonsDistinct | apps/api/internal/domain/issue/candidate.go:82-140 | no reason is reported twice |
| CandidateWindow.ReasonsOfDistinct | apps/api/internal/domain/issue/candidate.go:82-140 | the reasons of one criteria and one moment meet what the window requires of its judge |
| CandidateWindow.MatchCountIsSevenMinusMisses | apps/api/internal/domain/issue/candidate.go:187-203 | for a candidate that misses preferences only the match count is seven minus its misses |
| CandidateWindow.MatchCountInFields | apps/api/internal/domain/issue/candidate.go:187-203 | the match count is the number of the seven preferences that the fields of the candidate meet |
| CandidateWindow.FilterIssueCandidates | apps/api/internal/usecase/search_issues_candidates.go:53-97 | the window, the per-reason totals over all candidates, the number checked, and partial exactly when only partial matches exist |
| CandidateWindow.LoadCandidateWindow | apps/api/internal/usecase/search_issues_candidates.go:13-51 | a relaxed search is made exactly when the first window is empty and relaxing changes the criteria; its window, number checked and partial flag are those of the search it comes from, judged by the original criteria, and the counts of both searches are added |
| CandidateWindow.WindowIsClosestSafeCandidates | apps/api/internal/usecase/search_issues_candidates.go:75-86 | the window is exactly the fully matching candidates when there are any, otherwise those missing only preferences, stably ordered by fewest misses |
| CandidateWindow.WindowIsSafe | apps/api/internal/domain/issue/candidate.go:152-168 | no pull request, closed, assigned, bot-generated, sensitive or insufficiently described issue ever enters the window, nor one of an archived repository when those are excluded |
| CandidateWindow.WindowInFields | apps/api/internal/usecase/search_issues_candidates.go:53-97 | the window holds exactly the found candidates that are not barred and meet all seven preferences, and the others that are not barred when none does |
| CandidateWindow.WindowOrderInFields | apps/api/internal/usecase/search_issues_candidates.go:75-86 | candidates that meet more preferences come first; the window is partial exactly when it is not empty and has no full match |
| SearchOutput.FilterRankedIssuesByStale | apps/api/internal/usecase/search_issues_filters.go:80-97 | exactly the stale issues are dropped and counted, unless they are asked for |
| SearchOutput.FilterRankedIssuesByEffort | apps/api/internal/usecase/search_issues_filters.go:99-115 | exactly the issues over the effort maximum are dropped, when one is configured |
| SearchOutput.ApplyPostAnalysisFilters | apps/api/internal/usecase/search_issues_filters.go:43-61 | the narrowest non-empty list of effort-filtered, stale-filtered and unfiltered; falling back marks the result partial |
| SearchOutput.PostAnalysisInFields | apps/api/internal/usecase/search_issues_filters.go:43-115 | what survives in the fields: issues that are not stale, unless asked for, and whose effort is known and within the maximum; then those that are not stale; then all |
| SearchOutput.LimitIssuesPerRepository | apps/api/internal/usecase/search_issues_filters.go:11-27 | the loop with its counter map computes the capped list |
| SearchOutput.CapKeepsFirstThree | apps/api/internal/usecase/search_issues_filters.go:11-27 | of every keyed repository exactly the first three issues stay, of the unkeyed ones all |
| SearchOutput.CapIsSubsequence | apps/api/internal/usecase/search_issues_filters.go:11-27 | the cap keeps the order |
| SearchOutput.CapIdempotent | apps/api/internal/usecase/search_issues_filters.go:11-27 | capping twice changes nothing |
| SearchOutput.KeyInFields | apps/api/internal/usecase/search_issues_filters.go:11-41 | two issues count as one repository by id, without ids by folded name, without either by folded address |
| SearchOutput.GuardBoundsProduct | apps/api/internal/usecase/search_issues.go:384-392 | where the page guard passes, the start offset is at most the list length, so the product stays in range |
| SearchOutput.GuardedPageIsPlainPage | apps/api/internal/usecase/search_repositories.go:406-417 | the guarded page of issue search and the plain page of discovery are the same slice |
| SearchOutput.PagesCoverList | apps/api/internal/usecase/search_issues.go:376-392 | pages 1..totalPages of a fixed list concatenate to exactly that list |
| SearchOutput.NonEmptyPages | apps/api/internal/usecase/search_issues.go:376-392 | a page is non-empty exactly when its number is at most totalPages |
| SearchOutput.PageInItems | apps/api/internal/usecase/search_issues.go:376-392 | page p holds the items from position (p - 1) * perPage on, perPage of them or what is left |
| SearchOutput.AnalysisLimitIsMinimum | apps/api/internal/usecase/search_issues.go:453-465 | with a recommender the limit equals min(analysisLimit, page * perPage, candidates) |
| SearchOutput.PostAnalysisOfPermutation | apps/api/internal/usecase/search_issues_filters.go:43-61 | the filters treat permutations alike |
| SearchOutput.ListingIsCanonical | apps/api/internal/usecase/search_issues.go:361-376 | filters, sorts and cap together give the same listing for every permutation of the ranked issues with unique references |
| SearchOutput.ListingNeverEmptied | apps/api/internal/usecase/search_issues_filters.go:43-61 | a non-empty ranking never yields an empty listing |
| SearchOutput.ListingInFields | apps/api/internal/usecase/search_issues.go:361-376 | the listing, capped, stands in the order its fields ask for, partial results by the number of met preferences first |
| SearchOutput.IssueSearchOutput | apps/api/internal/usecase/search_issues.go:361-410 | the response is the requested page of the listing with its totals, its items in the order their fields ask for |
| RepositoryDiscovery.PrefilterDiscoveryCandidates | apps/api/internal/usecase/search_repositories.go:274-344 | the loop of tests and the sort compute the shortlist |
| RepositoryDiscovery.ShortlistMembers | apps/api/internal/usecase/search_repositories.go:284-321 | exactly the repositories are analysed whose fields meet the criteria |
| RepositoryDiscovery.ShortlistOrder | apps/api/internal/usecase/search_repositories.go:323-342 | more stars first, then the later push, then the smaller lower-cased name |
| RepositoryDiscovery.NarrowingKeepsOrder | apps/api/internal/usecase/search_repositories.go:274-344 | narrower criteria give the wider shortlist with entries removed and the order kept |
| RepositoryDiscovery.ShortlistIsCanonical | apps/api/internal/usecase/search_repositories.go:323-342 | with unique lower-cased names the shortlist does not depend on the order of the source |
| Enrichment.HasEnrichmentFor | apps/api/internal/usecase/search_issues.go:467-495 | true exactly when nothing is to be enriched, the legacy branch applies, or every required repository is enriched |
| Enrichment.ElectLeaders | apps/api/internal/usecase/search_issues.go:519-540 | the first position of every not yet enriched repository leads, later positions of it follow |
| Enrichment.RecommendCandidates | apps/api/internal/usecase/search_issues.go:497-649 | a ranked permutation of one row per candidate: the loaded item for the position that loaded, the shared evidence of that item for other required positions of its repository, else the last cached evaluation, else one from metadata that says whether a load failed; the books follow from the loads |
| Enrichment.InspectionIsMinimal | apps/api/internal/usecase/search_issues.go:525-541 | at most one detail load a repository, none for an enriched one, and every requested repository is known or inspected |
| Enrichment.ChargeKeepsBalance | apps/api/internal/usecase/search_issues.go:541-590 | conservation: attempted = number of distinct enriched keys + failed is kept by every enrichment |
| EnrichmentRuns.PageRequest.Begin | apps/api/internal/usecase/search_issues.go:246-267 | a request keeps what it read from the ranking cache, or nothing when the cache does not answer |
| EnrichmentRuns.PageRequest.Finish | apps/api/internal/usecase/search_issues.go:275-360 | a request ends on the strength of what it read, whatever the cache holds by then: it answers with the entry it reuses, or loads, answers with its own ranking and writes it back unless cancelled or refused |
| EnrichmentRuns.StepKeepsBalance | apps/api/internal/usecase/search_issues.go:246-360 | the read of any request, its end and an eviction keep every entry balanced, cached or in flight |
| EnrichmentRuns.EntriesBalance | apps/api/internal/usecase/search_issues.go:246-360 | in every run, however requests overlap, the cached entry and everything a request has read satisfy attempted = distinct enriched keys + failed |
| EnrichmentRuns.LegacyBranchNeverFires | apps/api/internal/usecase/search_issues.go:485-488 | in no run, overlapping or not, does a request read an entry that the compatibility branch accepts |
| EnrichmentRuns.ReusesIffEnriched | apps/api/internal/usecase/search_issues.go:467-495 | a request reuses what it read exactly when every repository it needs is enriched there |
| EnrichmentRuns.InspectedIff | apps/api/internal/usecase/search_issues.go:467-540 | in every run, overlapping or not, a request loads a repository exactly when it requires it and did not read it as enriched |
| EnrichmentRuns.FinishForgetsIff | apps/api/internal/usecase/search_issues.go:341-359 | the end of a request takes a repository out of the cache exactly when it writes, had not read it as enriched and did not load it |
| EnrichmentRuns.KnownNeverReloaded | apps/api/internal/usecase/search_issues.go:528-532 | once the cache and everybody in flight know a repository, no later request loads it until the entry is evicted or the cache does not answer |
| EnrichmentRuns.EnrichedNeverReloaded | apps/api/internal/usecase/search_issues.go:528-532 | a request that runs alone and stores a repository it loaded is the last to load it until then |
| EnrichmentRuns.OverlapReloads | apps/api/internal/usecase/search_issues.go:246-359 | the concrete overlap: two requests read the empty cache, the second to end overwrites the first, and a third loads the first repository again with nothing evicted |
| EvaluationRuns.WriteKeepsEvaluationIff | apps/api/internal/usecase/search_issues.go:511-645 | a request that read an evaluation of a known repository hands on this evaluation exactly when it lists the issue |
| EvaluationRuns.FreshEvaluationIff | apps/api/internal/usecase/search_issues.go:578-616 | a freshly loaded evaluation is found by later requests exactly when it came back under the reference it was asked for; the repository counts as known either way |
| EvaluationRuns.EvaluationStays | apps/api/internal/usecase/search_issues.go:246-359 | once the cache and everybody in flight hold an evaluation, every later answer contains it, overlapping or not, until the entry is evicted, the cache does not answer, or a request does not list the issue |
| EvaluationRuns.DetailedEvaluationStays | apps/api/internal/usecase/search_issues.go:246-359 | the detailed evaluation that a request running alone loads and stores is in every later answer until then |
| EvaluationRuns.RenamedIsDowngraded | apps/api/internal/usecase/search_issues.go:591-645 | the concrete run: an evaluation that came back under another reference is replaced by one from metadata, and its repository is not loaded again |
| OwnedRows.Repository.Upsert | apps/api/internal/database/postgres/account_features_repository.go:54-112 | the row of a canonical reference: the existing one unchanged, or a new one of version 1; quota exceeded exactly when there is none and no room (or the id is taken) |
| OwnedRows.Repository.Create | apps/api/internal/database/postgres/account_features_repository.go:222-253 | a new name within the quota is inserted; otherwise the failure is read off the table as it is when the second query runs |
| OwnedRows.Repository.Update | apps/api/internal/database/postgres/account_features_repository.go:115-150 | an owned row of the expected version gets the new payload and the next version; otherwise nothing is written and the error is the one that holds when the table is read again |
| OwnedRows.Repository.Rename | apps/api/internal/database/postgres/account_features_repository.go:256-300 | as an update, and the new name must not be held by another row of the account; the two explaining queries see the table at their own times |
| OwnedRows.Repository.Delete | apps/api/internal/database/postgres/account_features_repository.go:153-181 | an owned row of the expected version goes; otherwise nothing is written by this call |
| OwnedRows.Repository.OwnedVersionFailure | apps/api/internal/database/postgres/account_features_repository.go:493-524 | conflict when the account owns the row, not found otherwise |
| OwnedRows.RunKeepsQuota | apps/api/internal/database/postgres/account_features_repository.go:705-801 | in every reachable state references and lower-cased names are unique per account and the counts stay within the quota |
| OwnedRows.OtherAccountsUntouched | apps/api/internal/database/postgres/account_features_repository.go:754-762 | no write changes a row of another account |
| OwnedRows.WriteInFields | apps/api/internal/database/postgres/account_features_repository.go:705-801 | a write takes effect exactly when its row, version, key and quota allow it; it then leaves its own row as written and every other row alone, and otherwise changes nothing |
| OwnedRows.VersionCountsUpdates | apps/api/internal/database/postgres/account_features_repository.go:754-829 | the version of a row is one more than the number of its successful updates |
| OwnedRows.UpdatesFormAChain | apps/api/internal/database/postgres/issue_claim_repository.go:312-323 | successful updates form one linear chain: each expects exactly the version the previous one left |
| OwnedRows.NoSharedVersion | apps/api/internal/database/postgres/issue_claim_repository.go:74-95 | no two successful updates of a row expect the same version |
| OwnedRows.PayloadIsLastEffect | apps/api/internal/database/postgres/account_features_repository.go:754-829 | a row holds what the last effective write of it brought; failed writes leave no trace |
| FailureReports.RowAfter | apps/api/internal/database/postgres/account_features_repository.go:493-524 | a row stays owned until a delete takes effect, and its version grows by one per effective update |
| FailureReports.RivalsAfter | apps/api/internal/database/postgres/account_features_repository.go:803-820 | whether another row holds a name is settled by the last effective write that took it or freed it |
| FailureReports.CountAfter | apps/api/internal/database/postgres/account_features_repository.go:780-801 | the number of rows of an account moves by its effective inserts less its effective deletes |
| FailureReports.VersionReportIff | apps/api/internal/database/postgres/account_features_repository.go:115-181 | updates and deletes: for not found and version conflict, exactly when the error is wrong about the table the statement failed on, and exactly when about the table that explains it, in terms of the writes that took effect in between |
| FailureReports.CreateReportIff | apps/api/internal/database/postgres/account_features_repository.go:222-253 | creates: the same for duplicate and quota exceeded |
| FailureReports.RenameReportIff | apps/api/internal/database/postgres/account_features_repository.go:256-300 | renames with their two explaining queries: the same for not found, version conflict and duplicate |
| FailureReports.ReportedAtOnce | apps/api/internal/database/postgres/account_features_repository.go:222-300 | without interference every error of every call is right about the table |
| FailureReports.QuotaMisreported | apps/api/internal/database/postgres/account_features_repository.go:222-253 | a name deleted between the two statements makes a table with room report an exceeded quota |
| FailureReports.DuplicateMisreported | apps/api/internal/database/postgres/account_features_repository.go:222-253 | a refusal for want of room is reported as a duplicate when another client makes room and takes the name first |
| FailureReports.NotFoundMisreported | apps/api/internal/database/postgres/account_features_repository.go:115-150 | a stale update is reported as an update of no row when the row is deleted before the second query |
| FailureReports.ConflictAtExpectedVersion | apps/api/internal/database/postgres/account_features_repository.go:115-150 | a version conflict is reported while the version is the expected one |
| FailureReports.ConflictAtCurrentVersion | apps/api/internal/database/postgres/account_features_repository.go:256-300 | a rename blocked by a name is told of a version conflict although its version was current all along |
| FailureReports.RenameDuplicateMisreported | apps/api/internal/database/postgres/account_features_repository.go:256-300 | a stale rename is reported as a duplicate when the name is taken before the last query |
| FailureReports.ConflictOnMissingRow | apps/api/internal/database/postgres/account_features_repository.go:256-300 | a stale rename is told of a version conflict on a row that is gone |
| Preferences.PreferencesStore.Upsert | apps/api/internal/database/postgres/account_features_repository.go:410-446 | a stored row is replaced exactly when its version is expected; an absent row is inserted whatever was expected |
| Preferences.AcceptedVersionsIncrease | apps/api/internal/database/postgres/account_features_repository.go:831-846 | of accepted writes that find a row no two expect the same version |
| Preferences.AcceptedIff | apps/api/internal/database/postgres/account_features_repository.go:831-846 | a write is accepted exactly when its version is not negative and, unless it is the first of its account, equals the number of accepted writes before it |
| Preferences.SettingsOfLastAccepted | apps/api/internal/database/postgres/account_features_repository.go:831-846 | the stored settings are those of the last accepted write of the account, the version is the number of accepted ones |
| Preferences.VersionCountsAccepted | apps/api/internal/database/postgres/account_features_repository.go:410-446 | between any two points of a run the stored version grows by the number of accepted writes of the account |
| Preferences.SharedVersionIff | apps/api/internal/database/postgres/account_features_repository.go:831-846 | two accepted writes expect the same version exactly when the first found nothing stored and expected the number of writes accepted from it up to the second |
| Preferences.UnbasedAcceptedIff | apps/api/internal/database/postgres/account_features_repository.go:831-846 | a write is accepted without being based on what a read shows exactly when none of its account was accepted before and it expects a positive version |
| Preferences.FirstWriteSharesItsVersion | apps/api/internal/database/postgres/account_features_repository.go:831-846 | the concrete pair of accepted writes that both expect version one |
| AccountExport.ListAll | apps/api/internal/usecase/account_workspace.go:598-616 | a page loop over an unchanging collection returns its first 5000 rows in order and makes exactly the stated number of calls |
| AccountExport.OrderIsUnique | apps/api/internal/database/postgres/account_features_repository.go:700-702 | the list order (group, time descending, id descending) leaves no row twice and admits one list only |
| AccountExport.ListedWithin | apps/api/internal/domain/account/features.go:19-47 | a list of an account is no longer than its quota |
| AccountExport.BuiltWithinLimits | apps/api/internal/usecase/account_workspace.go:594-659 | every store that its own writes built is within all quotas, holds at most 24 months and has positive versions |
| AccountExport.ExportAccount | apps/api/internal/usecase/account_workspace.go:594-659 | over an unchanging store within its limits the export holds every bookmark, claim and saved search exactly once in list order, the stored preferences and every month, in at most four pages a loop |
| AccountExport.FirstPageIsAllIffWithinQuota | apps/api/internal/usecase/account_workspace.go:632-640 | reading only the first page of saved searches is complete if and only if there are at most 50 |
| ProfileSnapshots.Normalize | apps/api/internal/domain/account/profile_snapshot.go:92-117 | the loop with its seen map computes the normalised list, or rejects it |
| ProfileSnapshots.NewProfileSnapshot | apps/api/internal/domain/account/profile_snapshot.go:46-89 | a snapshot is built exactly when both lists and the proficiency values normalise and every counter is in range |
| ProfileSnapshots.SnapshotIff | apps/api/internal/domain/account/profile_snapshot.go:46-117 | a snapshot is built exactly from at most twenty acceptable names a list, levels from one to five, and counters from zero to a million |
| ProfileSnapshots.ListedWereGiven | apps/api/internal/domain/account/profile_snapshot.go:92-117 | every listed language and framework is the trimmed form of a given one, every proficiency was given with its level |
| ProfileSnapshots.NormalizedIsNormal | apps/api/internal/domain/account/profile_snapshot.go:92-117 | what is accepted is in normal form: at most twenty clean items in strictly ascending case-insensitive order |
| ProfileSnapshots.NormalIsFixed | apps/api/internal/domain/account/profile_snapshot.go:92-117 | a normal form is left unchanged |
| ProfileSnapshots.NormalizedKeepsNames | apps/api/internal/domain/account/profile_snapshot.go:99-115 | every name survives in its earliest spelling |
| ProfileSnapshots.ReadBackIsIdentity | apps/api/internal/database/postgres/profile_snapshot_repository.go:110-129 | reading a stored row back through `NewProfileSnapshot` succeeds and returns what was written |
| SnapshotRetention.SnapshotStore.Upsert | apps/api/internal/database/postgres/profile_snapshot_repository.go:48-108 | a full table loses its oldest month before it gets a month it does not have; a known month is replaced |
| SnapshotRetention.StepKeepsNewestIff | apps/api/internal/database/postgres/profile_snapshot_repository.go:66-97 | a step keeps exactly the newest 24 months if and only if the month is known, there is room, or it is later than some retained month |
| SnapshotRetention.OlderMonthIsKept | apps/api/internal/database/postgres/profile_snapshot_repository.go:66-97 | the concrete table: with months 1 to 24 stored a write of month 0 costs month 1, and the newest 24 are not what is retained |
| SnapshotRetention.RunsWithinLimit | apps/api/internal/database/postgres/profile_snapshot_repository.go:66-97 | the table never holds more than 24 months, in whatever order they are written |
| SnapshotRetention.RetainsNewestMonths | apps/api/internal/database/postgres/profile_snapshot_repository.go:48-108 | with nondecreasing months the table is the last write of each of the newest 24 distinct months |
| Utf8.ValidIffEncoded | apps/api/internal/domain/issue/analysis_text.go:59-69 | valid strings are exactly the encodings of rune sequences and decoding inverts encoding, sections 3 and 4 of RFC 3629 |
| Utf8.Synchronised | apps/api/internal/domain/issue/analysis_text.go:115-128 | self-synchronisation: every byte of a valid text that is not a tail starts a rune |
| Utf8.DecodersAgree | apps/api/internal/domain/issue/analysis_text.go:140-148 | on a valid string the two decoders return its first and its last rune |
| Utf8.EncodedIsSound | apps/api/internal/domain/issue/analysis_text.go:104-129 | UTF-8 satisfies the laws the search proof rests on: joining, cutting, ends, injectivity |
| SelfSynchronising.OccurrenceIsAligned | apps/api/internal/domain/issue/analysis_text.go:115-128 | where a valid term occurs in a valid text, the text is cut between runes on both sides |
| AnalysisText.Index | apps/api/internal/domain/issue/analysis_text.go:116 | the first byte occurrence, or none |
| AnalysisText.ContainsNonAscii | apps/api/internal/domain/issue/analysis_text.go:131-138 | true exactly when some byte is outside ASCII |
| AnalysisText.ContainsNormalizedTerm | apps/api/internal/domain/issue/analysis_text.go:104-129 | the byte loop finds exactly the byte matches, and on every valid text it returns true exactly when the decoded runes contain the term, standing alone when it is ASCII |
| AnalysisText.MentionIsRuneMatch | apps/api/internal/domain/issue/analysis_text.go:104-129 | byte matches and rune matches are the same thing on valid text |
| AnalysisText.NormalizeAnalysisText | apps/api/internal/domain/issue/analysis_text.go:59-69 | the cut terminates with the longest prefix of whole runes within the limit, then trims; the result is valid UTF-8 |
| AnalysisText.CutLosesAtMostThreeBytes | apps/api/internal/domain/issue/analysis_text.go:64-67 | the cut loses at most three bytes of the budget |
| AnalysisText.CutKeepsWholeRunes | apps/api/internal/domain/issue/analysis_text.go:64-67 | the cut keeps the first k runes where one more would not fit |
| AnalysisText.NormalizeTexts | apps/api/internal/domain/issue/analysis_text.go:23-57 | title and body are kept within their budgets and otherwise cut to the longest whole-rune prefix, the combined text is their trimmed join, all valid UTF-8; truncation is reported exactly when one was over its budget |
| MaintainerResponse.SummarizeDurations | apps/api/internal/domain/issue/recommendation_metrics.go:92-128 | the loop over the first hundred samples computes the summary of the valid ones |
| MaintainerResponse.SummaryInFields | apps/api/internal/domain/issue/recommendation_metrics.go:92-202 | sample size, percentiles, truncation and confidence in terms of the first hundred samples between one second and 180 days |
| MaintainerResponse.PercentileIsLeastCovering | apps/api/internal/domain/issue/recommendation_metrics.go:184-190 | a percentile is the least sample with at least p percent of the samples at or below it |
| MaintainerResponse.IndexInRange | apps/api/internal/domain/issue/recommendation_metrics.go:184-190 | the nearest-rank index lies in the list, so the clamp never engages |
| MaintainerResponse.MedianAtMostPercentile90 | apps/api/internal/domain/issue/recommendation_metrics.go:118-127 | the median is at most the 90th percentile and both are valid durations |
| MaintainerResponse.ShorterSampleLowersPercentiles | apps/api/internal/domain/issue/recommendation_metrics.go:92-128 | shortening a valid sample raises neither percentile and changes nothing else |
| MaintainerResponse.AssessMaintainerResponse | apps/api/internal/domain/issue/maintainer_response.go:7-63 | the level is the average of the points over all samples, rounded down, or the cap of the coverage; with its label, sample size, confidence, the longest window that counts, the coverage rounded half up, and every metric shown as it is or as unavailable |
| MaintainerResponse.LevelInFields | apps/api/internal/domain/issue/maintainer_response.go:7-126 | the level is the average, rounded down, of one to five points a sample for medians within two weeks, a week, three days and a day, or the coverage cap when that is lower |
| MaintainerResponse.LevelInRange | apps/api/internal/domain/issue/maintainer_response.go:42-52 | the weighted level already lies between 1 and 5, so the clamp never engages |
| MaintainerResponse.CoverageBelowIff | apps/api/internal/domain/issue/recommendation_score.go:596-601 | the rounded percentage is below p exactly when 100 * answered + total / 2 < p * total, and its clamp never engages |
| MaintainerResponse.CoverageCaps | apps/api/internal/domain/issue/maintainer_response.go:43-52 | a coverage below 25, 50 or 75 percent caps the level at 1, 2 or 3, and nothing else lowers it |
| MaintainerResponse.FasterNeverLowersLevel | apps/api/internal/domain/issue/maintainer_response.go:7-63 | faster medians over as many samples never lower the level |
| MaintainerResponse.ShorterSampleNeverLowersLevel | apps/api/internal/domain/issue/maintainer_response.go:7-63 | shortening one valid sample of either metric never lowers the response level |
| Staleness.AssessStaleness | apps/api/internal/domain/issue/stale.go:18-154 | the loops collect the latest human, maintainer and linked times, and the cascade decides by them |
| Staleness.StaleIff | apps/api/internal/domain/issue/stale.go:18-154 | an issue is stale exactly when it is archived, merged, or has a complete history, no work in progress and no human trace younger than 180 days |
| Staleness.FreshIff | apps/api/internal/domain/issue/stale.go:113-134 | an issue is fresh exactly when it is neither archived nor merged and, within 30 days, it was created, a maintainer wrote, or a linked pull request moved while one is open |
| Staleness.StateInFields | apps/api/internal/domain/issue/stale.go:18-154 | each of the four verdicts exactly under its condition on the comments, pull requests, dates and flags of the input |
| Staleness.RuleInFields | apps/api/internal/domain/issue/stale.go:94-154 | each of the ten rules decides exactly under its condition, and stands for its verdict |
| Staleness.TruncatedIsStaleOnlyByFact | apps/api/internal/domain/issue/stale.go:143-147 | a truncated history yields stale only for archived repositories and merged pull requests |
| Staleness.ClockMovesForward | apps/api/internal/domain/issue/stale.go:18-154 | for fixed evidence the clock moves the verdict only along fresh, aging, stale, or from fresh to unknown when the history is truncated; stale and unknown are final |
| Staleness.CommentNeverMakesStale | apps/api/internal/domain/issue/stale.go:65-84 | appending any comment never turns a non-stale issue stale |
| Staleness.LatestIsMaximum | apps/api/internal/domain/issue/stale.go:183-191 | the latest time is attained by counted evidence and nothing counted is later |
| AccountId.ParseOfString | apps/api/internal/domain/account/account.go:31-65 | parsing the printed form of a non-zero id returns the id |
| AccountId.StringOfParse | apps/api/internal/domain/account/account.go:31-65 | an accepted string is the printed form of the id it parses to |
| AccountId.AcceptedIffPrinted | apps/api/internal/domain/account/account.go:31-65 | accepted strings are exactly the printed forms of non-zero ids, section 3 of RFC 4122 |
| AccountId.NewID | apps/api/internal/domain/account/account.go:79-88 | sixteen random bytes with the version-4 and variant bits of section 4.4 of RFC 4122; the result always parses back |

## Left out

- SessionStore.Store.UpsertIdentityAndCreateSession: does not model the identity row's own id or the advisory lock; a transaction is atomic here, while rotations of one account are not serialised by a lock in the code.
- OwnedRows.Repository.Upsert: does not model that PostgreSQL takes a statement's snapshot before the advisory lock inside it is granted; the statement is atomic here.
- OwnedRows.RunKeepsQuota: states the quota under atomic statements, for the same reason.
- LruCache.Cache.Get: the copy is made inside the call; that the code copies after releasing its mutex is not visible in a sequential method. A cancelled context and an element of the wrong type are not modelled.
- AnalysisText.NormalizeAnalysisText: lower-casing and trimming are functions with two laws (lower-cased text is valid UTF-8, trimming keeps text valid).
- ProfileSnapshots.ReadBackIsIdentity: JSON encoding of the stored lists is taken to be lossless, which it is for valid UTF-8; the size CHECKs of the table make a write fail and are not modelled.
- AccountId.ParseID: lower-casing is modelled for ASCII letters; text with other characters is rejected by the hexadecimal decoder either way.
- AnalysisText.NormalizeTexts: covers title, body and combined text; labels, dependencies, repository language and counts of the input are not modelled.
- AccountExport.ExportAccount: rows are their ids and snapshots their months, and the time the export was generated is not modelled.
- Staleness.AssessStaleness: the confidence and the evidence texts of an assessment, which follow from its rule, are not modelled.
- Enrichment.RecommendCandidates: detail loads are answers given in advance for each position; the concurrency limit and the rate-limit merge are not modelled.
- EnrichmentRuns.PageRequest.Finish: ties the ranking and the books of the entry; its incomplete flag, contribution profile and rate limit are not followed over runs.
- GitHub, OAuth and OpenSSF clients, HTTP handlers, middleware and configuration: transport.
- Cryptography, cookies and URL parsing: digests are injective and path validation is a parameter.
- `coalesce.Group`, `issue.Recommend` and the profile analysis: their results are parameters of the search model.
- Repository discovery beyond its shortlist and page slicing: the analysis of each repository and the filters on its result.
- `normalizeAnalysisValues`, label matching, claim detection, keyword tables and difficulty from labels: finite or one-pass text checks that would add easy members.
- `MigrationStatus`, `OwnedDataSummary`, issue-claim status validation and page summaries: read-only projections.
- Account deletion auditing and the `deleting` status: no code sets that status; a step marks it for completeness.
