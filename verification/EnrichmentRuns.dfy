/** The ranking cache of one criteria key under overlapping page requests. A request reads the cache, loads details for
    as long as that takes, and may write back; meanwhile other requests do the same and the entry may be evicted. */
module EnrichmentRuns {
  import opened Enrichment
  import opened IssueModel
  import opened Options
  import opened Sorting
  import Ranking

  /** What one page request asks of the enrichment, and how the world answers it. stored says whether writing
      the cache works. */
  datatype RawRequest = RawRequest(
    candidates: seq<Candidate>, limit: nat, loads: nat -> Load, cancelled: bool, stored: bool)

  type Request = r: RawRequest | r.limit <= |r.candidates| witness RawRequest([], 0, i => NoDetail, false, false)

  /** What a cache entry holds: the ranked evaluations and the books. */
  datatype Held = Held(ranked: seq<RankedIssue>, ledger: Ledger)

  const EMPTY: Entry := Entry([], 0, 0, false, [])

  function Known(seen: Option<Held>): Ledger {
    if seen.Some? then seen.value.ledger else Ledger({}, 0, 0)
  }

  function Evaluated(seen: Option<Held>): seq<RankedIssue> {
    if seen.Some? then seen.value.ranked else []
  }

  /** What a request read serves it as it is. */
  predicate Reuses(env: Evaluators, seen: Option<Held>, r: Request) {
    seen.Some? && Enough(seen.value.ledger, Names(env, r.candidates), r.limit)
  }

  /** The positions a request inspects in detail. */
  function Inspected(env: Evaluators, seen: Option<Held>, r: Request): seq<nat> {
    if Reuses(env, seen, r) then [] else Leaders(Names(env, r.candidates), Known(seen).keys, r.limit)
  }

  predicate Writes(env: Evaluators, seen: Option<Held>, r: Request) {
    !Reuses(env, seen, r) && !r.cancelled && r.stored
  }

  function Evaluations(env: Evaluators, seen: Option<Held>, r: Request): seq<RankedIssue> {
    Rows(env, Names(env, r.candidates), r.candidates, Evaluated(seen), Known(seen).keys, r.limit, r.loads)
  }

  /** What a request leaves in the cache. */
  function Written(env: Evaluators, seen: Option<Held>, r: Request): Held {
    Held(Ranking.RankIssues(env.lower, Evaluations(env, seen, r)),
         Charge(Known(seen), Names(env, r.candidates), r.limit, r.loads))
  }

  /** What a request answers with. */
  function Answer(env: Evaluators, seen: Option<Held>, r: Request): Option<seq<RankedIssue>> {
    if Reuses(env, seen, r) then Some(seen.value.ranked)
    else if r.cancelled then None
    else Some(Written(env, seen, r).ranked)
  }

  // ----- the code -----

  function HeldIn(cache: Option<Entry>): Option<Held> {
    if cache.Some? then Some(Held(cache.value.ranked, LedgerOf(cache.value))) else None
  }

  lemma RankKeepsLength(lower: string -> string, rows: seq<RankedIssue>)
    ensures |Ranking.RankIssues(lower, rows)| == |rows|
  {
    SortMembers(Ranking.RecommendationOrder(lower), rows);
  }

  class RankingCache {
    var entry: Option<Entry>

    constructor ()
      ensures entry == None
    {
      entry := None;
    }
  }

  /** The enrichment half of issueSearchOutput: what was read lives in the request until it is done. */
  class PageRequest {
    const cache: RankingCache
    var seen: Option<Entry>

    /** readable says whether the cache answers. */
    constructor Begin(cache: RankingCache, readable: bool)
      ensures this.cache == cache && seen == if readable then cache.entry else None
    {
      this.cache := cache;
      this.seen := if readable then cache.entry else None;
    }

    /** The cache is written on the strength of what was read, whatever it holds by now. */
    method Finish(
      env: Evaluators, candidates: seq<Candidate>, limit: nat, loads: nat -> Load, cancelled: bool, stored: bool)
      returns (ranked: Option<seq<RankedIssue>>, inspected: seq<nat>)
      requires limit <= |candidates|
      modifies cache
      ensures var r := RawRequest(candidates, limit, loads, cancelled, stored);
        && inspected == Inspected(env, HeldIn(seen), r)
        && ranked == Answer(env, HeldIn(seen), r)
        && (if Writes(env, HeldIn(seen), r) then HeldIn(cache.entry) == Some(Written(env, HeldIn(seen), r))
            else cache.entry == old(cache.entry))
        && (!Reuses(env, HeldIn(seen), r) && ranked.Some? ==> |ranked.value| == |candidates|)
    {
      var names := Names(env, candidates);
      var existing := if seen.Some? then seen.value else EMPTY;
      assert LedgerOf(EMPTY).keys == {};
      assert LedgerOf(existing) == Known(HeldIn(seen));
      if seen.Some? {
        var enough := HasEnrichmentFor(true, names, existing, limit);
        if enough {
          return Some(existing.ranked), [];
        }
      }
      var entry;
      entry, inspected := RecommendCandidates(env, candidates, limit, existing, loads, cancelled);
      if entry.None? {
        return None, inspected;
      }
      RankKeepsLength(env.lower, Rows(env, names, candidates, existing.ranked, LedgerOf(existing).keys, limit, loads));
      if stored {
        cache.entry := entry;
      }
      return Some(entry.value.ranked), inspected;
    }
  }

  // ----- overlapping requests -----

  /** A request between its read and its end. */
  datatype Flight = Flight(request: Request, seen: Option<Held>)

  datatype System = System(cache: Option<Held>, flights: map<nat, Flight>)

  /** A request that never ends just stays in flight. */
  datatype Action = Begin(id: nat, request: Request, readable: bool) | Finish(id: nat) | Evict

  function CacheAfter(env: Evaluators, cache: Option<Held>, f: Flight): Option<Held> {
    if Writes(env, f.seen, f.request) then Some(Written(env, f.seen, f.request)) else cache
  }

  function Step(env: Evaluators, s: System, a: Action): System {
    match a
    case Begin(id, r, readable) =>
      if id in s.flights then s
      else s.(flights := s.flights[id := Flight(r, if readable then s.cache else None)])
    case Finish(id) =>
      if id !in s.flights then s else System(CacheAfter(env, s.cache, s.flights[id]), s.flights - {id})
    case Evict => s.(cache := None)
  }

  const START := System(None, map[])

  /** Any interleaving of reads, ends and evictions, from an empty cache. */
  function Run(env: Evaluators, actions: seq<Action>): System {
    if actions == [] then START else Step(env, Run(env, actions[..|actions| - 1]), actions[|actions| - 1])
  }

  lemma RunStep(env: Evaluators, actions: seq<Action>, i: nat)
    requires i < |actions|
    ensures Run(env, actions[..i + 1]) == Step(env, Run(env, actions[..i]), actions[i])
  {
    assert actions[..i + 1][..i] == actions[..i];
  }

  /** What every good step keeps holds to the end of a stretch of good steps. */
  lemma {:induction false} RunKeeps(
    env: Evaluators, actions: seq<Action>, i: nat, j: nat, good: Action -> bool, inv: System -> bool)
    requires i <= j <= |actions| && inv(Run(env, actions[..i]))
    requires forall k :: i <= k < j ==> good(actions[k])
    requires forall s, a :: inv(s) && good(a) ==> inv(Step(env, s, a))
    ensures inv(Run(env, actions[..j]))
  {
    if i < j {
      RunKeeps(env, actions, i, j - 1, good, inv);
      RunStep(env, actions, j - 1);
    }
  }

  // ----- conservation -----

  predicate BalancedIfAny(seen: Option<Held>) {
    seen.Some? ==> seen.value.ledger.Balanced()
  }

  ghost predicate AllBalanced(s: System) {
    BalancedIfAny(s.cache) && forall id :: id in s.flights ==> BalancedIfAny(s.flights[id].seen)
  }

  lemma StepKeepsBalance(env: Evaluators, s: System, a: Action)
    requires AllBalanced(s)
    ensures AllBalanced(Step(env, s, a))
  {
    if a.Finish? && a.id in s.flights {
      var f := s.flights[a.id];
      ChargeKeepsBalance(Known(f.seen), Names(env, f.request.candidates), f.request.limit, f.request.loads);
    }
  }

  /** In every run, however requests overlap, the cached entry is balanced, and so is everything a request has read. */
  lemma {:induction false} EntriesBalance(env: Evaluators, actions: seq<Action>)
    ensures AllBalanced(Run(env, actions))
  {
    if actions != [] {
      EntriesBalance(env, actions[..|actions| - 1]);
      StepKeepsBalance(env, Run(env, actions[..|actions| - 1]), actions[|actions| - 1]);
    }
  }

  lemma BalancedIsNotLegacy(l: Ledger, names: seq<string>, limit: nat)
    requires l.Balanced() && 0 < limit <= |names|
    ensures !LegacyEntry(l, names, limit)
  {
    assert names[0] in Required(names, limit);
    assert |Required(names, limit)| >= 1;
  }

  /** The compatibility branch is dead for entries this code wrote: in no run does a request read an entry that the
      branch accepts, and in no state does the cache hold one. */
  lemma LegacyBranchNeverFires(env: Evaluators, actions: seq<Action>, names: seq<string>, limit: nat)
    requires 0 < limit <= |names|
    ensures Run(env, actions).cache.Some? ==> !LegacyEntry(Run(env, actions).cache.value.ledger, names, limit)
    ensures forall id :: id in Run(env, actions).flights && Run(env, actions).flights[id].seen.Some? ==>
      !LegacyEntry(Run(env, actions).flights[id].seen.value.ledger, names, limit)
  {
    EntriesBalance(env, actions);
    var s := Run(env, actions);
    if s.cache.Some? { BalancedIsNotLegacy(s.cache.value.ledger, names, limit); }
    forall id | id in s.flights && s.flights[id].seen.Some?
      ensures !LegacyEntry(s.flights[id].seen.value.ledger, names, limit)
    {
      BalancedIsNotLegacy(s.flights[id].seen.value.ledger, names, limit);
    }
  }

  /** So a request reuses what it read exactly when every repository it needs is enriched there. */
  lemma ReusesIffEnriched(env: Evaluators, actions: seq<Action>, id: nat)
    requires id in Run(env, actions).flights
    ensures var f := Run(env, actions).flights[id];
      Reuses(env, f.seen, f.request) <==>
        f.seen.Some? && Required(Names(env, f.request.candidates), f.request.limit) <= f.seen.value.ledger.keys
  {
    var f := Run(env, actions).flights[id];
    if f.request.limit > 0 {
      LegacyBranchNeverFires(env, actions, Names(env, f.request.candidates), f.request.limit);
    } else {
      assert Required(Names(env, f.request.candidates), 0) == {};
    }
  }

  // ----- reloads -----

  predicate Knows(seen: Option<Held>, name: string) {
    seen.Some? && name in seen.value.ledger.keys
  }

  /** When the end of a request takes a repository out of the cache: exactly when it writes, had not read the
      repository as enriched, and did not load it itself. */
  lemma FinishForgetsIff(env: Evaluators, s: System, id: nat, name: string)
    requires id in s.flights && Knows(s.cache, name)
    ensures var f := s.flights[id];
      !Knows(Step(env, s, Finish(id)).cache, name) <==>
        && Writes(env, f.seen, f.request) && !Knows(f.seen, name)
        && name !in Loaded(Names(env, f.request.candidates), Inspected(env, f.seen, f.request), f.request.loads)
  {
  }

  /** In every run, however requests overlap, a request loads a repository exactly when it needs it and did not read
      it as enriched. */
  lemma InspectedIff(env: Evaluators, actions: seq<Action>, id: nat, name: string)
    requires id in Run(env, actions).flights
    ensures var f := Run(env, actions).flights[id];
      var names := Names(env, f.request.candidates);
      (exists k :: k in Inspected(env, f.seen, f.request) && names[k] == name)
        <==> name in Required(names, f.request.limit) && !Knows(f.seen, name)
  {
    var f := Run(env, actions).flights[id];
    var names, known := Names(env, f.request.candidates), Known(f.seen).keys;
    ReusesIffEnriched(env, actions, id);
    InspectionIsMinimal(names, known, f.request.limit);
    forall k | k in Inspected(env, f.seen, f.request) ensures names[k] in Required(names, f.request.limit) {
      LeaderMember(names, known, f.request.limit, k);
    }
    if name in Required(names, f.request.limit) && !Knows(f.seen, name) {
      var i :| 0 <= i < f.request.limit && names[i] == name;
    }
  }

  /** The cache and every request in flight know the repository. */
  ghost predicate EverybodyKnows(s: System, name: string) {
    Knows(s.cache, name) && forall id :: id in s.flights ==> Knows(s.flights[id].seen, name)
  }

  predicate Calm(a: Action) {
    !a.Evict? && (a.Begin? ==> a.readable)
  }

  lemma StepKnown(env: Evaluators, s: System, a: Action, name: string)
    requires EverybodyKnows(s, name) && Calm(a)
    ensures EverybodyKnows(Step(env, s, a), name)
  {
  }

  lemma StaysKnown(env: Evaluators, actions: seq<Action>, i: nat, j: nat, name: string)
    requires i <= j <= |actions| && EverybodyKnows(Run(env, actions[..i]), name)
    requires forall k :: i <= k < j ==> Calm(actions[k])
    ensures EverybodyKnows(Run(env, actions[..j]), name)
  {
    forall s, a | EverybodyKnows(s, name) && Calm(a) ensures EverybodyKnows(Step(env, s, a), name) {
      StepKnown(env, s, a, name);
    }
    RunKeeps(env, actions, i, j, a => Calm(a), s => EverybodyKnows(s, name));
  }

  lemma KnownIsNotInspected(env: Evaluators, seen: Option<Held>, r: Request, name: string)
    requires Knows(seen, name)
    ensures forall k :: k in Inspected(env, seen, r) ==> Names(env, r.candidates)[k] != name
  {
    forall k | k in Inspected(env, seen, r) ensures Names(env, r.candidates)[k] != name {
      LeaderMember(Names(env, r.candidates), Known(seen).keys, r.limit, k);
    }
  }

  /** Once the cache and everybody in flight know a repository, no later request loads it, overlapping or not, until
      the entry is evicted or the cache does not answer. */
  lemma KnownNeverReloaded(env: Evaluators, actions: seq<Action>, i: nat, j: nat, id: nat, name: string)
    requires i <= j <= |actions| && EverybodyKnows(Run(env, actions[..i]), name)
    requires forall k :: i <= k < j ==> Calm(actions[k])
    requires id in Run(env, actions[..j]).flights
    ensures var f := Run(env, actions[..j]).flights[id];
      forall k :: k in Inspected(env, f.seen, f.request) ==> Names(env, f.request.candidates)[k] != name
  {
    StaysKnown(env, actions, i, j, name);
    var f := Run(env, actions[..j]).flights[id];
    KnownIsNotInspected(env, f.seen, f.request, name);
  }

  /** Serially: a request that runs while no other is in flight and stores a repository it loaded is the last one to
      load it. */
  lemma EnrichedNeverReloaded(env: Evaluators, actions: seq<Action>, i: nat, j: nat, id: nat, later: nat, name: string)
    requires i + 2 <= j <= |actions| && Run(env, actions[..i]).flights == map[]
    requires actions[i].Begin? && actions[i].id == id && actions[i + 1] == Finish(id)
    requires var seen, r := (if actions[i].readable then Run(env, actions[..i]).cache else None), actions[i].request;
      Writes(env, seen, r) && name in Loaded(Names(env, r.candidates), Inspected(env, seen, r), r.loads)
    requires forall k :: i + 2 <= k < j ==> Calm(actions[k])
    requires later in Run(env, actions[..j]).flights
    ensures var f := Run(env, actions[..j]).flights[later];
      forall k :: k in Inspected(env, f.seen, f.request) ==> Names(env, f.request.candidates)[k] != name
  {
    RunStep(env, actions, i);
    RunStep(env, actions, i + 1);
    KnownNeverReloaded(env, actions, i + 2, j, later, name);
  }

  function Asks(c: Candidate, item: RankedIssue): Request {
    RawRequest([c], 1, i => Detail(item, false), false, true)
  }

  lemma OverlapSteps(env: Evaluators, a: Request, b: Request, both: System, one: System)
    requires Writes(env, None, a) && Writes(env, None, b)
    requires both == System(None, map[1 := Flight(a, None), 2 := Flight(b, None)])
    requires one == System(Some(Written(env, None, a)), map[2 := Flight(b, None)])
    ensures Step(env, Step(env, START, Begin(1, a, true)), Begin(2, b, true)) == both
    ensures Step(env, both, Finish(1)) == one
    ensures Step(env, one, Finish(2)) == System(Some(Written(env, None, b)), map[])
  {
    assert both.flights - {1} == one.flights;
    assert one.flights - {2} == map[];
  }

  /** Two requests read the empty cache and both write: the cache keeps what the second one to end has loaded. */
  lemma SecondEndWins(env: Evaluators, actions: seq<Action>, a: Request, b: Request, c: Request)
    requires |actions| == 5 && actions[0] == Begin(1, a, true) && actions[1] == Begin(2, b, true)
    requires actions[2] == Finish(1) && actions[3] == Finish(2) && actions[4] == Begin(3, c, true)
    requires Writes(env, None, a) && Writes(env, None, b)
    ensures Run(env, actions[..3]).cache == Some(Written(env, None, a))
    ensures var written := Some(Written(env, None, b));
      Run(env, actions) == System(written, map[3 := Flight(c, written)])
  {
    var both := System(None, map[1 := Flight(a, None), 2 := Flight(b, None)]);
    var one := System(Some(Written(env, None, a)), map[2 := Flight(b, None)]);
    OverlapSteps(env, a, b, both, one);
    RunTwo(env, actions, 0);
    assert actions[..0] == [];
    RunTwo(env, actions, 2);
    RunStep(env, actions, 2);
    RunStep(env, actions, 4);
    assert actions[..5] == actions;
  }

  lemma RunTwo(env: Evaluators, actions: seq<Action>, i: nat)
    requires i + 2 <= |actions|
    ensures Run(env, actions[..i + 2]) == Step(env, Step(env, Run(env, actions[..i]), actions[i]), actions[i + 1])
  {
    RunStep(env, actions, i);
    RunStep(env, actions, i + 1);
  }

  lemma FirstLoad(env: Evaluators, c: Candidate, item: RankedIssue)
    ensures Writes(env, None, Asks(c, item))
    ensures Written(env, None, Asks(c, item)).ledger == Ledger({RepositoryKey(env, c)}, 1, 0)
  {
    OneLoad(env, c, item, {});
  }

  lemma LoadsAgain(env: Evaluators, c: Candidate, item: RankedIssue, seen: Held)
    requires |seen.ledger.keys| == 1 && RepositoryKey(env, c) !in seen.ledger.keys
    ensures Inspected(env, Some(seen), Asks(c, item)) == [0]
  {
    OneLoad(env, c, item, seen.ledger.keys);
    assert Names(env, [c])[0] in Required(Names(env, [c]), 1);
  }

  lemma OneLoad(env: Evaluators, c: Candidate, item: RankedIssue, known: set<string>)
    requires RepositoryKey(env, c) !in known
    ensures Leaders(Names(env, [c]), known, 1) == [0]
    ensures Loaded(Names(env, [c]), [0], Asks(c, item).loads) == {RepositoryKey(env, c)}
    ensures Failures([0], Asks(c, item).loads) == 0
  {
    var names := Names(env, [c]);
    assert names == [RepositoryKey(env, c)];
    assert Leads(names, known, 0);
    assert Leaders(names, known, 0) == [];
    assert Loaded(names, [0], Asks(c, item).loads) == {names[0]};
  }

  /** Overlapping requests do reload: two of them read the empty cache, the second to end overwrites what the first
      stored, and a third loads the repository of the first again, with nothing evicted. */
  lemma OverlapReloads(
    env: Evaluators, first: Candidate, second: Candidate, item: RankedIssue, actions: seq<Action>)
    requires RepositoryKey(env, first) != RepositoryKey(env, second)
    requires actions == [
      Begin(1, Asks(first, item), true), Begin(2, Asks(second, item), true), Finish(1), Finish(2),
      Begin(3, Asks(first, item), true)]
    ensures Knows(Run(env, actions[..3]).cache, RepositoryKey(env, first))
    ensures Run(env, actions).cache.Some?
    ensures Run(env, actions).cache.value.ledger == Ledger({RepositoryKey(env, second)}, 1, 0)
    ensures 3 in Run(env, actions).flights
    ensures Inspected(env, Run(env, actions).flights[3].seen, Asks(first, item)) == [0]
  {
    FirstLoad(env, first, item);
    FirstLoad(env, second, item);
    SecondEndWins(env, actions, Asks(first, item), Asks(second, item), Asks(first, item));
    LoadsAgain(env, first, item, Written(env, None, Asks(second, item)));
  }
}
