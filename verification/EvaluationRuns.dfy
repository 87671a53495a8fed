/** What becomes of one evaluation over a run: the ranking cache hands it from request to request for as long as every
    request that writes lists the issue. A repository that is known is never loaded again, so a lost evaluation is
    replaced by one from metadata alone. */
module EvaluationRuns {
  import opened Enrichment
  import opened EnrichmentRuns
  import opened IssueModel
  import opened Options
  import opened Sorting
  import Ranking

  /** An evaluation that later requests find for the candidate: it has its key, and an issue number. */
  predicate Carries(env: Evaluators, item: RankedIssue, c: Candidate) {
    IssueKey(env, item.candidate) == IssueKey(env, c) && item.candidate.issue.number != 0
  }

  /** Numbers print without the separator, and evaluations from metadata or from a neighbour carry the key of their
      candidate. */
  ghost predicate Plain(env: Evaluators) {
    && (forall n :: '#' !in env.itoa(n))
    && (forall c, item :: IssueKey(env, env.share(c, item).candidate) == IssueKey(env, c))
    && (forall c, failed :: IssueKey(env, env.fallback(c, failed).candidate) == IssueKey(env, c))
  }

  /** The load at position k came back under the reference it was asked for, not under that of a renamed or moved
      repository. */
  predicate SameReference(env: Evaluators, r: Request, k: nat)
    requires k < |r.candidates|
  {
    r.loads(k).Detail? ==> IssueKey(env, r.loads(k).item.candidate) == IssueKey(env, r.candidates[k])
  }

  predicate Lists(env: Evaluators, r: Request, c: Candidate) {
    exists k :: 0 <= k < |r.candidates| && IssueKey(env, r.candidates[k]) == IssueKey(env, c)
  }

  // ----- finding an evaluation in a ranking -----

  lemma {:induction false} KeptByKey(env: Evaluators, s: seq<RankedIssue>, c: Candidate, d: Candidate)
    requires IssueKey(env, c) == IssueKey(env, d)
    ensures Kept(env, s, c) == Kept(env, s, d)
  {
    if s != [] {
      KeptByKey(env, s[..|s| - 1], c, d);
    }
  }

  lemma {:induction false} KeptCarries(env: Evaluators, s: seq<RankedIssue>, c: Candidate)
    requires Kept(env, s, c).Some?
    ensures Kept(env, s, c).value in s && Carries(env, Kept(env, s, c).value, c)
  {
    if IssueKey(env, s[|s| - 1].candidate) != IssueKey(env, c) {
      KeptCarries(env, s[..|s| - 1], c);
    }
  }

  /** When item is all the ranking has for the candidate, the search finds it or nothing. */
  lemma {:induction false} KeptOnly(env: Evaluators, s: seq<RankedIssue>, c: Candidate, item: RankedIssue)
    requires forall y :: y in s && IssueKey(env, y.candidate) == IssueKey(env, c) ==> y == item
    ensures Kept(env, s, c) == if item in s && Carries(env, item, c) then Some(item) else None
  {
    if s != [] {
      var rest, last := s[..|s| - 1], s[|s| - 1];
      assert forall y :: y in s <==> y in rest || y == last;
      KeptOnly(env, rest, c, item);
    }
  }

  lemma RankedMembers(env: Evaluators, rows: seq<RankedIssue>, y: RankedIssue)
    ensures y in Ranking.RankIssues(env.lower, rows) <==> y in rows
  {
    SortMembers(Ranking.RecommendationOrder(env.lower), rows);
    assert y in multiset(Ranking.RankIssues(env.lower, rows)) <==> y in multiset(rows);
  }

  lemma KeptInRanking(env: Evaluators, rows: seq<RankedIssue>, c: Candidate, item: RankedIssue)
    requires forall y :: y in rows && IssueKey(env, y.candidate) == IssueKey(env, c) ==> y == item
    ensures Kept(env, Ranking.RankIssues(env.lower, rows), c)
      == if item in rows && Carries(env, item, c) then Some(item) else None
  {
    var ranked := Ranking.RankIssues(env.lower, rows);
    forall y ensures y in ranked <==> y in rows { RankedMembers(env, rows, y); }
    KeptOnly(env, ranked, c, item);
  }

  lemma NoSeparatorAfter(a: string, x: string)
    requires '#' !in x
    ensures (a + "#" + x)[|a|] == '#' && forall k :: |a| < k < |a + "#" + x| ==> (a + "#" + x)[k] != '#'
  {
    forall k | |a| < k < |a + "#" + x| ensures (a + "#" + x)[k] != '#' {
      assert (a + "#" + x)[k] == x[k - |a| - 1];
    }
  }

  /** The last separator ends the repository. */
  lemma KeyNamesRepository(env: Evaluators, c: Candidate, d: Candidate)
    requires Plain(env) && IssueKey(env, c) == IssueKey(env, d)
    ensures RepositoryKey(env, c) == RepositoryKey(env, d)
  {
    var a, b := RepositoryKey(env, c), RepositoryKey(env, d);
    NoSeparatorAfter(a, env.itoa(c.issue.number));
    NoSeparatorAfter(b, env.itoa(d.issue.number));
    assert a == IssueKey(env, c)[..|a|] && b == IssueKey(env, d)[..|b|];
  }

  // ----- one request -----

  /** A row carries the key of its candidate unless its own load came back under another reference. */
  lemma RowKey(env: Evaluators, seen: Option<Held>, r: Request, k: nat)
    requires Plain(env) && k < |r.candidates| && SameReference(env, r, k)
    ensures IssueKey(env, Evaluations(env, seen, r)[k].candidate) == IssueKey(env, r.candidates[k])
  {
    var c := r.candidates[k];
    if Kept(env, Evaluated(seen), c).Some? { KeptCarries(env, Evaluated(seen), c); }
  }

  predicate Holds(env: Evaluators, seen: Option<Held>, c: Candidate, item: RankedIssue) {
    Knows(seen, RepositoryKey(env, c)) && Kept(env, seen.value.ranked, c) == Some(item)
  }

  /** The rows for a held evaluation are that evaluation; no other row has its key. */
  lemma RowOfHeld(env: Evaluators, seen: Option<Held>, r: Request, c: Candidate, item: RankedIssue, k: nat)
    requires Plain(env) && Holds(env, seen, c, item) && k < |r.candidates| && SameReference(env, r, k)
    ensures var row := Evaluations(env, seen, r)[k];
      if IssueKey(env, r.candidates[k]) == IssueKey(env, c) then row == item
      else IssueKey(env, row.candidate) != IssueKey(env, c)
  {
    if IssueKey(env, r.candidates[k]) == IssueKey(env, c) {
      KeyNamesRepository(env, r.candidates[k], c);
      KeptByKey(env, seen.value.ranked, r.candidates[k], c);
    } else {
      RowKey(env, seen, r, k);
    }
  }

  lemma RowsOfHeld(env: Evaluators, seen: Option<Held>, r: Request, c: Candidate, item: RankedIssue)
    requires Plain(env) && Holds(env, seen, c, item) && IssueKey(env, item.candidate) == IssueKey(env, c)
    requires forall k :: 0 <= k < |r.candidates| ==> SameReference(env, r, k)
    ensures var rows := Evaluations(env, seen, r);
      && (forall y :: y in rows && IssueKey(env, y.candidate) == IssueKey(env, c) ==> y == item)
      && (item in rows <==> Lists(env, r, c))
  {
    var rows := Evaluations(env, seen, r);
    forall k | 0 <= k < |rows|
      ensures if IssueKey(env, r.candidates[k]) == IssueKey(env, c) then rows[k] == item
              else IssueKey(env, rows[k].candidate) != IssueKey(env, c)
    {
      RowOfHeld(env, seen, r, c, item, k);
    }
    if Lists(env, r, c) {
      var k :| 0 <= k < |r.candidates| && IssueKey(env, r.candidates[k]) == IssueKey(env, c);
      assert rows[k] in rows;
    }
  }

  /** A request that read an evaluation hands it on, whatever it loads itself, exactly when it lists the issue. */
  lemma WriteKeepsEvaluationIff(env: Evaluators, seen: Option<Held>, r: Request, c: Candidate, item: RankedIssue)
    requires Plain(env) && Holds(env, seen, c, item)
    requires forall k :: 0 <= k < |r.candidates| ==> SameReference(env, r, k)
    ensures Kept(env, Written(env, seen, r).ranked, c) == if Lists(env, r, c) then Some(item) else None
    ensures Knows(Some(Written(env, seen, r)), RepositoryKey(env, c))
  {
    KeptCarries(env, seen.value.ranked, c);
    RowsOfHeld(env, seen, r, c, item);
    KeptInRanking(env, Evaluations(env, seen, r), c, item);
  }

  /** A fresh detailed evaluation is found again exactly when it came back under the reference it was asked for. When
      it did not, the repository is known all the same, so the evaluation is lost and not loaded again. */
  lemma FreshEvaluationIff(env: Evaluators, seen: Option<Held>, r: Request, i: nat)
    requires Plain(env) && i in Leaders(Names(env, r.candidates), Known(seen).keys, r.limit) && r.loads(i).Detail?
    requires forall k :: 0 <= k < |r.candidates| && k != i ==>
      SameReference(env, r, k) && IssueKey(env, r.candidates[k]) != IssueKey(env, r.candidates[i])
    ensures var c, item := r.candidates[i], r.loads(i).item;
      && Kept(env, Written(env, seen, r).ranked, c) == (if Carries(env, item, c) then Some(item) else None)
      && Knows(Some(Written(env, seen, r)), RepositoryKey(env, c))
  {
    var names, rows := Names(env, r.candidates), Evaluations(env, seen, r);
    var c, item := r.candidates[i], r.loads(i).item;
    LeaderMember(names, Known(seen).keys, r.limit, i);
    assert names[i] in names && FirstAt(names, names[i]) == i;
    assert rows[i] == item;
    forall k | 0 <= k < |rows| && k != i ensures IssueKey(env, rows[k].candidate) != IssueKey(env, c) {
      RowKey(env, seen, r, k);
    }
    KeptInRanking(env, rows, c, item);
    assert names[i] in Loaded(names, Leaders(names, Known(seen).keys, r.limit), r.loads);
  }

  // ----- runs -----

  /** A request that lists the issue and whose loads come back under their own references. */
  ghost predicate Suits(env: Evaluators, r: Request, c: Candidate) {
    Lists(env, r, c) && forall k :: 0 <= k < |r.candidates| ==> SameReference(env, r, k)
  }

  /** The cache and every request in flight hold the evaluation. */
  ghost predicate EverybodyHolds(env: Evaluators, s: System, c: Candidate, item: RankedIssue) {
    && Holds(env, s.cache, c, item)
    && forall id :: id in s.flights ==> Holds(env, s.flights[id].seen, c, item) && Suits(env, s.flights[id].request, c)
  }

  ghost predicate Harmless(env: Evaluators, a: Action, c: Candidate) {
    Calm(a) && (a.Begin? ==> Suits(env, a.request, c))
  }

  lemma StepHolds(env: Evaluators, s: System, a: Action, c: Candidate, item: RankedIssue)
    requires Plain(env) && EverybodyHolds(env, s, c, item) && Harmless(env, a, c)
    ensures EverybodyHolds(env, Step(env, s, a), c, item)
  {
    if a.Finish? && a.id in s.flights {
      WriteKeepsEvaluationIff(env, s.flights[a.id].seen, s.flights[a.id].request, c, item);
    }
  }

  lemma StaysHeld(env: Evaluators, actions: seq<Action>, i: nat, j: nat, c: Candidate, item: RankedIssue)
    requires Plain(env) && i <= j <= |actions| && EverybodyHolds(env, Run(env, actions[..i]), c, item)
    requires forall k :: i <= k < j ==> Harmless(env, actions[k], c)
    ensures EverybodyHolds(env, Run(env, actions[..j]), c, item)
  {
    forall s, a | EverybodyHolds(env, s, c, item) && Harmless(env, a, c)
      ensures EverybodyHolds(env, Step(env, s, a), c, item)
    {
      StepHolds(env, s, a, c, item);
    }
    RunKeeps(env, actions, i, j, a => Harmless(env, a, c), s => EverybodyHolds(env, s, c, item));
  }

  /** Once the cache and everybody in flight hold an evaluation, every later answer contains it, overlapping or not,
      until the entry is evicted, the cache does not answer, or a request does not list the issue. */
  lemma EvaluationStays(
    env: Evaluators, actions: seq<Action>, i: nat, j: nat, id: nat, c: Candidate, item: RankedIssue)
    requires Plain(env) && i <= j <= |actions| && EverybodyHolds(env, Run(env, actions[..i]), c, item)
    requires forall k :: i <= k < j ==> Harmless(env, actions[k], c)
    requires id in Run(env, actions[..j]).flights
    ensures var f := Run(env, actions[..j]).flights[id];
      Answer(env, f.seen, f.request).Some? ==> item in Answer(env, f.seen, f.request).value
  {
    StaysHeld(env, actions, i, j, c, item);
    var f := Run(env, actions[..j]).flights[id];
    WriteKeepsEvaluationIff(env, f.seen, f.request, c, item);
    KeptCarries(env, f.seen.value.ranked, c);
    KeptCarries(env, Written(env, f.seen, f.request).ranked, c);
  }

  /** Serially: the detailed evaluation that a request running alone loads and stores is in every later answer. */
  lemma DetailedEvaluationStays(
    env: Evaluators, actions: seq<Action>, at: nat, j: nat, id: nat, later: nat, i: nat)
    requires Plain(env) && at + 2 <= j <= |actions| && Run(env, actions[..at]).flights == map[]
    requires actions[at].Begin? && actions[at].id == id && actions[at + 1] == Finish(id)
    requires var seen, r := (if actions[at].readable then Run(env, actions[..at]).cache else None), actions[at].request;
      && Writes(env, seen, r) && i in Inspected(env, seen, r)
      && r.loads(i).Detail? && Carries(env, r.loads(i).item, r.candidates[i])
      && (forall k :: 0 <= k < |r.candidates| && k != i ==>
            SameReference(env, r, k) && IssueKey(env, r.candidates[k]) != IssueKey(env, r.candidates[i]))
      && (forall k :: at + 2 <= k < j ==> Harmless(env, actions[k], r.candidates[i]))
    requires later in Run(env, actions[..j]).flights
    ensures var f := Run(env, actions[..j]).flights[later];
      Answer(env, f.seen, f.request).Some? ==>
        actions[at].request.loads(i).item in Answer(env, f.seen, f.request).value
  {
    var seen, r := (if actions[at].readable then Run(env, actions[..at]).cache else None), actions[at].request;
    RunStep(env, actions, at);
    RunStep(env, actions, at + 1);
    FreshEvaluationIff(env, seen, r, i);
    EvaluationStays(env, actions, at + 2, j, later, r.candidates[i], r.loads(i).item);
  }

  /** A load that comes back under another reference is downgraded: the next request that writes does not load the
      repository again and has only metadata for the issue. */
  lemma RenamedIsDowngraded(
    env: Evaluators, c: Candidate, d: Candidate, item: RankedIssue, r: Request, actions: seq<Action>)
    requires Plain(env) && RepositoryKey(env, c) != RepositoryKey(env, d) && !Carries(env, item, c)
    requires r.candidates == [c, d] && r.limit == 2
    requires actions == [Begin(1, Asks(c, item), true), Finish(1), Begin(2, r, true)]
    ensures 2 in Run(env, actions).flights
    ensures var seen := Run(env, actions).flights[2].seen;
      Inspected(env, seen, r) == [1] && Evaluations(env, seen, r)[0] == env.fallback(c, false)
  {
    var asks := Asks(c, item);
    FirstLoad(env, c, item);
    OneLoad(env, c, item, {});
    assert actions[..0] == [];
    RunStep(env, actions, 0);
    RunStep(env, actions, 1);
    RunStep(env, actions, 2);
    assert actions[..3] == actions;
    var seen := Some(Written(env, None, asks));
    assert Run(env, actions).flights[2].seen == seen;
    FreshEvaluationIff(env, None, asks, 0);
    SecondLeads(env, c, d, seen, r);
  }

  lemma SecondLeads(env: Evaluators, c: Candidate, d: Candidate, seen: Option<Held>, r: Request)
    requires RepositoryKey(env, c) != RepositoryKey(env, d) && r.candidates == [c, d] && r.limit == 2
    requires seen.Some? && seen.value.ledger == Ledger({RepositoryKey(env, c)}, 1, 0)
    requires Kept(env, seen.value.ranked, c) == None
    ensures Inspected(env, seen, r) == [1] && Evaluations(env, seen, r)[0] == env.fallback(c, false)
  {
    var names, keys := Names(env, r.candidates), seen.value.ledger.keys;
    assert names == [RepositoryKey(env, c), RepositoryKey(env, d)];
    assert names[1] in Required(names, 2);
    assert !Leads(names, keys, 0) && Leads(names, keys, 1);
    assert Leaders(names, keys, 0) == [] && Leaders(names, keys, 1) == [];
  }
}
