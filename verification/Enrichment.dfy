/** Incremental detail enrichment of a candidate list, and the ranking cache entry that carries it from one page
    request to the next. */
module Enrichment {
  import opened IssueModel
  import opened Options
  import opened Sets
  import opened Sorting
  import Ranking

  /** A ranking cache entry. */
  datatype Entry = Entry(
    ranked: seq<RankedIssue>,
    attempted: nat,
    failed: nat,
    incomplete: bool,
    enrichedKeys: seq<string>)

  /** What inspecting one issue in detail gives; NoDetail covers an invalid reference and a failed load. */
  datatype Load = Detail(item: RankedIssue, incomplete: bool) | NoDetail

  /** The evaluators and text functions the code calls: strings.ToLower, the decimal number of an issue,
      evaluation from a neighbour's repository evidence, and evaluation from metadata alone. */
  datatype Evaluators = Evaluators(
    lower: string -> string,
    itoa: int -> string,
    share: (Candidate, RankedIssue) -> RankedIssue,
    fallback: (Candidate, bool) -> RankedIssue)

  function RepositoryKey(env: Evaluators, c: Candidate): string {
    env.lower(c.repository.owner + "/" + c.repository.name)
  }

  function IssueKey(env: Evaluators, c: Candidate): string {
    RepositoryKey(env, c) + "#" + env.itoa(c.issue.number)
  }

  function Names(env: Evaluators, candidates: seq<Candidate>): seq<string> {
    seq(|candidates|, i requires 0 <= i < |candidates| => RepositoryKey(env, candidates[i]))
  }

  // ----- specification: who is inspected -----

  /** Position i speaks for its repository: not enriched before, and no earlier position does. */
  predicate Leads(names: seq<string>, enriched: set<string>, i: nat)
    requires i < |names|
  {
    names[i] !in enriched && forall k :: 0 <= k < i ==> names[k] != names[i]
  }

  function Leaders(names: seq<string>, enriched: set<string>, limit: nat): (leaders: seq<nat>)
    requires limit <= |names|
    ensures forall i :: i in leaders ==> i < limit
  {
    if limit == 0 then []
    else Leaders(names, enriched, limit - 1) + if Leads(names, enriched, limit - 1) then [limit - 1] else []
  }

  lemma {:induction false} LeaderMember(names: seq<string>, enriched: set<string>, limit: nat, i: nat)
    requires limit <= |names|
    ensures i in Leaders(names, enriched, limit) <==> i < limit && Leads(names, enriched, i)
  {
    if limit > 0 {
      LeaderMember(names, enriched, limit - 1, i);
    }
  }

  /** Where a name first occurs: the position inspected on behalf of every position with that name. */
  function FirstAt(names: seq<string>, name: string): (i: nat)
    requires name in names
    ensures i < |names| && names[i] == name
    ensures forall k :: 0 <= k < i ==> names[k] != name
  {
    if names[0] == name then 0 else FirstAt(names[1..], name) + 1
  }

  // ----- specification: what every position gets -----

  /** The cached evaluation of a candidate; the last one wins, and one without an issue number is none. */
  function Kept(env: Evaluators, cached: seq<RankedIssue>, c: Candidate): Option<RankedIssue> {
    if cached == [] then None
    else if IssueKey(env, cached[|cached| - 1].candidate) == IssueKey(env, c)
    then (if cached[|cached| - 1].candidate.issue.number != 0 then Some(cached[|cached| - 1]) else None)
    else Kept(env, cached[..|cached| - 1], c)
  }

  function Row(
    env: Evaluators, names: seq<string>, candidates: seq<Candidate>, cached: seq<RankedIssue>, enriched: set<string>,
    limit: nat, loads: nat -> Load, i: nat
  ): RankedIssue
    requires i < |candidates| == |names|
  {
    var c := candidates[i];
    assert names[i] in names;
    var leader := FirstAt(names, names[i]);
    var kept := Kept(env, cached, c);
    if i < limit && names[i] !in enriched && loads(leader).Detail? then
      (if i == leader then loads(leader).item else env.share(c, loads(leader).item))
    else if kept.Some? then kept.value
    else env.fallback(c, i < limit && names[i] !in enriched)
  }

  function Rows(
    env: Evaluators, names: seq<string>, candidates: seq<Candidate>, cached: seq<RankedIssue>, enriched: set<string>,
    limit: nat, loads: nat -> Load
  ): (rows: seq<RankedIssue>)
    requires |candidates| == |names|
    ensures |rows| == |candidates|
    ensures forall i :: 0 <= i < |rows| ==> rows[i] == Row(env, names, candidates, cached, enriched, limit, loads, i)
  {
    seq(|candidates|, i requires 0 <= i < |candidates| =>
      Row(env, names, candidates, cached, enriched, limit, loads, i))
  }

  // ----- specification: the books -----

  /** The counters of an entry and the repositories it has inspected. */
  datatype Ledger = Ledger(keys: set<string>, attempted: nat, failed: nat) {
    /** Every attempt either enriched a repository of its own or failed. */
    predicate Balanced() {
      attempted == |keys| + failed
    }
  }

  function LedgerOf(e: Entry): Ledger {
    Ledger((set key | key in e.enrichedKeys), e.attempted, e.failed)
  }

  function Loaded(names: seq<string>, leaders: seq<nat>, loads: nat -> Load): set<string>
    requires forall i :: i in leaders ==> i < |names|
  {
    set i | i in leaders && loads(i).Detail? :: names[i]
  }

  function Failures(leaders: seq<nat>, loads: nat -> Load): nat {
    |Filter(i => loads(i).NoDetail?, leaders)|
  }

  /** The ledger after inspecting the leaders of the first limit positions. */
  function Charge(l: Ledger, names: seq<string>, limit: nat, loads: nat -> Load): Ledger
    requires limit <= |names|
  {
    var leaders := Leaders(names, l.keys, limit);
    Ledger(l.keys + Loaded(names, leaders, loads), l.attempted + |leaders|, l.failed + Failures(leaders, loads))
  }

  function Required(names: seq<string>, limit: nat): set<string>
    requires limit <= |names|
  {
    set i | 0 <= i < limit :: names[i]
  }

  /** What the compatibility branch takes for an entry written before enriched keys were recorded. */
  predicate LegacyEntry(l: Ledger, names: seq<string>, limit: nat)
    requires limit <= |names|
  {
    |l.keys| == 0 && l.failed == 0 && l.attempted >= |Required(names, limit)|
  }

  /** A cached ranking serves a request as it is. */
  predicate Enough(l: Ledger, names: seq<string>, limit: nat)
    requires limit <= |names|
  {
    limit == 0 || LegacyEntry(l, names, limit) || Required(names, limit) <= l.keys
  }

  lemma EnoughInFields(names: seq<string>, entry: Entry, limit: nat)
    requires limit <= |names|
    ensures Enough(LedgerOf(entry), names, limit) <==>
      || limit == 0
      || (entry.enrichedKeys == [] && entry.failed == 0 && entry.attempted >= |set i | 0 <= i < limit :: names[i]|)
      || forall i :: 0 <= i < limit ==> names[i] in entry.enrichedKeys
  {
    var keys := LedgerOf(entry).keys;
    if entry.enrichedKeys == [] {
      assert keys == {};
    } else {
      assert entry.enrichedKeys[0] in keys;
    }
    if Required(names, limit) <= keys {
      forall i | 0 <= i < limit ensures names[i] in keys { assert names[i] in Required(names, limit); }
    }
  }

  // ----- the code -----

  method HasEnrichmentFor(hasRecommender: bool, names: seq<string>, entry: Entry, limit: nat) returns (enough: bool)
    requires limit <= |names|
    ensures enough <==> !hasRecommender || Enough(LedgerOf(entry), names, limit)
    ensures enough <==>
      || !hasRecommender || limit == 0
      || (entry.enrichedKeys == [] && entry.failed == 0 && entry.attempted >= |set i | 0 <= i < limit :: names[i]|)
      || forall i :: 0 <= i < limit ==> names[i] in entry.enrichedKeys
  {
    EnoughInFields(names, entry, limit);
    if !hasRecommender || limit == 0 {
      return true;
    }
    var enriched: set<string> := {};
    for i := 0 to |entry.enrichedKeys|
      invariant enriched == set key | key in entry.enrichedKeys[..i]
    {
      assert entry.enrichedKeys[..i + 1] == entry.enrichedKeys[..i] + [entry.enrichedKeys[i]];
      enriched := enriched + {entry.enrichedKeys[i]};
    }
    assert entry.enrichedKeys[..|entry.enrichedKeys|] == entry.enrichedKeys;
    var required: set<string> := {};
    for i := 0 to limit
      invariant required == Required(names, i)
    {
      required := required + {names[i]};
    }
    if |enriched| == 0 && entry.failed == 0 && entry.attempted >= |required| {
      return true;
    }
    var rest := required;
    while rest != {}
      invariant rest <= required && required - rest <= enriched
    {
      var key :| key in rest;
      if key !in enriched {
        return false;
      }
      rest := rest - {key};
    }
    return true;
  }

  method SortedKeys(keys: set<string>) returns (sorted: seq<string>)
    ensures keys == set key | key in sorted
    ensures forall i, j :: 0 <= i < j < |sorted| ==> sorted[i] != sorted[j]
    ensures Sorted((x, y) => CompareStrings(x, y), sorted)
  {
    var order := (x, y) => CompareStrings(x, y);
    var rest, listed: seq<string> := keys, [];
    while rest != {}
      invariant rest !! (set key | key in listed) && keys == rest + set key | key in listed
      invariant Distinct(listed)
    {
      var key :| key in rest;
      rest, listed := rest - {key}, listed + [key];
    }
    sorted := StableSort(order, listed);
    StringOrderIsTotal();
    SortSorted(order, listed);
    SortMembers(order, listed);
    SameMultisetDistinct(listed, sorted);
    forall key ensures key in sorted <==> key in listed {
      assert key in multiset(sorted) <==> key in multiset(listed);
    }
  }

  lemma StringOrderIsTotal()
    ensures TotalPreorder((x, y) => CompareStrings(x, y))
  {
    var order := (x, y) => CompareStrings(x, y);
    forall x, y ensures order(x, y) < 0 <==> order(y, x) > 0 { CompareStringsLaws(x, y, []); }
    forall x, y, z ensures Chains(order, x, y, z) { CompareStringsLaws(x, y, z); }
  }

  lemma SameMultisetDistinct(s: seq<string>, t: seq<string>)
    requires multiset(s) == multiset(t) && Distinct(s)
    ensures Distinct(t)
  {
    forall i, j | 0 <= i < j < |t| ensures t[i] != t[j] {
      if t[i] == t[j] {
        assert t == t[..i] + [t[i]] + t[i + 1..j] + [t[j]] + t[j + 1..];
        assert multiset(t)[t[i]] >= 2;
        CountInDistinct(s, t[i]);
      }
    }
  }

  lemma {:induction false} CountInDistinct(s: seq<string>, x: string)
    requires Distinct(s)
    ensures multiset(s)[x] <= 1
  {
    if s != [] {
      CountInDistinct(s[1..], x);
      assert s == [s[0]] + s[1..];
      if s[0] == x { assert x !in s[1..]; }
    }
  }

  /** cancelled says that the group of loads ended with the request's cancellation. */
  method RecommendCandidates(
    env: Evaluators, candidates: seq<Candidate>, limit: nat, existing: Entry, loads: nat -> Load, cancelled: bool
  ) returns (r: Option<Entry>, inspected: seq<nat>)
    requires limit <= |candidates|
    ensures inspected == Leaders(Names(env, candidates), LedgerOf(existing).keys, limit)
    ensures r.Some? <==> !cancelled
    ensures r.Some? ==>
      && r.value.ranked == Ranking.RankIssues(
           env.lower,
           Rows(env, Names(env, candidates), candidates, existing.ranked, LedgerOf(existing).keys, limit, loads))
      && LedgerOf(r.value) == Charge(LedgerOf(existing), Names(env, candidates), limit, loads)
      && Distinct(r.value.enrichedKeys)
      && r.value.incomplete == (existing.incomplete
                                || AnyIncomplete(inspected, loads))
      && EarnedEntry(env, candidates, existing, limit, loads, inspected, r.value)
    ensures LeadsInFields(env, candidates, existing, limit, inspected)
  {
    var names := Names(env, candidates);
    var enriched := set key | key in existing.enrichedKeys;
    var leaderFor;
    leaderFor, inspected := ElectLeaders(names, enriched, limit);
    InspectedInFields(env, candidates, existing, limit);
    if cancelled {
      return None, inspected;
    }
    var enrichedNow := RecordLoaded(names, inspected, enriched, loads);
    var enrichedKeys := SortedKeys(enrichedNow);
    var ranked, failed, incomplete := Assemble(env, names, candidates, existing, enriched, limit, loads, leaderFor);
    var entry := Entry(
      Ranking.RankIssues(env.lower, ranked), existing.attempted + |inspected|, failed, incomplete, enrichedKeys);
    EntryIsEarned(env, candidates, existing, limit, loads, entry);
    r := Some(entry);
  }

  // ----- what the result is, in the fields -----

  predicate SameRepository(env: Evaluators, c: Candidate, d: Candidate) {
    env.lower(c.repository.owner + "/" + c.repository.name) == env.lower(d.repository.owner + "/" + d.repository.name)
  }

  predicate SameIssue(env: Evaluators, c: Candidate, d: Candidate) {
    env.lower(c.repository.owner + "/" + c.repository.name) + "#" + env.itoa(c.issue.number)
    == env.lower(d.repository.owner + "/" + d.repository.name) + "#" + env.itoa(d.issue.number)
  }

  predicate EnrichedBefore(env: Evaluators, existing: Entry, c: Candidate) {
    env.lower(c.repository.owner + "/" + c.repository.name) in existing.enrichedKeys
  }

  /** Exactly the first required position of every repository that was not enriched before, once each and in order. */
  ghost predicate LeadsInFields(
    env: Evaluators, candidates: seq<Candidate>, existing: Entry, limit: nat, inspected: seq<nat>)
    requires limit <= |candidates|
  {
    && (forall j: nat :: j in inspected <==>
          && j < limit && !EnrichedBefore(env, existing, candidates[j])
          && forall k :: 0 <= k < j ==> !SameRepository(env, candidates[k], candidates[j]))
    && InOrder(inspected)
  }

  /** The detailed evaluation whose evidence position i shares. */
  ghost predicate Shares(
    env: Evaluators, candidates: seq<Candidate>, limit: nat, loads: nat -> Load, inspected: seq<nat>, i: nat, j: nat)
    requires i < |candidates|
  {
    && i < limit && j in inspected && j < |candidates| && SameRepository(env, candidates[j], candidates[i])
    && loads(j).Detail?
  }

  /** Where the cached evaluation of a candidate is: the last one for the issue, when it has a number. */
  ghost predicate CachedAt(env: Evaluators, cached: seq<RankedIssue>, c: Candidate, k: nat) {
    && k < |cached| && SameIssue(env, cached[k].candidate, c) && cached[k].candidate.issue.number != 0
    && forall m :: k < m < |cached| ==> !SameIssue(env, cached[m].candidate, c)
  }

  /** What a candidate gets: the item that was loaded for it; or its own evaluation from the evidence of the item
      loaded for its repository; or its cached evaluation; or one from metadata, which says whether a load failed. */
  ghost predicate Earned(
    env: Evaluators, candidates: seq<Candidate>, existing: Entry, limit: nat, loads: nat -> Load, inspected: seq<nat>,
    i: nat, row: RankedIssue)
    requires i < |candidates|
  {
    var c := candidates[i];
    && (i in inspected && loads(i).Detail? ==> row == loads(i).item)
    && (forall j: nat :: j != i && Shares(env, candidates, limit, loads, inspected, i, j) ==>
          row == env.share(c, loads(j).item))
    && ((forall j: nat :: !Shares(env, candidates, limit, loads, inspected, i, j)) ==>
          && (forall k: nat :: CachedAt(env, existing.ranked, c, k) ==> row == existing.ranked[k])
          && ((forall k: nat :: !CachedAt(env, existing.ranked, c, k)) ==>
                row == env.fallback(c, i < limit && !EnrichedBefore(env, existing, c))))
  }

  /** A permutation of one earned row a candidate. */
  ghost predicate EarnedRanking(
    env: Evaluators, candidates: seq<Candidate>, existing: Entry, limit: nat, loads: nat -> Load, inspected: seq<nat>,
    ranked: seq<RankedIssue>)
  {
    exists rows: seq<RankedIssue> ::
      && multiset(rows) == multiset(ranked) && |rows| == |candidates|
      && forall i :: 0 <= i < |rows| ==> Earned(env, candidates, existing, limit, loads, inspected, i, rows[i])
  }

  ghost predicate EarnedEntry(
    env: Evaluators, candidates: seq<Candidate>, existing: Entry, limit: nat, loads: nat -> Load, inspected: seq<nat>,
    entry: Entry)
  {
    && EarnedRanking(env, candidates, existing, limit, loads, inspected, entry.ranked)
    && EarnedBooks(env, candidates, existing, loads, inspected, entry)
  }

  /** Every load is an attempt; it adds its repository to the enriched ones or it failed. A failed or partial load marks
      the entry incomplete. */
  ghost predicate EarnedBooks(
    env: Evaluators, candidates: seq<Candidate>, existing: Entry, loads: nat -> Load, inspected: seq<nat>, entry: Entry)
  {
    && entry.attempted == existing.attempted + |inspected|
    && entry.failed == existing.failed + |Filter(j => loads(j).NoDetail?, inspected)|
    && (entry.incomplete <==>
          existing.incomplete || exists j :: j in inspected && (loads(j).NoDetail? || loads(j).incomplete))
    && (forall c :: EnrichedBefore(env, entry, c) <==>
          || EnrichedBefore(env, existing, c)
          || exists j :: j in inspected && j < |candidates| && loads(j).Detail?
               && SameRepository(env, candidates[j], c))
  }

  ghost predicate InOrder(s: seq<nat>) {
    forall a, b :: 0 <= a < b < |s| ==> s[a] < s[b]
  }

  lemma InOrderSnoc(s: seq<nat>, next: nat)
    requires InOrder(s) && forall i :: i in s ==> i < next
    ensures InOrder(s + [next])
  {
    forall a | 0 <= a < |s| ensures s[a] < next { assert s[a] in s; }
  }

  lemma {:induction false} LeadersAscend(names: seq<string>, enriched: set<string>, limit: nat)
    requires limit <= |names|
    ensures InOrder(Leaders(names, enriched, limit))
  {
    if limit > 0 {
      LeadersAscend(names, enriched, limit - 1);
      InOrderSnoc(Leaders(names, enriched, limit - 1), limit - 1);
    }
  }

  lemma LeadsIff(env: Evaluators, candidates: seq<Candidate>, existing: Entry, j: nat)
    requires j < |candidates|
    ensures Leads(Names(env, candidates), LedgerOf(existing).keys, j) <==>
      && !EnrichedBefore(env, existing, candidates[j])
      && forall k :: 0 <= k < j ==> !SameRepository(env, candidates[k], candidates[j])
  {
    var names := Names(env, candidates);
    forall k | 0 <= k < j ensures names[k] == names[j] <==> SameRepository(env, candidates[k], candidates[j]) { }
  }

  lemma InspectedInFields(env: Evaluators, candidates: seq<Candidate>, existing: Entry, limit: nat)
    requires limit <= |candidates|
    ensures LeadsInFields(env, candidates, existing, limit,
                          Leaders(Names(env, candidates), LedgerOf(existing).keys, limit))
  {
    var names, keys := Names(env, candidates), LedgerOf(existing).keys;
    var leaders := Leaders(names, keys, limit);
    LeadersAscend(names, keys, limit);
    forall j: nat ensures j in leaders <==>
        && j < limit && !EnrichedBefore(env, existing, candidates[j])
        && forall k :: 0 <= k < j ==> !SameRepository(env, candidates[k], candidates[j])
    {
      LeaderMember(names, keys, limit, j);
      if j < limit { LeadsIff(env, candidates, existing, j); }
    }
  }

  lemma {:induction false} KeptAt(env: Evaluators, cached: seq<RankedIssue>, c: Candidate)
    ensures forall k: nat :: CachedAt(env, cached, c, k) ==> Kept(env, cached, c) == Some(cached[k])
    ensures (forall k: nat :: !CachedAt(env, cached, c, k)) ==> Kept(env, cached, c) == None
  {
    if cached != [] {
      var n := |cached| - 1;
      KeptAt(env, cached[..n], c);
      if IssueKey(env, cached[n].candidate) != IssueKey(env, c) {
        forall k: nat ensures CachedAt(env, cached, c, k) <==> CachedAt(env, cached[..n], c, k) { }
      } else {
        assert CachedAt(env, cached, c, n) <==> cached[n].candidate.issue.number != 0;
      }
    }
  }

  lemma RowIsEarned(
    env: Evaluators, candidates: seq<Candidate>, existing: Entry, limit: nat, loads: nat -> Load, i: nat)
    requires limit <= |candidates| && i < |candidates|
    ensures var names, keys := Names(env, candidates), LedgerOf(existing).keys;
      Earned(env, candidates, existing, limit, loads, Leaders(names, keys, limit), i,
             Row(env, names, candidates, existing.ranked, keys, limit, loads, i))
  {
    var names, keys := Names(env, candidates), LedgerOf(existing).keys;
    var inspected := Leaders(names, keys, limit);
    assert names[i] in names;
    var first := FirstAt(names, names[i]);
    KeptAt(env, existing.ranked, candidates[i]);
    LeaderMember(names, keys, limit, i);
    LeaderMember(names, keys, limit, first);
    forall j: nat | Shares(env, candidates, limit, loads, inspected, i, j) ensures j == first {
      LeaderMember(names, keys, limit, j);
      assert names[j] == names[i];
    }
    if i < limit && names[i] !in keys {
      assert first in inspected;
      assert loads(first).Detail? ==> Shares(env, candidates, limit, loads, inspected, i, first);
    }
  }

  lemma RowsAreEarned(
    env: Evaluators, candidates: seq<Candidate>, existing: Entry, limit: nat, loads: nat -> Load)
    requires limit <= |candidates|
    ensures var names, keys := Names(env, candidates), LedgerOf(existing).keys;
      EarnedRanking(env, candidates, existing, limit, loads, Leaders(names, keys, limit),
                    Ranking.RankIssues(env.lower, Rows(env, names, candidates, existing.ranked, keys, limit, loads)))
  {
    var names, keys := Names(env, candidates), LedgerOf(existing).keys;
    var rows := Rows(env, names, candidates, existing.ranked, keys, limit, loads);
    SortMembers(Ranking.RecommendationOrder(env.lower), rows);
    forall i | 0 <= i < |rows|
      ensures Earned(env, candidates, existing, limit, loads, Leaders(names, keys, limit), i, rows[i])
    {
      RowIsEarned(env, candidates, existing, limit, loads, i);
    }
  }

  lemma EntryIsEarned(
    env: Evaluators, candidates: seq<Candidate>, existing: Entry, limit: nat, loads: nat -> Load, entry: Entry)
    requires limit <= |candidates|
    requires LedgerOf(entry) == Charge(LedgerOf(existing), Names(env, candidates), limit, loads)
    requires entry.incomplete == (existing.incomplete || AnyIncomplete(
      Leaders(Names(env, candidates), LedgerOf(existing).keys, limit), loads))
    requires entry.ranked == Ranking.RankIssues(
      env.lower, Rows(env, Names(env, candidates), candidates, existing.ranked, LedgerOf(existing).keys, limit, loads))
    ensures EarnedEntry(env, candidates, existing, limit, loads,
                        Leaders(Names(env, candidates), LedgerOf(existing).keys, limit), entry)
  {
    RowsAreEarned(env, candidates, existing, limit, loads);
    BooksAreEarned(env, candidates, existing, limit, loads, entry);
  }

  lemma BooksAreEarned(
    env: Evaluators, candidates: seq<Candidate>, existing: Entry, limit: nat, loads: nat -> Load, entry: Entry)
    requires limit <= |candidates|
    requires LedgerOf(entry) == Charge(LedgerOf(existing), Names(env, candidates), limit, loads)
    requires entry.incomplete == (existing.incomplete || AnyIncomplete(
      Leaders(Names(env, candidates), LedgerOf(existing).keys, limit), loads))
    ensures EarnedBooks(env, candidates, existing, loads,
                        Leaders(Names(env, candidates), LedgerOf(existing).keys, limit), entry)
  {
    var names := Names(env, candidates);
    var inspected := Leaders(names, LedgerOf(existing).keys, limit);
    forall c
      ensures EnrichedBefore(env, entry, c) <==>
        || EnrichedBefore(env, existing, c)
        || exists j :: j in inspected && j < |candidates| && loads(j).Detail? && SameRepository(env, candidates[j], c)
    {
      var key := RepositoryKey(env, c);
      assert EnrichedBefore(env, entry, c) <==> key in LedgerOf(entry).keys;
      if key in Loaded(names, inspected, loads) {
        var j :| j in inspected && loads(j).Detail? && names[j] == key;
        assert SameRepository(env, candidates[j], c);
      }
      if j :| j in inspected && j < |candidates| && loads(j).Detail? && SameRepository(env, candidates[j], c) {
        assert names[j] == key;
      }
    }
  }

  function Least(x: nat, y: nat): nat {
    if x < y then x else y
  }

  lemma LeadersStep(names: seq<string>, enriched: set<string>, i: nat, limit: nat)
    requires i < |names| && limit <= |names|
    ensures Leaders(names, enriched, Least(i + 1, limit))
         == Leaders(names, enriched, Least(i, limit)) + if i < limit && Leads(names, enriched, i) then [i] else []
  {
    if i >= limit {
      var before := Leaders(names, enriched, limit);
      assert before + [] == before;
    }
  }

  lemma BooksSnoc(leaders: seq<nat>, i: nat, loads: nat -> Load)
    ensures Failures(leaders + [i], loads) == Failures(leaders, loads) + if loads(i).NoDetail? then 1 else 0
    ensures AnyIncomplete(leaders + [i], loads) <==> AnyIncomplete(leaders, loads) || Falls(loads(i))
  {
    FilterConcat(k => loads(k).NoDetail?, leaders, [i]);
    if Falls(loads(i)) { assert i in leaders + [i]; }
    if AnyIncomplete(leaders, loads) {
      var k :| k in leaders && Falls(loads(k));
      assert k in leaders + [i];
    }
  }

  /** What position i adds to the books: its own load when it leads, nothing new when it follows. */
  lemma BooksStep(names: seq<string>, enriched: set<string>, i: nat, limit: nat, leader: int, loads: nat -> Load)
    requires i < |names| && limit <= |names|
    requires if i < limit then SpeaksFor(names, enriched, leader, i) else leader == -1
    ensures var before := Leaders(names, enriched, Least(i, limit));
            var after := Leaders(names, enriched, Least(i + 1, limit));
            && Failures(after, loads)
               == Failures(before, loads) + (if leader == i && loads(i).NoDetail? then 1 else 0)
            && (AnyIncomplete(after, loads)
                <==> || AnyIncomplete(before, loads)
                     || (leader >= 0 && (leader == i || loads(leader).Detail?) && Falls(loads(leader))))
  {
    var before := Leaders(names, enriched, Least(i, limit));
    LeadersStep(names, enriched, i, limit);
    if i < limit { SpeakerIsFirst(names, enriched, leader, i); }
    if leader == i {
      BooksSnoc(before, i, loads);
    } else {
      assert before + [] == before;
      if leader >= 0 { LeaderMember(names, enriched, i, leader); }
    }
  }

  function Lookup(m: map<string, RankedIssue>, key: string): Option<RankedIssue> {
    if key in m && m[key].candidate.issue.number != 0 then Some(m[key]) else None
  }

  method CachedByIssue(env: Evaluators, cached: seq<RankedIssue>) returns (m: map<string, RankedIssue>)
    ensures forall c :: Kept(env, cached, c) == Lookup(m, IssueKey(env, c))
  {
    m := map[];
    for i := 0 to |cached|
      invariant forall c :: Kept(env, cached[..i], c) == Lookup(m, IssueKey(env, c))
    {
      assert cached[..i + 1][..i] == cached[..i];
      m := m[IssueKey(env, cached[i].candidate) := cached[i]];
    }
    assert cached[..|cached|] == cached;
  }

  method RecordLoaded(names: seq<string>, leaders: seq<nat>, enriched: set<string>, loads: nat -> Load)
    returns (keys: set<string>)
    requires forall i :: i in leaders ==> i < |names|
    ensures keys == enriched + Loaded(names, leaders, loads)
  {
    keys := enriched;
    for k := 0 to |leaders|
      invariant forall i :: i in leaders[..k] ==> i < |names|
      invariant keys == enriched + Loaded(names, leaders[..k], loads)
    {
      assert leaders[..k + 1] == leaders[..k] + [leaders[k]];
      assert leaders[k] in leaders;
      if loads(leaders[k]).Detail? {
        keys := keys + {names[leaders[k]]};
      }
    }
    assert leaders[..|leaders|] == leaders;
  }

  /** leader speaks for position i of a list whose enriched repositories are known. */
  ghost predicate SpeaksFor(names: seq<string>, enriched: set<string>, leader: int, i: nat)
    requires i < |names|
  {
    if names[i] in enriched then leader == -1
    else 0 <= leader <= i && names[leader] == names[i] && Leads(names, enriched, leader)
  }

  lemma SpeakerIsFirst(names: seq<string>, enriched: set<string>, leader: int, i: nat)
    requires i < |names| && SpeaksFor(names, enriched, leader, i)
    ensures names[i] in names
    ensures names[i] !in enriched ==> leader == FirstAt(names, names[i])
    ensures leader == i <==> Leads(names, enriched, i)
  {
    assert names[i] in names;
    var first := FirstAt(names, names[i]);
    assert names[first] == names[i];
  }

  method ElectLeaders(names: seq<string>, enriched: set<string>, limit: nat)
    returns (leaderFor: seq<int>, leaders: seq<nat>)
    requires limit <= |names|
    ensures leaders == Leaders(names, enriched, limit)
    ensures |leaderFor| == limit
    ensures forall i :: 0 <= i < limit ==> SpeaksFor(names, enriched, leaderFor[i], i)
  {
    leaderFor, leaders := [], [];
    var leaderByRepository: map<string, nat> := map[];
    for i := 0 to limit
      invariant leaders == Leaders(names, enriched, i)
      invariant |leaderFor| == i
      invariant forall k :: 0 <= k < i ==> SpeaksFor(names, enriched, leaderFor[k], k)
      invariant forall k :: 0 <= k < i && names[k] !in enriched ==> names[k] in leaderByRepository
      invariant forall name :: name in leaderByRepository ==>
        leaderByRepository[name] < i && names[leaderByRepository[name]] == name
        && Leads(names, enriched, leaderByRepository[name])
    {
      var name := names[i];
      if name in enriched {
        leaderFor := leaderFor + [-1];
      } else if name in leaderByRepository {
        leaderFor := leaderFor + [leaderByRepository[name]];
      } else {
        leaderByRepository := leaderByRepository[name := i];
        leaderFor := leaderFor + [i];
        leaders := leaders + [i];
      }
    }
  }

  ghost predicate AnyIncomplete(leaders: seq<nat>, loads: nat -> Load) {
    exists i :: i in leaders && Falls(loads(i))
  }

  predicate Falls(load: Load) {
    load.NoDetail? || load.incomplete
  }

  /** The last loop: one row for every candidate. */
  method Assemble(
    env: Evaluators, names: seq<string>, candidates: seq<Candidate>, existing: Entry, ghost enriched: set<string>,
    limit: nat, loads: nat -> Load, leaderFor: seq<int>
  ) returns (ranked: seq<RankedIssue>, failed: nat, incomplete: bool)
    requires limit <= |candidates| == |names| && |leaderFor| == limit
    requires forall i :: 0 <= i < limit ==> SpeaksFor(names, enriched, leaderFor[i], i)
    ensures ranked == Rows(env, names, candidates, existing.ranked, enriched, limit, loads)
    ensures failed == existing.failed + Failures(Leaders(names, enriched, limit), loads)
    ensures incomplete == (existing.incomplete || AnyIncomplete(Leaders(names, enriched, limit), loads))
  {
    var cached := CachedByIssue(env, existing.ranked);
    ghost var rows := Rows(env, names, candidates, existing.ranked, enriched, limit, loads);
    ghost var leaders: seq<nat> := [];
    ranked, failed, incomplete := [], existing.failed, existing.incomplete;
    for i := 0 to |candidates|
      invariant ranked == rows[..i]
      invariant leaders == Leaders(names, enriched, Least(i, limit))
      invariant failed == existing.failed + Failures(leaders, loads)
      invariant incomplete == (existing.incomplete || AnyIncomplete(leaders, loads))
    {
      var leader := if i < limit then leaderFor[i] else -1;
      BooksStep(names, enriched, i, limit, leader, loads);
      leaders := Leaders(names, enriched, Least(i + 1, limit));
      var row := ChooseRow(env, names, candidates, i, limit, leader, loads, cached, existing.ranked, enriched);
      ranked := ranked + [row];
      failed, incomplete := UpdateBooks(i, leader, loads, failed, incomplete);
    }
  }

  method UpdateBooks(i: nat, leader: int, loads: nat -> Load, failedSoFar: nat, incompleteSoFar: bool)
    returns (failed: nat, incomplete: bool)
    requires leader <= i
    ensures failed == failedSoFar + if leader == i && loads(i).NoDetail? then 1 else 0
    ensures incomplete == (incompleteSoFar
      || (leader >= 0 && (leader == i || loads(leader).Detail?) && Falls(loads(leader))))
  {
    failed, incomplete := failedSoFar, incompleteSoFar;
    if leader >= 0 {
      if loads(leader).Detail? {
        incomplete := incomplete || loads(leader).incomplete;
      } else if i == leader {
        failed := failed + 1;
        incomplete := true;
      }
    }
  }

  method ChooseRow(
    env: Evaluators, ghost names: seq<string>, candidates: seq<Candidate>, i: nat, limit: nat, leader: int,
    loads: nat -> Load, cached: map<string, RankedIssue>, ghost listed: seq<RankedIssue>, ghost enriched: set<string>
  ) returns (row: RankedIssue)
    requires i < |candidates| == |names|
    requires i < limit ==> SpeaksFor(names, enriched, leader, i)
    requires forall c :: Kept(env, listed, c) == Lookup(cached, IssueKey(env, c))
    ensures row == Row(env, names, candidates, listed, enriched, limit, loads, i)
  {
    var c := candidates[i];
    var kept := Lookup(cached, IssueKey(env, c));
    if i < limit {
      SpeakerIsFirst(names, enriched, leader, i);
      if leader < 0 {
        return if kept.Some? then kept.value else env.fallback(c, false);
      }
      if loads(leader).Detail? {
        return if i == leader then loads(leader).item else env.share(c, loads(leader).item);
      }
    }
    return if kept.Some? then kept.value else env.fallback(c, i < limit);
  }

  // ----- main results -----

  /** At most one detail load a repository, none for an enriched one, and every repository that is asked for is
      either known or inspected. */
  lemma InspectionIsMinimal(names: seq<string>, enriched: set<string>, limit: nat)
    requires limit <= |names|
    ensures var leaders := Leaders(names, enriched, limit);
            && (forall i, j :: i in leaders && j in leaders && names[i] == names[j] ==> i == j)
            && (forall i :: i in leaders ==> names[i] !in enriched)
            && (forall i :: 0 <= i < limit && names[i] !in enriched ==>
                  exists j :: j in leaders && names[j] == names[i])
  {
    var leaders := Leaders(names, enriched, limit);
    forall i: nat ensures i in leaders <==> i < limit && Leads(names, enriched, i) {
      LeaderMember(names, enriched, limit, i);
    }
    forall i | 0 <= i < limit && names[i] !in enriched
      ensures exists j :: j in leaders && names[j] == names[i]
    {
      assert names[i] in names;
      var first := FirstAt(names, names[i]);
      assert Leads(names, enriched, first);
      assert first in leaders;
    }
  }

  lemma LoadedSnoc(names: seq<string>, leaders: seq<nat>, i: nat, loads: nat -> Load)
    requires i < |names| && forall k :: k in leaders ==> k < |names|
    ensures forall k :: k in leaders + [i] ==> k < |names|
    ensures Loaded(names, leaders + [i], loads)
         == Loaded(names, leaders, loads) + if loads(i).Detail? then {names[i]} else {}
  {
  }

  lemma BalanceSnoc(names: seq<string>, enriched: set<string>, before: seq<nat>, i: nat, loads: nat -> Load)
    requires i < |names| && forall k :: k in before ==> k < |names|
    requires names[i] !in enriched + Loaded(names, before, loads)
    requires |enriched + Loaded(names, before, loads)| + Failures(before, loads) == |enriched| + |before|
    ensures forall k :: k in before + [i] ==> k < |names|
    ensures |enriched + Loaded(names, before + [i], loads)| + Failures(before + [i], loads)
         == |enriched| + |before + [i]|
  {
    BooksSnoc(before, i, loads);
    LoadedSnoc(names, before, i, loads);
    var known := enriched + Loaded(names, before, loads);
    assert enriched + Loaded(names, before + [i], loads) == known + if loads(i).Detail? then {names[i]} else {};
  }

  lemma {:induction false} LeadersBalance(names: seq<string>, enriched: set<string>, limit: nat, loads: nat -> Load)
    requires limit <= |names|
    ensures var leaders := Leaders(names, enriched, limit);
            |enriched + Loaded(names, leaders, loads)| + Failures(leaders, loads) == |enriched| + |leaders|
  {
    if limit == 0 {
      assert enriched + Loaded(names, [], loads) == enriched;
    } else {
      var i := limit - 1;
      var before := Leaders(names, enriched, i);
      LeadersBalance(names, enriched, i, loads);
      if Leads(names, enriched, i) {
        assert names[i] !in Loaded(names, before, loads);
        BalanceSnoc(names, enriched, before, i, loads);
      } else {
        assert Leaders(names, enriched, limit) == before;
      }
    }
  }

  /** Conservation: charging a balanced ledger gives a balanced ledger. */
  lemma ChargeKeepsBalance(l: Ledger, names: seq<string>, limit: nat, loads: nat -> Load)
    requires limit <= |names| && l.Balanced()
    ensures Charge(l, names, limit, loads).Balanced()
  {
    LeadersBalance(names, l.keys, limit, loads);
  }
}
