/** Single-use OAuth authorization states: the table, the calls that save and consume a state, and whole runs of them.
    A digest stands for the credential it was computed from; each statement is one atomic step. */
module OAuthStates {
  import opened Options
  import opened Sets

  type Digest = nat
  const ZERO_DIGEST: Digest := 0

  type Path = string

  const HOUR := 3600

  datatype Row = Row(path: Path, expiresAt: int, createdAt: int, consumedAt: Option<int>)

  type Table = map<Digest, Row>

  datatype Draft = Draft(hash: Digest, path: Path, expiresAt: int, createdAt: int)

  // ----- statements -----

  predicate StaleRow(row: Row, now: int) {
    row.expiresAt <= now || (row.consumedAt.Some? && row.consumedAt.value <= now - HOUR)
  }

  const PRUNING_BATCH := 100

  function StaleUnlocked(t: Table, locked: set<Digest>, now: int): set<Digest> {
    set h | h in t && h !in locked && StaleRow(t[h], now)
  }

  /** ORDER BY created_at LIMIT 100 FOR UPDATE SKIP LOCKED: the oldest stale rows that nobody has locked. */
  ghost predicate Batch(t: Table, locked: set<Digest>, picked: set<Digest>, now: int) {
    var stale := StaleUnlocked(t, locked, now);
    && picked <= stale
    && |picked| == (if |stale| < PRUNING_BATCH then |stale| else PRUNING_BATCH)
    && forall x, y :: x in picked && y in stale - picked ==> t[x].createdAt <= t[y].createdAt
  }

  /** The stale rows among those picked. */
  function Pruned(t: Table, picked: set<Digest>, now: int): set<Digest> {
    set h | h in picked && h in t && StaleRow(t[h], now)
  }

  /** Expired, or consumed an hour ago, and not locked by anybody else. */
  predicate Sweepable(t: Table, locked: set<Digest>, h: Digest, now: int) {
    && h in t && h !in locked
    && (now >= t[h].expiresAt || (t[h].consumedAt.Some? && now - t[h].consumedAt.value >= 3_600))
  }

  predicate Accepts(t: Table, d: Draft) {
    d.hash != ZERO_DIGEST && d.expiresAt > d.createdAt && d.hash !in t
  }

  function Saved(t: Table, d: Draft, picked: set<Digest>): Table {
    (t - Pruned(t, picked, d.createdAt))[d.hash := Row(d.path, d.expiresAt, d.createdAt, None)]
  }

  lemma SweepableIff(t: Table, locked: set<Digest>, h: Digest, now: int)
    ensures h in StaleUnlocked(t, locked, now) <==> Sweepable(t, locked, h, now)
  {
  }

  /** The batch a save picks: of the sweepable rows the hundred oldest, or all when there are fewer. */
  lemma BatchIsOldest(t: Table, locked: set<Digest>, picked: set<Digest>, now: int, sweepable: set<Digest>)
    requires Batch(t, locked, picked, now) && forall h :: h in sweepable <==> Sweepable(t, locked, h, now)
    ensures picked <= sweepable
    ensures if |sweepable| <= 100 then picked == sweepable else |picked| == 100
    ensures picked <= t.Keys
    ensures forall x, y :: x in picked && Sweepable(t, locked, y, now) && y !in picked ==>
      t[x].createdAt <= t[y].createdAt
  {
    forall h ensures h in sweepable <==> h in StaleUnlocked(t, locked, now) { SweepableIff(t, locked, h, now); }
    assert sweepable == StaleUnlocked(t, locked, now);
    if |sweepable| <= 100 { SubsetOfSameSize(picked, sweepable); }
  }

  lemma SubsetOfSameSize(a: set<Digest>, b: set<Digest>)
    requires a <= b && |a| == |b|
    ensures a == b
  {
    assert b == a + (b - a);
    assert |b - a| == 0;
  }

  /** A save adds its row, takes exactly the picked ones out, and leaves every other row alone. */
  lemma SaveInRows(t: Table, d: Draft, locked: set<Digest>, picked: set<Digest>)
    requires Accepts(t, d) && Batch(t, locked, picked, d.createdAt)
    ensures var after := Saved(t, d, picked);
      && (forall h :: h in after <==> h == d.hash || (h in t && h !in picked))
      && (forall h :: h in t && h !in picked ==> after[h] == t[h])
      && after[d.hash] == Row(d.path, d.expiresAt, d.createdAt, None)
  {
    forall h | h in picked ensures Sweepable(t, locked, h, d.createdAt) { SweepableIff(t, locked, h, d.createdAt); }
  }

  predicate Consumable(t: Table, hash: Digest, now: int) {
    hash in t && t[hash].consumedAt.None? && now < t[hash].expiresAt
  }

  function Consumed(t: Table, hash: Digest, now: int): Table
    requires hash in t
  {
    t[hash := t[hash].(consumedAt := Some(now))]
  }

  /** What a statement can meet: it runs and answers, it runs but the answer is lost, it never runs. */
  datatype Fault = Answered | ReplyLost | NotReached

  datatype Consumption = Found(path: Path) | NotFound | QueryFailed

  class StateRepository {
    var rows: Table

    constructor ()
      ensures rows == map[]
    {
      rows := map[];
    }

    method OldestOf(hashes: set<Digest>) returns (oldest: Digest)
      requires hashes != {} && hashes <= rows.Keys
      ensures oldest in hashes && forall h :: h in hashes ==> rows[oldest].createdAt <= rows[h].createdAt
    {
      SomeMember(hashes);
      oldest :| oldest in hashes;
      var rest := hashes - {oldest};
      while rest != {}
        invariant rest <= hashes && oldest in hashes
        invariant forall h :: h in hashes && h !in rest ==> rows[oldest].createdAt <= rows[h].createdAt
        decreases rest
      {
        SomeMember(rest);
        var h :| h in rest;
        if rows[h].createdAt < rows[oldest].createdAt { oldest := h; }
        rest := rest - {h};
      }
    }

    method PickBatch(locked: set<Digest>, now: int) returns (picked: set<Digest>)
      ensures Batch(rows, locked, picked, now)
    {
      var rest := StaleUnlocked(rows, locked, now);
      ghost var stale := rest;
      picked := {};
      while |picked| < PRUNING_BATCH && rest != {}
        invariant picked + rest == stale && picked !! rest && |picked| <= PRUNING_BATCH
        invariant forall x, y :: x in picked && y in rest ==> rows[x].createdAt <= rows[y].createdAt
        decreases rest
      {
        var oldest := OldestOf(rest);
        picked := picked + {oldest};
        rest := rest - {oldest};
      }
      assert |stale| == |picked| + |rest|;
      assert stale - picked == rest;
    }

    /** SaveAuthorizationState with an id and a path that are well formed. */
    method Save(d: Draft, locked: set<Digest>, fault: Fault) returns (ok: bool, picked: set<Digest>)
      modifies this
      ensures Accepts(old(rows), d) && !fault.NotReached? ==> Batch(old(rows), locked, picked, d.createdAt)
      ensures rows == if Accepts(old(rows), d) && !fault.NotReached? then Saved(old(rows), d, picked) else old(rows)
      ensures ok <==> Accepts(old(rows), d) && fault.Answered?
    {
      if d.hash == ZERO_DIGEST || d.expiresAt <= d.createdAt { return false, {}; }
      if fault.NotReached? || d.hash in rows { return false, {}; }
      picked := PickBatch(locked, d.createdAt);
      rows := rows - Pruned(rows, picked, d.createdAt);
      rows := rows[d.hash := Row(d.path, d.expiresAt, d.createdAt, None)];
      return fault.Answered?, picked;
    }

    /** ConsumeAuthorizationState: a row cannot be consumed before it was created, the statement fails then. */
    method Consume(hash: Digest, now: int, fault: Fault) returns (r: Consumption)
      modifies this
      ensures r == ConsumptionOf(old(rows), hash, now, fault)
      ensures rows == AfterConsume(old(rows), hash, now, fault)
    {
      if fault.NotReached? { return QueryFailed; }
      if hash !in rows || rows[hash].consumedAt.Some? || rows[hash].expiresAt <= now {
        return if fault.Answered? then NotFound else QueryFailed;
      }
      if now < rows[hash].createdAt { return QueryFailed; }
      r := if fault.Answered? then Found(rows[hash].path) else QueryFailed;
      rows := rows[hash := rows[hash].(consumedAt := Some(now))];
    }
  }

  predicate Consumes(t: Table, hash: Digest, now: int, fault: Fault) {
    Consumable(t, hash, now) && t[hash].createdAt <= now && !fault.NotReached?
  }

  function AfterConsume(t: Table, hash: Digest, now: int, fault: Fault): Table {
    if Consumes(t, hash, now, fault) then Consumed(t, hash, now) else t
  }

  function ConsumptionOf(t: Table, hash: Digest, now: int, fault: Fault): Consumption {
    if !fault.Answered? then QueryFailed
    else if !Consumable(t, hash, now) then NotFound
    else if now < t[hash].createdAt then QueryFailed
    else Found(t[hash].path)
  }

  // ----- the service -----

  datatype Call =
    | Start(hash: Digest, returnPath: Path, now: int, ttl: int, picked: set<Digest>, fault: Fault)
    | Complete(hash: Digest, wellFormed: bool, returnPath: Path, now: int, fault: Fault)
    | Deny(hash: Digest, wellFormed: bool, returnPath: Path, now: int, fault: Fault)

  datatype Answer = Started(path: Path) | Exchanged | Returned(path: Path) | Invalid | Unavailable

  /** What a call did: whether it saved or consumed its state, and whether it went on to exchange the code. */
  datatype Effect = Effect(saved: bool, consumed: bool, exchanged: bool, answer: Answer)

  /** ValidateReturnPath. */
  type Validator = Path -> Option<Path>

  function DraftOf(call: Call, path: Path): Draft
    requires call.Start?
  {
    Draft(call.hash, path, call.now + call.ttl, call.now)
  }

  /** consumeState: a path that does not match is reported after the state has been spent. */
  function StateAnswer(valid: Validator, t: Table, call: Call): Answer
    requires !call.Start?
  {
    if !call.wellFormed || valid(call.returnPath).None? then Invalid
    else
      match ConsumptionOf(t, call.hash, call.now, call.fault)
      case NotFound => Invalid
      case QueryFailed => Unavailable
      case Found(path) => if path == valid(call.returnPath).value then Returned(path) else Invalid
  }

  predicate Spends(valid: Validator, t: Table, call: Call) {
    && !call.Start? && call.wellFormed && valid(call.returnPath).Some?
    && Consumes(t, call.hash, call.now, call.fault)
  }

  predicate Stores(valid: Validator, t: Table, call: Call) {
    && call.Start? && valid(call.returnPath).Some? && !call.fault.NotReached?
    && Accepts(t, DraftOf(call, valid(call.returnPath).value))
  }

  function StartAnswer(valid: Validator, t: Table, call: Call): Answer
    requires call.Start?
  {
    if valid(call.returnPath).None? then Invalid
    else if Stores(valid, t, call) && call.fault.Answered? then Started(valid(call.returnPath).value)
    else Unavailable
  }

  function EffectOf(valid: Validator, t: Table, call: Call): Effect {
    if call.Start? then Effect(Stores(valid, t, call), false, false, StartAnswer(valid, t, call))
    else
      var answer := StateAnswer(valid, t, call);
      var exchanged := call.Complete? && answer.Returned?;
      Effect(false, Spends(valid, t, call), exchanged, if exchanged then Exchanged else answer)
  }

  function TableAfter(valid: Validator, t: Table, call: Call): Table {
    if Stores(valid, t, call) then Saved(t, DraftOf(call, valid(call.returnPath).value), call.picked)
    else if Spends(valid, t, call) then Consumed(t, call.hash, call.now)
    else t
  }

  class Authentication {
    const repository: StateRepository
    const validate: Validator
    /** How many codes went to GitHub. */
    var exchanges: nat

    constructor (repository: StateRepository, validate: Validator)
      ensures this.repository == repository && this.validate == validate && exchanges == 0
    {
      this.repository, this.validate, exchanges := repository, validate, 0;
    }

    /** A start is a call of a run whose picked rows are the batch the database takes. */
    method Start(call: Call, locked: set<Digest>) returns (answer: Answer, picked: set<Digest>)
      requires call.Start?
      modifies repository
      ensures Stores(validate, old(repository.rows), call) ==> Batch(old(repository.rows), locked, picked, call.now)
      ensures repository.rows == TableAfter(validate, old(repository.rows), call.(picked := picked))
      ensures answer == EffectOf(validate, old(repository.rows), call.(picked := picked)).answer
    {
      var path := validate(call.returnPath);
      if path.None? { return Invalid, {}; }
      var ok;
      ok, picked := repository.Save(Draft(call.hash, path.value, call.now + call.ttl, call.now), locked, call.fault);
      return if ok then Started(path.value) else Unavailable, picked;
    }

    method ConsumeState(call: Call) returns (answer: Answer)
      requires !call.Start? && call.wellFormed
      modifies repository
      ensures repository.rows == TableAfter(validate, old(repository.rows), call)
      ensures answer == StateAnswer(validate, old(repository.rows), call)
    {
      var path := validate(call.returnPath);
      if path.None? { return Invalid; }
      var found := repository.Consume(call.hash, call.now, call.fault);
      match found
      case NotFound => return Invalid;
      case QueryFailed => return Unavailable;
      case Found(saved) => return if saved == path.value then Returned(saved) else Invalid;
    }

    method Complete(call: Call) returns (answer: Answer)
      requires call.Complete?
      modifies this, repository
      ensures repository.rows == TableAfter(validate, old(repository.rows), call)
      ensures answer == EffectOf(validate, old(repository.rows), call).answer
      ensures exchanges == old(exchanges) + if EffectOf(validate, old(repository.rows), call).exchanged then 1 else 0
    {
      if !call.wellFormed { return Invalid; }
      answer := ConsumeState(call);
      if !answer.Returned? { return answer; }
      exchanges := exchanges + 1;
      return Exchanged;
    }

    method Deny(call: Call) returns (answer: Answer)
      requires call.Deny?
      modifies repository
      ensures repository.rows == TableAfter(validate, old(repository.rows), call)
      ensures answer == EffectOf(validate, old(repository.rows), call).answer
    {
      if !call.wellFormed { return Invalid; }
      answer := ConsumeState(call);
    }
  }

  // ----- runs -----

  function Rows(valid: Validator, calls: seq<Call>): Table {
    if calls == [] then map[] else TableAfter(valid, Rows(valid, calls[..|calls| - 1]), calls[|calls| - 1])
  }

  /** The effect of the i-th call of a run. */
  function EffectAt(valid: Validator, calls: seq<Call>, i: nat): Effect
    requires i < |calls|
  {
    EffectOf(valid, Rows(valid, calls[..i]), calls[i])
  }

  // ----- single use -----

  function Saves(valid: Validator, calls: seq<Call>, hash: Digest): nat {
    if calls == [] then 0
    else
      var n := |calls| - 1;
      Saves(valid, calls[..n], hash) + if calls[n].hash == hash && EffectAt(valid, calls, n).saved then 1 else 0
  }

  function Uses(valid: Validator, calls: seq<Call>, hash: Digest): nat {
    if calls == [] then 0
    else
      var n := |calls| - 1;
      Uses(valid, calls[..n], hash) + if calls[n].hash == hash && EffectAt(valid, calls, n).consumed then 1 else 0
  }

  function Exchanges(valid: Validator, calls: seq<Call>, hash: Digest): nat {
    if calls == [] then 0
    else
      var n := |calls| - 1;
      Exchanges(valid, calls[..n], hash) + if calls[n].hash == hash && EffectAt(valid, calls, n).exchanged then 1 else 0
  }

  predicate Open(t: Table, hash: Digest) {
    hash in t && t[hash].consumedAt.None?
  }

  /** In every run a state is used at most as often as it was saved, and no code is exchanged without such a use. */
  lemma {:induction false} SingleUse(valid: Validator, calls: seq<Call>, hash: Digest)
    ensures Uses(valid, calls, hash) + (if Open(Rows(valid, calls), hash) then 1 else 0) <= Saves(valid, calls, hash)
    ensures Exchanges(valid, calls, hash) <= Uses(valid, calls, hash)
  {
    if calls != [] {
      SingleUse(valid, calls[..|calls| - 1], hash);
    }
  }

  // ----- in time -----

  /** The row a call stored. */
  ghost predicate StoredBy(valid: Validator, calls: seq<Call>, j: nat, hash: Digest, row: Row) {
    && j < |calls| && EffectAt(valid, calls, j).saved && calls[j].hash == hash
    && row.path == valid(calls[j].returnPath).value
    && row.createdAt == calls[j].now && row.expiresAt == calls[j].now + calls[j].ttl
  }

  lemma {:induction false} RowHasOrigin(valid: Validator, calls: seq<Call>, hash: Digest) returns (j: nat)
    requires hash in Rows(valid, calls)
    ensures StoredBy(valid, calls, j, hash, Rows(valid, calls)[hash])
  {
    var n := |calls| - 1;
    var rest := calls[..n];
    if EffectAt(valid, calls, n).saved && calls[n].hash == hash {
      j := n;
    } else {
      j := RowHasOrigin(valid, rest, hash);
      assert calls[..j] == rest[..j];
    }
  }

  /** A state is used only while it is valid, after the call that saved it; a code is exchanged only on the path
      the state was saved with. */
  lemma UsedInTime(valid: Validator, calls: seq<Call>, i: nat)
    requires i < |calls| && EffectAt(valid, calls, i).consumed
    ensures exists j: nat ::
      && j < i && EffectAt(valid, calls, j).saved && calls[j].hash == calls[i].hash
      && calls[j].now <= calls[i].now < calls[j].now + calls[j].ttl
      && (EffectAt(valid, calls, i).exchanged ==> valid(calls[i].returnPath) == valid(calls[j].returnPath))
  {
    var j := RowHasOrigin(valid, calls[..i], calls[i].hash);
    assert calls[..i][..j] == calls[..j];
    assert EffectAt(valid, calls, j).saved;
  }

  /** A state that was spent, on whatever path, is spent for good: no later call of the run consumes it, exchanges a
      code with it or returns its path. */
  lemma SpentForGood(valid: Validator, calls: seq<Call>, i: nat, j: nat)
    requires i < j < |calls| && FreshHashes(calls) && calls[i].hash == calls[j].hash
    requires EffectAt(valid, calls, i).consumed
    ensures var e := EffectAt(valid, calls, j);
      !e.consumed && !e.exchanged && !e.answer.Returned? && !e.answer.Exchanged? && !e.answer.Started?
  {
    var k := RowHasOrigin(valid, calls[..i], calls[i].hash);
    assert calls[k].Start? && calls[k].hash == calls[j].hash by { assert calls[..i][..k] == calls[..k]; }
    StaysClosed(valid, calls, i, j);
  }

  lemma {:induction false} StaysClosed(valid: Validator, calls: seq<Call>, i: nat, j: nat)
    requires i < j <= |calls| && FreshHashes(calls) && EffectAt(valid, calls, i).consumed
    requires exists k :: 0 <= k < i && calls[k].Start? && calls[k].hash == calls[i].hash
    ensures !Open(Rows(valid, calls[..j]), calls[i].hash)
  {
    assert calls[..j][..j - 1] == calls[..j - 1];
    if i < j - 1 {
      StaysClosed(valid, calls, i, j - 1);
      assert calls[j - 1].Start? ==> calls[j - 1].hash != calls[i].hash;
    }
  }

  // ----- pruning -----

  /** The same run where the database never prunes. */
  function Unpruned(call: Call): Call {
    if call.Start? then call.(picked := {}) else call
  }

  ghost predicate UnprunedRun(calls: seq<Call>, kept: seq<Call>) {
    |kept| == |calls| && forall i :: 0 <= i < |calls| ==> kept[i] == Unpruned(calls[i])
  }

  ghost predicate Monotone(calls: seq<Call>) {
    forall i, j :: 0 <= i < j < |calls| ==> calls[i].now <= calls[j].now
  }

  /** The generator never repeats itself. */
  ghost predicate FreshHashes(calls: seq<Call>) {
    forall i, j :: 0 <= i < j < |calls| && calls[i].Start? && calls[j].Start? ==> calls[i].hash != calls[j].hash
  }

  /** The unpruned table has the same rows and possibly spent ones besides. */
  ghost predicate Covers(kept: Table, t: Table, now: int) {
    && (forall h :: h in t ==> h in kept && kept[h] == t[h])
    && (forall h :: h in kept && h !in t ==> kept[h].consumedAt.Some? || kept[h].expiresAt <= now)
  }

  lemma SpentStaysSpent(kept: Table, t: Table, before: int, now: int)
    requires Covers(kept, t, before) && before <= now
    ensures Covers(kept, t, now)
  {
  }

  lemma CoveredStep(valid: Validator, kept: Table, t: Table, call: Call)
    requires Covers(kept, t, call.now)
    requires call.Start? && call.hash in kept ==> call.hash in t
    ensures EffectOf(valid, kept, Unpruned(call)) == EffectOf(valid, t, call)
    ensures Covers(TableAfter(valid, kept, Unpruned(call)), TableAfter(valid, t, call), call.now)
  {
  }

  lemma {:induction false} RowsWereStarted(valid: Validator, calls: seq<Call>, hash: Digest)
    requires hash in Rows(valid, calls)
    ensures exists j :: 0 <= j < |calls| && calls[j].Start? && calls[j].hash == hash
  {
    var j := RowHasOrigin(valid, calls, hash);
  }

  lemma {:induction false} SavedOnce(valid: Validator, calls: seq<Call>, hash: Digest)
    requires FreshHashes(calls)
    ensures Saves(valid, calls, hash) <= 1
    ensures Saves(valid, calls, hash) == 1 ==> exists j :: 0 <= j < |calls| && calls[j].Start? && calls[j].hash == hash
  {
    if calls != [] {
      SavedOnce(valid, calls[..|calls| - 1], hash);
    }
  }

  /** With fresh hashes every state leads to at most one exchange, whatever the clock, the faults and the pruning do. */
  lemma OneExchangePerState(valid: Validator, calls: seq<Call>, hash: Digest)
    requires FreshHashes(calls)
    ensures Exchanges(valid, calls, hash) <= Uses(valid, calls, hash) <= 1
  {
    SavedOnce(valid, calls, hash);
    SingleUse(valid, calls, hash);
  }

  /** While the clock does not go back and hashes are fresh, no caller can tell whether anything was ever pruned:
      every call of the run has the same effect and the same answer. */
  lemma {:induction false} PruningIsInvisible(valid: Validator, calls: seq<Call>, kept: seq<Call>)
    requires UnprunedRun(calls, kept) && Monotone(calls) && FreshHashes(calls)
    ensures forall i :: 0 <= i < |calls| ==> EffectAt(valid, calls, i) == EffectAt(valid, kept, i)
    ensures calls != [] ==> Covers(Rows(valid, kept), Rows(valid, calls), calls[|calls| - 1].now)
  {
    if calls != [] {
      var n := |calls| - 1;
      var last, full, t := calls[n], Rows(valid, kept[..n]), Rows(valid, calls[..n]);
      PruningIsInvisible(valid, calls[..n], kept[..n]);
      forall i | 0 <= i < n ensures EffectAt(valid, calls, i) == EffectAt(valid, kept, i) {
        assert calls[..n][..i] == calls[..i] && kept[..n][..i] == kept[..i];
        assert EffectAt(valid, calls[..n], i) == EffectAt(valid, kept[..n], i);
      }
      if n > 0 { SpentStaysSpent(full, t, calls[n - 1].now, last.now); }
      if last.Start? && last.hash in full {
        RowsWereStarted(valid, kept[..n], last.hash);
        assert false;
      }
      CoveredStep(valid, full, t, last);
    }
  }

  // ----- every good state is accepted -----

  /** A start that stores its state, whether or not its answer arrives. */
  predicate Effective(valid: Validator, call: Call) {
    && call.Start? && valid(call.returnPath).Some? && call.hash != ZERO_DIGEST && call.ttl > 0
    && !call.fault.NotReached?
  }

  /** A callback whose statement about this state runs. */
  predicate Presented(valid: Validator, call: Call, hash: Digest) {
    && !call.Start? && call.hash == hash && call.wellFormed && valid(call.returnPath).Some?
    && !call.fault.NotReached?
  }

  /** The i-th call presents a state that the j-th issued, within its lifetime and as the first to present it. */
  ghost predicate Redeemable(valid: Validator, calls: seq<Call>, i: nat, j: nat) {
    && j < i < |calls| && Effective(valid, calls[j]) && calls[j].hash == calls[i].hash
    && calls[j].now <= calls[i].now && calls[i].now - calls[j].now < calls[j].ttl
    && forall m :: j < m < i ==> !Presented(valid, calls[m], calls[i].hash)
  }

  lemma Unsaved(valid: Validator, calls: seq<Call>, j: nat)
    requires j < |calls| && FreshHashes(calls) && calls[j].Start?
    ensures calls[j].hash !in Rows(valid, calls[..j])
  {
    if calls[j].hash in Rows(valid, calls[..j]) {
      var k := RowHasOrigin(valid, calls[..j], calls[j].hash);
      assert false;
    }
  }

  /** A stored state stays in the table, untouched by other calls and by pruning, while it is valid and unpresented. */
  lemma {:induction false} StaysOpen(valid: Validator, calls: seq<Call>, j: nat, i: nat)
    requires j < i <= |calls| && FreshHashes(calls) && Effective(valid, calls[j])
    requires forall m :: j < m < i ==>
      !Presented(valid, calls[m], calls[j].hash) && calls[m].now < calls[j].now + calls[j].ttl
    ensures calls[j].hash in Rows(valid, calls[..i])
    ensures Rows(valid, calls[..i])[calls[j].hash]
      == Row(valid(calls[j].returnPath).value, calls[j].now + calls[j].ttl, calls[j].now, None)
  {
    assert calls[..i][..i - 1] == calls[..i - 1];
    if i - 1 == j {
      Unsaved(valid, calls, j);
    } else {
      StaysOpen(valid, calls, j, i - 1);
    }
  }

  /** The first to present a valid state consumes it. */
  lemma FirstConsumes(valid: Validator, calls: seq<Call>, j: nat, m: nat)
    requires j < m < |calls| && FreshHashes(calls) && Monotone(calls) && Effective(valid, calls[j])
    requires Presented(valid, calls[m], calls[j].hash) && calls[m].now < calls[j].now + calls[j].ttl
    requires forall k :: j < k < m ==> !Presented(valid, calls[k], calls[j].hash)
    ensures EffectAt(valid, calls, m).consumed
  {
    StaysOpen(valid, calls, j, m);
  }

  /** An open state was not presented since it was issued. */
  lemma {:induction false} OpenIsUnpresented(valid: Validator, calls: seq<Call>, j: nat, m: nat, i: nat)
    requires j < m <= i < |calls| && FreshHashes(calls) && Monotone(calls) && Effective(valid, calls[j])
    requires Open(Rows(valid, calls[..i]), calls[j].hash) && calls[i].now < calls[j].now + calls[j].ttl
    ensures forall k :: j < k < m ==> !Presented(valid, calls[k], calls[j].hash)
  {
    if j + 1 < m {
      OpenIsUnpresented(valid, calls, j, m - 1, i);
      if Presented(valid, calls[m - 1], calls[j].hash) {
        FirstConsumes(valid, calls, j, m - 1);
        StaysClosed(valid, calls, m - 1, i);
      }
    }
  }

  /** What the table holds for a presented state, in terms of the calls. */
  lemma FoundIff(valid: Validator, calls: seq<Call>, i: nat)
    requires i < |calls| && FreshHashes(calls) && Monotone(calls)
    ensures var t, hash := Rows(valid, calls[..i]), calls[i].hash;
      && (forall j: nat :: Redeemable(valid, calls, i, j) ==>
            Open(t, hash) && t[hash] == Row(valid(calls[j].returnPath).value, calls[j].now + calls[j].ttl,
                                           calls[j].now, None))
      && (Open(t, hash) && calls[i].now < t[hash].expiresAt ==> exists j: nat :: Redeemable(valid, calls, i, j))
  {
    var t, hash := Rows(valid, calls[..i]), calls[i].hash;
    forall j: nat | Redeemable(valid, calls, i, j)
      ensures Open(t, hash) && t[hash] == Row(valid(calls[j].returnPath).value, calls[j].now + calls[j].ttl,
                                             calls[j].now, None)
    {
      StaysOpen(valid, calls, j, i);
    }
    if Open(t, hash) && calls[i].now < t[hash].expiresAt {
      var j := RowHasOrigin(valid, calls[..i], hash);
      assert calls[..i][j] == calls[j] && calls[..i][..j] == calls[..j];
      OpenIsUnpresented(valid, calls, j, i, i);
      assert Redeemable(valid, calls, i, j);
    }
  }

  /** A completion that reaches the database exchanges its code exactly when an earlier start issued the state, for the
      same path, its lifetime is not over, and nobody presented the state in between; otherwise it is refused. */
  lemma ExchangedIff(valid: Validator, calls: seq<Call>, i: nat)
    requires i < |calls| && FreshHashes(calls) && Monotone(calls)
    requires calls[i].Complete? && calls[i].wellFormed && calls[i].fault.Answered?
    ensures var e := EffectAt(valid, calls, i);
      && (e.exchanged <==> e.answer == Exchanged)
      && (e.answer == Exchanged <==>
            exists j: nat :: Redeemable(valid, calls, i, j) && valid(calls[i].returnPath) == valid(calls[j].returnPath))
      && (e.answer != Exchanged ==> e.answer == Invalid)
  {
    FoundIff(valid, calls, i);
  }

  /** A denial returns its path under the same conditions. */
  lemma ReturnedIff(valid: Validator, calls: seq<Call>, i: nat, path: Path)
    requires i < |calls| && FreshHashes(calls) && Monotone(calls)
    requires calls[i].Deny? && calls[i].wellFormed && calls[i].fault.Answered?
    ensures var e := EffectAt(valid, calls, i);
      && !e.exchanged
      && (e.answer == Returned(path) <==>
            && valid(calls[i].returnPath) == Some(path)
            && exists j: nat :: Redeemable(valid, calls, i, j) && valid(calls[j].returnPath) == Some(path))
      && (!e.answer.Returned? ==> e.answer == Invalid)
  {
    FoundIff(valid, calls, i);
  }

  /** A malformed callback is refused without a statement; one whose statement is not answered says so. */
  lemma RefusedOrUnavailable(valid: Validator, calls: seq<Call>, i: nat)
    requires i < |calls| && !calls[i].Start?
    ensures var e := EffectAt(valid, calls, i);
      && (!calls[i].wellFormed || valid(calls[i].returnPath).None? ==> e.answer == Invalid && !e.consumed)
      && (calls[i].wellFormed && valid(calls[i].returnPath).Some? && !calls[i].fault.Answered? ==>
            e.answer == Unavailable)
  {
  }

  /** A start is answered exactly when it took effect and the answer arrived, with its validated path. */
  lemma StartedIff(valid: Validator, calls: seq<Call>, i: nat, path: Path)
    requires i < |calls| && FreshHashes(calls) && calls[i].Start?
    ensures var e := EffectAt(valid, calls, i);
      && (e.saved <==> Effective(valid, calls[i]))
      && (e.answer == Started(path) <==>
            Effective(valid, calls[i]) && calls[i].fault.Answered? && valid(calls[i].returnPath) == Some(path))
      && (valid(calls[i].returnPath).None? ==> e.answer == Invalid)
      && (valid(calls[i].returnPath).Some? && !e.answer.Started? ==> e.answer == Unavailable)
  {
    Unsaved(valid, calls, i);
  }
}
