/** Nothing stands in the way of an undisturbed migrator: whatever happened before, a process that finds the lock free
    and a table its catalog continues can run to success. */
module MigrationProgress {
  import opened MigrationCatalog
  import opened MigrationProtocol
  import opened Options

  /** Process p holds the lock and stands at position n of its loop. */
  ghost predicate Working(s: System, p: nat, catalog: seq<Migration>, applied: Applied, n: nat) {
    && n <= |catalog| && |applied| <= |catalog| && p in s.processes && s.lock == Some(p)
    && s.processes[p].catalog == catalog && s.processes[p].pc == Scanning(applied, n)
    && s.processes[p].session.alive && s.processes[p].session.inFlight.None?
    && Reached(s.rows, applied, catalog, Larger(|applied|, n))
  }

  /** The run goes on with steps of process p alone. */
  ghost predicate GoesOn(actions: seq<Action>, more: seq<Action>, p: nat) {
    actions <= more && forall k :: |actions| <= k < |more| ==> more[k].process == p
  }

  /** One more step that is possible. */
  lemma Do(actions: seq<Action>, p: nat, step: Step)
    requires After(actions).Some? && Enabled(After(actions).value, p, step)
    ensures After(actions + [Action(p, step)]) == Some(Apply(After(actions).value, p, step))
    ensures GoesOn(actions, actions + [Action(p, step)], p)
  {
    var longer := actions + [Action(p, step)];
    assert longer[..|longer| - 1] == actions;
  }

  /** The name at a position that is still pending is not in the table. */
  lemma PendingNameIsNew(rows: Applied, applied: Applied, catalog: seq<Migration>, n: nat)
    requires AppliedPrefix(catalog, applied) && |applied| <= n < |catalog| && Reached(rows, applied, catalog, n)
    requires NamesAvailable(catalog, NamesOf(applied), |applied|)
    ensures catalog[n].name !in NamesOf(rows) && n + 1 !in rows
  {
    forall v | v in rows ensures rows[v].name != catalog[n].name {
      if v in applied { assert applied[v].name in NamesOf(applied); }
    }
  }

  /** A position that was applied before is skipped. */
  lemma Skip(actions: seq<Action>, p: nat, catalog: seq<Migration>, applied: Applied, n: nat)
    requires After(actions).Some? && Working(After(actions).value, p, catalog, applied, n)
    requires AppliedPrefix(catalog, applied) && n < |applied|
    ensures var s := After(actions + [Action(p, SkipApplied)]);
      && s.Some? && Working(s.value, p, catalog, applied, n + 1)
      && s.value.executed == After(actions).value.executed
  {
    Do(actions, p, SkipApplied);
  }

  /** The transaction of one migration up to the sent COMMIT. */
  lemma Prepare(actions: seq<Action>, p: nat, catalog: seq<Migration>, applied: Applied, n: nat)
    returns (more: seq<Action>)
    requires After(actions).Some? && Working(After(actions).value, p, catalog, applied, n)
    requires Contiguous(catalog) && AppliedPrefix(catalog, applied) && |applied| <= n < |catalog|
    requires NamesAvailable(catalog, NamesOf(applied), |applied|)
    ensures GoesOn(actions, more, p)
    ensures var s, t := After(actions).value, After(more);
      && t.Some? && t.value.rows == s.rows && t.value.executed == s.executed && t.value.lock == s.lock
      && p in t.value.processes
      && t.value.processes[p] == Process(catalog, CommitSent(applied, n), Session(true, Some(n), false))
  {
    PendingNameIsNew(After(actions).value.rows, applied, catalog, n);
    Do(actions, p, Begin(true));
    var begun := actions + [Action(p, Begin(true))];
    Do(begun, p, RunSql(true));
    var run := begun + [Action(p, RunSql(true))];
    Do(run, p, Record(true));
    var recorded := run + [Action(p, Record(true))];
    Do(recorded, p, SendCommit(true));
    more := recorded + [Action(p, SendCommit(true))];
  }

  /** The server applies the sent COMMIT and the client learns of it. */
  lemma Acknowledge(actions: seq<Action>, p: nat, catalog: seq<Migration>, applied: Applied, n: nat)
    returns (more: seq<Action>)
    requires After(actions).Some? && p in After(actions).value.processes
    requires n < |catalog| && catalog[n].version == n + 1
    requires After(actions).value.processes[p] == Process(catalog, CommitSent(applied, n), Session(true, Some(n), false))
    ensures GoesOn(actions, more, p)
    ensures var s, t, m := After(actions).value, After(more), catalog[n];
      && t.Some? && t.value.rows == s.rows[n + 1 := Row(m.name, m.Checksum())] && t.value.lock == s.lock
      && t.value.executed == s.executed + [Executed(n + 1, m.sql)] && p in t.value.processes
      && t.value.processes[p] == Process(catalog, Scanning(applied, n + 1), Session(true, None, true))
  {
    Do(actions, p, ServerCommits);
    var committed := actions + [Action(p, ServerCommits)];
    Do(committed, p, ReceiveReply(true));
    more := committed + [Action(p, ReceiveReply(true))];
  }

  /** A pending position is executed and recorded. */
  lemma Execute(actions: seq<Action>, p: nat, catalog: seq<Migration>, applied: Applied, n: nat)
    returns (more: seq<Action>)
    requires After(actions).Some? && Working(After(actions).value, p, catalog, applied, n)
    requires Contiguous(catalog) && AppliedPrefix(catalog, applied) && |applied| <= n < |catalog|
    requires NamesAvailable(catalog, NamesOf(applied), |applied|)
    ensures GoesOn(actions, more, p)
    ensures var t := After(more);
      && t.Some? && Working(t.value, p, catalog, applied, n + 1)
      && t.value.executed == After(actions).value.executed + [Executed(n + 1, catalog[n].sql)]
  {
    var sent := Prepare(actions, p, catalog, applied, n);
    ReachedStep(After(actions).value.rows, applied, catalog, n);
    more := Acknowledge(sent, p, catalog, applied, n);
  }

  /** What the loop has still to execute at position n. */
  ghost function Pending(catalog: seq<Migration>, applied: Applied, n: nat): seq<Executed>
    requires n <= |catalog| && |applied| <= |catalog|
  {
    Log(catalog[Larger(|applied|, n)..])
  }

  /** Process p got from where actions end to position n of its loop and executed run on the way. */
  ghost predicate Through(actions: seq<Action>, more: seq<Action>, p: nat, catalog: seq<Migration>, applied: Applied,
                          n: nat, run: seq<Executed>) {
    && GoesOn(actions, more, p) && After(actions).Some? && After(more).Some?
    && Working(After(more).value, p, catalog, applied, n)
    && After(more).value.executed == After(actions).value.executed + run
  }

  lemma Joined<T>(a: seq<T>, b: seq<T>, c: seq<T>)
    ensures a + b + c == a + (b + c)
  {
  }

  lemma Chain(actions: seq<Action>, next: seq<Action>, more: seq<Action>, p: nat, catalog: seq<Migration>,
              applied: Applied, m: nat, n: nat, first: seq<Executed>, second: seq<Executed>)
    requires Through(actions, next, p, catalog, applied, m, first)
    requires Through(next, more, p, catalog, applied, n, second)
    ensures Through(actions, more, p, catalog, applied, n, first + second)
  {
    Joined(After(actions).value.executed, first, second);
  }

  /** One turn of the loop. */
  lemma Turn(actions: seq<Action>, p: nat, catalog: seq<Migration>, applied: Applied, n: nat)
    returns (more: seq<Action>, run: seq<Executed>)
    requires After(actions).Some? && n < |catalog| && Working(After(actions).value, p, catalog, applied, n)
    requires Contiguous(catalog) && AppliedPrefix(catalog, applied)
    requires NamesAvailable(catalog, NamesOf(applied), |applied|)
    ensures Through(actions, more, p, catalog, applied, n + 1, run)
    ensures Pending(catalog, applied, n) == run + Pending(catalog, applied, n + 1)
  {
    if n < |applied| {
      Skip(actions, p, catalog, applied, n);
      more, run := actions + [Action(p, SkipApplied)], [];
    } else {
      more := Execute(actions, p, catalog, applied, n);
      run := [Executed(n + 1, catalog[n].sql)];
      LogCons(catalog, n);
    }
  }

  /** The first entry of a log. */
  lemma LogCons(catalog: seq<Migration>, n: nat)
    requires Contiguous(catalog) && n < |catalog|
    ensures Log(catalog[n..]) == [Executed(n + 1, catalog[n].sql)] + Log(catalog[n + 1..])
  {
  }

  lemma Stay(actions: seq<Action>, p: nat, catalog: seq<Migration>, applied: Applied)
    requires After(actions).Some? && Working(After(actions).value, p, catalog, applied, |catalog|)
    ensures Through(actions, actions, p, catalog, applied, |catalog|, Pending(catalog, applied, |catalog|))
  {
    assert catalog[Larger(|applied|, |catalog|)..] == [];
  }

  /** The loop runs to its end. */
  lemma {:induction false} Loop(actions: seq<Action>, p: nat, catalog: seq<Migration>, applied: Applied, n: nat)
    returns (more: seq<Action>)
    requires After(actions).Some? && n <= |catalog| && Working(After(actions).value, p, catalog, applied, n)
    requires Contiguous(catalog) && AppliedPrefix(catalog, applied)
    requires NamesAvailable(catalog, NamesOf(applied), |applied|)
    ensures Through(actions, more, p, catalog, applied, |catalog|, Pending(catalog, applied, n))
    decreases |catalog| - n
  {
    if n == |catalog| {
      Stay(actions, p, catalog, applied);
      more := actions;
    } else {
      var next, run := Turn(actions, p, catalog, applied, n);
      more := Loop(next, p, catalog, applied, n + 1);
      Chain(actions, next, more, p, catalog, applied, n + 1, |catalog|, run, Pending(catalog, applied, n + 1));
    }
  }

  /** From the start of a process to its loop. */
  lemma Enter(actions: seq<Action>, p: nat, catalog: seq<Migration>) returns (more: seq<Action>)
    requires After(actions).Some? && After(actions).value.lock.None? && p !in After(actions).value.processes
    requires Contiguous(catalog) && AppliedPrefix(catalog, After(actions).value.rows)
    ensures GoesOn(actions, more, p)
    ensures var s, t := After(actions).value, After(more);
      t.Some? && Working(t.value, p, catalog, s.rows, 0) && t.value.executed == s.executed
  {
    Do(actions, p, Start(catalog));
    var started := actions + [Action(p, Start(catalog))];
    Do(started, p, EnsureTable(true));
    var ready := started + [Action(p, EnsureTable(true))];
    Do(ready, p, AcquireLock(true));
    var holding := ready + [Action(p, AcquireLock(true))];
    Do(holding, p, ReadAndVerify(true));
    more := holding + [Action(p, ReadAndVerify(true))];
  }

  /** After any run that leaves the lock free, a new process whose catalog continues the table, with new names, can run
      to success: it executes exactly the rest of its catalog and frees the lock again. */
  lemma UndisturbedProcessSucceeds(actions: seq<Action>, p: nat, catalog: seq<Migration>)
    returns (more: seq<Action>)
    requires After(actions).Some? && After(actions).value.lock.None? && p !in After(actions).value.processes
    requires Contiguous(catalog) && AppliedPrefix(catalog, After(actions).value.rows)
    requires NamesAvailable(catalog, NamesOf(After(actions).value.rows), |After(actions).value.rows|)
    ensures GoesOn(actions, more, p)
    ensures var s, t := After(actions).value, After(more);
      && t.Some? && t.value.lock.None? && p in t.value.processes && t.value.processes[p].pc == Returned(Success)
      && t.value.executed == s.executed + Log(catalog[|s.rows|..])
  {
    var rows := After(actions).value.rows;
    var entered := Enter(actions, p, catalog);
    var looped := Loop(entered, p, catalog, rows, 0);
    Do(looped, p, FinishLoop);
    var finished := looped + [Action(p, FinishLoop)];
    Do(finished, p, Unlock(true));
    more := finished + [Action(p, Unlock(true))];
  }

  ghost predicate AllRun(s: System, catalog: seq<Migration>) {
    forall p :: p in s.processes ==> s.processes[p].catalog == catalog
  }

  ghost predicate NamedAfter(rows: Applied, catalog: seq<Migration>) {
    forall v :: v in rows ==> 1 <= v <= |catalog| && rows[v].name == catalog[v - 1].name
  }

  lemma StepNames(s: System, p: nat, step: Step, catalog: seq<Migration>)
    requires Enabled(s, p, step) && AllRun(s, catalog) && Contiguous(catalog) && NamedAfter(s.rows, catalog)
    ensures NamedAfter(Apply(s, p, step).rows, catalog)
  {
    if step.ServerCommits? {
      assert s.processes[p].catalog == catalog;
    }
  }

  /** With one catalog for everybody, every recorded name is the catalog's. */
  lemma {:induction false} RecordedNames(actions: seq<Action>, catalog: seq<Migration>)
    requires After(actions).Some? && Contiguous(catalog) && AllRun(After(actions).value, catalog)
    ensures NamedAfter(After(actions).value.rows, catalog)
  {
    if actions != [] {
      var before, last := actions[..|actions| - 1], actions[|actions| - 1];
      var s := After(before).value;
      ExecutedGrows(s, last.process, last.step);
      forall p | p in s.processes ensures s.processes[p].catalog == catalog {
        assert Apply(s, last.process, last.step).processes[p].catalog == s.processes[p].catalog;
      }
      RecordedNames(before, catalog);
      StepNames(s, last.process, last.step, catalog);
    }
  }

  /** With one catalog for everybody, the table is that of its first migrations. */
  lemma TableOfCatalog(actions: seq<Action>, catalog: seq<Migration>)
    requires After(actions).Some? && Contiguous(catalog) && AllRun(After(actions).value, catalog)
    ensures var s := After(actions).value;
      AppliedPrefix(catalog, s.rows) && s.executed == Log(catalog)[..|s.rows|]
  {
    OneCatalog(actions, catalog);
    EveryRunIsSafe(actions);
    var s := After(actions).value;
    KeysCount(s.rows, |s.executed|);
  }

  lemma RestIsNew(rows: Applied, catalog: seq<Migration>)
    requires AppliedPrefix(catalog, rows) && NamesAvailable(catalog, {}, 0)
    requires NamedAfter(rows, catalog)
    ensures NamesAvailable(catalog, NamesOf(rows), |rows|)
  {
  }

  lemma LogSplit(catalog: seq<Migration>, k: nat)
    requires k <= |catalog|
    ensures Log(catalog)[..k] + Log(catalog[k..]) == Log(catalog)
  {
  }

  /** However migrators of one catalog with distinct names crashed, failed and lost acknowledgements before: once the
      lock is free, one more undisturbed process brings the database to the whole catalog, each migration executed
      exactly once and in order. */
  lemma OneMoreProcessFinishes(actions: seq<Action>, p: nat, catalog: seq<Migration>) returns (more: seq<Action>)
    requires After(actions).Some? && After(actions).value.lock.None? && p !in After(actions).value.processes
    requires AllRun(After(actions).value, catalog)
    requires Contiguous(catalog) && NamesAvailable(catalog, {}, 0)
    ensures GoesOn(actions, more, p)
    ensures After(more).Some? && After(more).value.lock.None? && p in After(more).value.processes
    ensures After(more).value.processes[p].pc == Returned(Success) && After(more).value.executed == Log(catalog)
  {
    var rows := After(actions).value.rows;
    TableOfCatalog(actions, catalog);
    RecordedNames(actions, catalog);
    RestIsNew(rows, catalog);
    LogSplit(catalog, |rows|);
    more := UndisturbedProcessSucceeds(actions, p, catalog);
  }
}
