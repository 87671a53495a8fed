/** Many migrators against one database. Every process runs the statements of Migrate one at a time; it may crash
    between any two of them, any statement may fail, and the server may end any session. The server answers a
    COMMIT on its own time: a client that gave up or crashed can still have its commit applied. It may also grant the
    lock to a session whose client does not learn of it. */
module MigrationProtocol {
  import opened Options
  import opened MigrationCatalog

  /** Where a process stands. applied is what it read under the lock; next is its loop index. */
  datatype Pc =
    | Connected
    | TableReady
    | Holding
    | Scanning(applied: Applied, next: nat)
    | TxOpen(applied: Applied, next: nat)
    | SqlDone(applied: Applied, next: nat)
    | Recorded(applied: Applied, next: nat)
    | CommitSent(applied: Applied, next: nat)
    | Releasing(outcome: Outcome)
    | Returned(outcome: Outcome)
    | Crashed

  /** The server side of a connection. */
  datatype Session = Session(alive: bool, inFlight: Option<nat>, committed: bool)

  datatype Process = Process(catalog: seq<Migration>, pc: Pc, session: Session)

  datatype System = System(rows: Applied, executed: seq<Executed>, lock: Option<nat>, processes: map<nat, Process>)

  datatype Step =
    | Start(catalog: seq<Migration>)
    | EnsureTable(ok: bool)
    | AcquireLock(ok: bool)
    | GrantUnseen
    | ReadAndVerify(ok: bool)
    | SkipApplied
    | Begin(ok: bool)
    | RunSql(ok: bool)
    | Record(ok: bool)
    | SendCommit(ok: bool)
    | ServerCommits
    | ServerRefuses
    | ReceiveReply(ok: bool)
    | FinishLoop
    | Unlock(ok: bool)
    | Crash
    | EndSession

  const INITIAL: System := System(map[], [], None, map[])

  // ----- the steps -----

  ghost predicate Enabled(s: System, p: nat, step: Step) {
    if step.Start? then p !in s.processes && Contiguous(step.catalog)
    else p in s.processes && StepEnabled(s, p, s.processes[p], step)
  }

  ghost predicate StepEnabled(s: System, p: nat, q: Process, step: Step) {
    match step
    case Start(_) => false
    case EnsureTable(ok) => q.pc.Connected? && (ok ==> q.session.alive)
    case AcquireLock(ok) => q.pc.TableReady? && (ok ==> q.session.alive && s.lock.None?)
    case GrantUnseen =>
      q.session.alive && s.lock.None? && (q.pc.TableReady? || q.pc == Returned(MigrationFailed) || q.pc.Crashed?)
    case ReadAndVerify(ok) => q.pc.Holding? && (ok ==> q.session.alive)
    case SkipApplied => q.pc.Scanning? && q.pc.next < |q.catalog| && q.pc.next + 1 in q.pc.applied
    case Begin(ok) =>
      q.pc.Scanning? && q.pc.next < |q.catalog| && q.pc.next + 1 !in q.pc.applied && (ok ==> q.session.alive)
    case RunSql(ok) => q.pc.TxOpen? && (ok ==> q.session.alive)
    case Record(ok) =>
      q.pc.SqlDone? && q.pc.next < |q.catalog| &&
      (ok ==> q.session.alive && q.pc.next + 1 !in s.rows && q.catalog[q.pc.next].name !in NamesOf(s.rows))
    case SendCommit(ok) => q.pc.Recorded? && (ok ==> q.session.alive)
    case ServerCommits => q.session.alive && q.session.inFlight.Some? && q.session.inFlight.value < |q.catalog|
    case ServerRefuses => q.session.alive && q.session.inFlight.Some?
    case ReceiveReply(ok) => q.pc.CommitSent? && (ok ==> q.session.committed)
    case FinishLoop => q.pc.Scanning? && q.pc.next == |q.catalog|
    case Unlock(ok) => q.pc.Releasing? && (ok ==> q.session.alive && q.session.inFlight.None? && s.lock == Some(p))
    case Crash => true
    case EndSession => q.session.alive
  }

  function With(s: System, p: nat, q: Process): System {
    s.(processes := s.processes[p := q])
  }

  function Failure(): Pc {
    Releasing(MigrationFailed)
  }

  ghost function Apply(s: System, p: nat, step: Step): System
    requires Enabled(s, p, step)
  {
    if step.Start? then With(s, p, Process(step.catalog, Connected, Session(true, None, false)))
    else
      var q := s.processes[p];
      var after := With(s, p, q.(pc := NextPc(s, q, step), session := NextSession(q, step)));
      match step
      case AcquireLock(true) => after.(lock := Some(p))
      case GrantUnseen => after.(lock := Some(p))
      case Unlock(true) => after.(lock := None)
      case EndSession => if s.lock == Some(p) then after.(lock := None) else after
      case ServerCommits =>
        var m := q.catalog[q.session.inFlight.value];
        after.(rows := s.rows[m.version := Row(m.name, m.Checksum())],
               executed := s.executed + [Executed(m.version, m.sql)])
      case _ => after
  }

  /** What the client does next. */
  ghost function NextPc(s: System, q: Process, step: Step): Pc {
    match step
    case EnsureTable(ok) => if ok then TableReady else Returned(MigrationFailed)
    case AcquireLock(ok) => if ok then Holding else Returned(MigrationFailed)
    case GrantUnseen => if q.pc.TableReady? then Returned(MigrationFailed) else q.pc
    case ReadAndVerify(ok) =>
      if !ok then Failure()
      else if AppliedPrefix(q.catalog, s.rows) then Scanning(s.rows, 0)
      else Releasing(MigrationDrift)
    case SkipApplied => if q.pc.Scanning? then Scanning(q.pc.applied, q.pc.next + 1) else q.pc
    case Begin(ok) => if ok && q.pc.Scanning? then TxOpen(q.pc.applied, q.pc.next) else Failure()
    case RunSql(ok) => if ok && q.pc.TxOpen? then SqlDone(q.pc.applied, q.pc.next) else Failure()
    case Record(ok) => if ok && q.pc.SqlDone? then Recorded(q.pc.applied, q.pc.next) else Failure()
    case SendCommit(ok) => if ok && q.pc.Recorded? then CommitSent(q.pc.applied, q.pc.next) else Failure()
    case ReceiveReply(ok) => if ok && q.pc.CommitSent? then Scanning(q.pc.applied, q.pc.next + 1) else Failure()
    case FinishLoop => Releasing(Success)
    case Unlock(_) => if q.pc.Releasing? then Returned(q.pc.outcome) else q.pc
    case Crash => Pc.Crashed
    case _ => q.pc
  }

  /** What becomes of the session. */
  function NextSession(q: Process, step: Step): Session {
    match step
    case SendCommit(true) => if q.pc.Recorded? then Session(true, Some(q.pc.next), false) else q.session
    case ServerCommits => Session(true, None, true)
    case ServerRefuses => Session(true, None, false)
    case EndSession => Session(false, None, q.session.committed)
    case _ => q.session
  }

  // ----- the invariant -----

  /** The first n migrations of a catalog have been executed first, in order. */
  ghost predicate Agrees(catalog: seq<Migration>, executed: seq<Executed>, n: nat) {
    && n <= |catalog| && n <= |executed|
    && forall i :: 0 <= i < n ==> executed[i] == Executed(catalog[i].version, catalog[i].sql)
  }

  /** The table and the executed SQL tell the same story: versions 1..k, once each, in order, with their checksums. */
  ghost predicate Faithful(rows: Applied, executed: seq<Executed>) {
    && (forall v :: v in rows <==> 1 <= v <= |executed|)
    && (forall i :: 0 <= i < |executed| ==>
          executed[i].version == i + 1 && rows[i + 1].checksum == Sha256(executed[i].sql))
  }

  predicate InsideLock(pc: Pc) {
    pc.Holding? || pc.Scanning? || pc.TxOpen? || pc.SqlDone? || pc.Recorded? || pc.CommitSent? || pc.Releasing?
  }

  predicate InLoop(pc: Pc) {
    pc.Scanning? || InTransaction(pc) || pc.CommitSent?
  }

  predicate InTransaction(pc: Pc) {
    pc.TxOpen? || pc.SqlDone? || pc.Recorded?
  }

  function Done(pc: Pc): nat
    requires InLoop(pc)
  {
    Larger(|pc.applied|, pc.next)
  }

  /** What survives the loss of the session: facts about a prefix that only grows. */
  ghost predicate Settled(executed: seq<Executed>, q: Process) {
    && Contiguous(q.catalog)
    && (InLoop(q.pc) ==>
          && AppliedPrefix(q.catalog, q.pc.applied) && q.pc.next <= |q.catalog|
          && Agrees(q.catalog, executed, Done(q.pc)))
    && (InTransaction(q.pc) || q.pc.CommitSent? ==> |q.pc.applied| <= q.pc.next < |q.catalog|)
    && (q.pc.CommitSent? && q.session.committed ==> Agrees(q.catalog, executed, q.pc.next + 1))
    && (q.pc == Releasing(Success) || q.pc == Returned(Success) ==> Agrees(q.catalog, executed, |q.catalog|))
  }

  /** What a live session inside the lock knows about the present. */
  ghost predicate Current(s: System, p: nat, q: Process) {
    && (InsideLock(q.pc) || q.session.inFlight.Some? ==> s.lock == Some(p))
    && (q.pc.Scanning? || InTransaction(q.pc) ==> |s.executed| == Done(q.pc) && q.session.inFlight.None?)
    && (q.pc.Holding? ==> q.session.inFlight.None?)
    && (q.pc.CommitSent? && q.session.inFlight.None? ==>
          |s.executed| == q.pc.next + if q.session.committed then 1 else 0)
    && (q.session.inFlight.Some? ==>
          && !q.session.committed
          && (q.pc.CommitSent? ==> q.session.inFlight.value == q.pc.next)
          && q.session.inFlight.value == |s.executed| < |q.catalog|
          && Agrees(q.catalog, s.executed, |s.executed|))
    && (q.pc.Connected? || q.pc.TableReady? ==> q.session.inFlight.None?)
  }

  ghost predicate ProcessInv(s: System, p: nat)
    requires p in s.processes
  {
    var q := s.processes[p];
    Settled(s.executed, q) && (q.session.alive ==> Current(s, p, q)) && (!q.session.alive ==> q.session.inFlight.None?)
  }

  ghost predicate Inv(s: System) {
    && Faithful(s.rows, s.executed)
    && (forall p :: p in s.processes ==> ProcessInv(s, p))
    && (s.executed != [] ==> Backed(s))
  }

  /** Some process has everything that was executed as a prefix of its catalog. */
  ghost predicate Backed(s: System) {
    exists p :: p in s.processes && Agrees(s.processes[p].catalog, s.executed, |s.executed|)
  }

  // ----- every step keeps it -----

  lemma SettledExtends(executed: seq<Executed>, longer: seq<Executed>, q: Process)
    requires Settled(executed, q) && executed <= longer
    ensures Settled(longer, q)
  {
  }

  /** The executed SQL only grows. */
  lemma ExecutedGrows(s: System, p: nat, step: Step)
    requires Enabled(s, p, step)
    ensures s.executed <= Apply(s, p, step).executed
    ensures forall o :: o in s.processes ==>
      o in Apply(s, p, step).processes && Apply(s, p, step).processes[o].catalog == s.processes[o].catalog
  {
  }

  /** A process that does not step keeps its part of the invariant. */
  lemma BystanderKeeps(s: System, p: nat, step: Step, o: nat)
    requires Inv(s) && Enabled(s, p, step) && o in s.processes && o != p
    ensures o in Apply(s, p, step).processes && ProcessInv(Apply(s, p, step), o)
  {
    var after := Apply(s, p, step);
    var q := s.processes[o];
    assert ProcessInv(s, o);
    assert after.processes[o] == q;
    SettledExtends(s.executed, after.executed, q);
    if step.ServerCommits? {
      assert ProcessInv(s, p);
      assert s.lock == Some(p);
    } else {
      assert after.executed == s.executed;
    }
  }

  lemma StepperSettled(s: System, p: nat, step: Step)
    requires Inv(s) && Enabled(s, p, step)
    ensures p in Apply(s, p, step).processes && Settled(Apply(s, p, step).executed, Apply(s, p, step).processes[p])
  {
    if step.ServerCommits? {
      CommitSettled(s, p);
    } else if !step.Start? {
      assert ProcessInv(s, p);
      ClientSettled(s, p, s.processes[p], step);
    }
  }

  /** The process after its step. */
  ghost function Stepped(s: System, q: Process, step: Step): Process {
    q.(pc := NextPc(s, q, step), session := NextSession(q, step))
  }

  lemma ClientSettled(s: System, p: nat, q: Process, step: Step)
    requires Faithful(s.rows, s.executed) && Settled(s.executed, q)
    requires !step.Start? && !step.ServerCommits? && StepEnabled(s, p, q, step)
    requires step.ServerRefuses? ==> !q.session.committed
    ensures Settled(s.executed, Stepped(s, q, step))
  {
    if step.ReadAndVerify? {
      VerifySettled(s, q, step.ok);
    } else if step.SkipApplied? || step.FinishLoop? {
      ScanSettled(s, p, q, step);
    } else if step.Begin? || step.RunSql? || step.Record? || step.SendCommit? {
      TransactionSettled(s, p, q, step);
    } else if step.ReceiveReply? {
      ReplySettled(s, p, q, step);
    } else {
      LockSettled(s, p, q, step);
    }
  }

  lemma VerifySettled(s: System, q: Process, ok: bool)
    requires Faithful(s.rows, s.executed) && Settled(s.executed, q)
    ensures Settled(s.executed, Stepped(s, q, ReadAndVerify(ok)))
  {
    if AppliedPrefix(q.catalog, s.rows) {
      VerifiedAgrees(q.catalog, s.rows, s.executed);
    }
  }

  lemma ScanSettled(s: System, p: nat, q: Process, step: Step)
    requires (step.SkipApplied? || step.FinishLoop?) && StepEnabled(s, p, q, step) && Settled(s.executed, q)
    ensures Settled(s.executed, Stepped(s, q, step))
  {
  }

  lemma TransactionSettled(s: System, p: nat, q: Process, step: Step)
    requires step.Begin? || step.RunSql? || step.Record? || step.SendCommit?
    requires StepEnabled(s, p, q, step) && Settled(s.executed, q)
    ensures Settled(s.executed, Stepped(s, q, step))
  {
  }

  lemma ReplySettled(s: System, p: nat, q: Process, step: Step)
    requires step.ReceiveReply? && StepEnabled(s, p, q, step) && Settled(s.executed, q)
    ensures Settled(s.executed, Stepped(s, q, step))
  {
  }

  predicate OutsideLoop(step: Step) {
    step.EnsureTable? || step.AcquireLock? || step.GrantUnseen? || step.ServerRefuses? || step.Unlock? || step.Crash?
    || step.EndSession?
  }

  lemma LockSettled(s: System, p: nat, q: Process, step: Step)
    requires OutsideLoop(step) && StepEnabled(s, p, q, step) && Settled(s.executed, q)
    requires step.ServerRefuses? ==> !q.session.committed
    ensures Settled(s.executed, Stepped(s, q, step))
  {
  }

  lemma CommitSettled(s: System, p: nat)
    requires Inv(s) && Enabled(s, p, ServerCommits)
    ensures Settled(Apply(s, p, ServerCommits).executed, Apply(s, p, ServerCommits).processes[p])
  {
    var q := s.processes[p];
    assert ProcessInv(s, p);
    var longer := Apply(s, p, ServerCommits).executed;
    SettledExtends(s.executed, longer, q);
    assert Agrees(q.catalog, longer, |longer|);
  }

  /** Matching checksums are matching SQL: a table that verifies is a table this catalog could have written. */
  lemma VerifiedAgrees(catalog: seq<Migration>, rows: Applied, executed: seq<Executed>)
    requires Contiguous(catalog) && AppliedPrefix(catalog, rows) && Faithful(rows, executed)
    ensures |rows| == |executed| && Agrees(catalog, executed, |executed|)
  {
    KeysCount(rows, |executed|);
    forall i | 0 <= i < |executed| ensures executed[i] == Executed(catalog[i].version, catalog[i].sql) {
      assert i + 1 in rows && Matches(catalog, i + 1, rows[i + 1]);
    }
  }

  ghost predicate SessionInv(s: System, p: nat)
    requires p in s.processes
  {
    var q := s.processes[p];
    if q.session.alive then Current(s, p, q) else q.session.inFlight.None?
  }

  lemma StepperCurrent(s: System, p: nat, step: Step)
    requires Inv(s) && Enabled(s, p, step)
    ensures p in Apply(s, p, step).processes && SessionInv(Apply(s, p, step), p)
  {
    if step.ServerCommits? {
      CommitCurrent(s, p);
    } else if step.ReadAndVerify? {
      VerifyCurrent(s, p, step);
    } else if step.SkipApplied? || step.ReceiveReply? || step.FinishLoop? {
      LoopCurrent(s, p, step);
    } else if step.Begin? || step.RunSql? || step.Record? || step.SendCommit? {
      TransactionCurrent(s, p, step);
    } else if step.Start? {
      StartCurrent(s, p, step);
    } else {
      assert ProcessInv(s, p);
      LockCurrent(s, p, step);
    }
  }

  lemma StartCurrent(s: System, p: nat, step: Step)
    requires step.Start? && Enabled(s, p, step)
    ensures p in Apply(s, p, step).processes && SessionInv(Apply(s, p, step), p)
  {
  }

  lemma LockCurrent(s: System, p: nat, step: Step)
    requires OutsideLoop(step) && Enabled(s, p, step) && ProcessInv(s, p)
    ensures SessionInv(Apply(s, p, step), p)
  {
    match step
    case EnsureTable(ok) => EnsureCurrent(s, p, ok);
    case AcquireLock(ok) => AcquireCurrent(s, p, ok);
    case GrantUnseen => GrantCurrent(s, p);
    case ServerRefuses => RefusalCurrent(s, p);
    case Unlock(ok) => UnlockCurrent(s, p, ok);
    case Crash => CrashCurrent(s, p);
    case EndSession => EndCurrent(s, p);
  }

  lemma EnsureCurrent(s: System, p: nat, ok: bool)
    requires Enabled(s, p, EnsureTable(ok)) && ProcessInv(s, p)
    ensures SessionInv(Apply(s, p, EnsureTable(ok)), p)
  {
  }

  lemma AcquireCurrent(s: System, p: nat, ok: bool)
    requires Enabled(s, p, AcquireLock(ok)) && ProcessInv(s, p)
    ensures SessionInv(Apply(s, p, AcquireLock(ok)), p)
  {
  }

  lemma GrantCurrent(s: System, p: nat)
    requires Enabled(s, p, GrantUnseen) && ProcessInv(s, p)
    ensures SessionInv(Apply(s, p, GrantUnseen), p)
  {
  }

  lemma RefusalCurrent(s: System, p: nat)
    requires Enabled(s, p, ServerRefuses) && ProcessInv(s, p)
    ensures SessionInv(Apply(s, p, ServerRefuses), p)
  {
  }

  lemma UnlockCurrent(s: System, p: nat, ok: bool)
    requires Enabled(s, p, Unlock(ok)) && ProcessInv(s, p)
    ensures SessionInv(Apply(s, p, Unlock(ok)), p)
  {
  }

  lemma CrashCurrent(s: System, p: nat)
    requires Enabled(s, p, Crash) && ProcessInv(s, p)
    ensures SessionInv(Apply(s, p, Crash), p)
  {
  }

  lemma EndCurrent(s: System, p: nat)
    requires Enabled(s, p, EndSession) && ProcessInv(s, p)
    ensures SessionInv(Apply(s, p, EndSession), p)
  {
  }

  lemma CommitCurrent(s: System, p: nat)
    requires Inv(s) && Enabled(s, p, ServerCommits)
    ensures SessionInv(Apply(s, p, ServerCommits), p)
  {
    assert ProcessInv(s, p);
  }

  lemma VerifyCurrent(s: System, p: nat, step: Step)
    requires Inv(s) && step.ReadAndVerify? && Enabled(s, p, step)
    ensures SessionInv(Apply(s, p, step), p)
  {
    assert ProcessInv(s, p);
    if AppliedPrefix(s.processes[p].catalog, s.rows) {
      VerifiedAgrees(s.processes[p].catalog, s.rows, s.executed);
    }
  }

  lemma LoopCurrent(s: System, p: nat, step: Step)
    requires Inv(s) && (step.SkipApplied? || step.ReceiveReply? || step.FinishLoop?) && Enabled(s, p, step)
    ensures SessionInv(Apply(s, p, step), p)
  {
    assert ProcessInv(s, p);
  }

  lemma TransactionCurrent(s: System, p: nat, step: Step)
    requires Inv(s) && (step.Begin? || step.RunSql? || step.Record? || step.SendCommit?) && Enabled(s, p, step)
    ensures SessionInv(Apply(s, p, step), p)
  {
    assert ProcessInv(s, p);
  }

  lemma StepFaithful(s: System, p: nat, step: Step)
    requires Inv(s) && Enabled(s, p, step)
    ensures Faithful(Apply(s, p, step).rows, Apply(s, p, step).executed)
  {
    if step.ServerCommits? {
      assert ProcessInv(s, p);
    }
  }

  lemma StepperKeeps(s: System, p: nat, step: Step)
    requires Inv(s) && Enabled(s, p, step)
    ensures p in Apply(s, p, step).processes && ProcessInv(Apply(s, p, step), p)
  {
    StepperSettled(s, p, step);
    StepperCurrent(s, p, step);
  }

  lemma StepBacked(s: System, p: nat, step: Step)
    requires Inv(s) && Enabled(s, p, step) && Apply(s, p, step).executed != []
    ensures Backed(Apply(s, p, step))
  {
    var after := Apply(s, p, step);
    if step.ServerCommits? {
      assert ProcessInv(s, p);
      assert Agrees(after.processes[p].catalog, after.executed, |after.executed|);
    } else {
      var o :| o in s.processes && Agrees(s.processes[o].catalog, s.executed, |s.executed|);
      ExecutedGrows(s, p, step);
      assert Agrees(after.processes[o].catalog, after.executed, |after.executed|);
    }
  }

  lemma StepKeepsInv(s: System, p: nat, step: Step)
    requires Inv(s) && Enabled(s, p, step)
    ensures Inv(Apply(s, p, step))
  {
    var after := Apply(s, p, step);
    StepFaithful(s, p, step);
    forall o | o in after.processes ensures ProcessInv(after, o) {
      if o == p {
        StepperKeeps(s, p, step);
      } else {
        BystanderKeeps(s, p, step, o);
      }
    }
    if after.executed != [] {
      StepBacked(s, p, step);
    }
  }

  // ----- runs -----

  datatype Action = Action(process: nat, step: Step)

  /** The system after a run of actions from the empty database; None when some action was not possible. */
  ghost function After(actions: seq<Action>): Option<System> {
    if actions == [] then Some(INITIAL)
    else
      var before, last := After(actions[..|actions| - 1]), actions[|actions| - 1];
      if before.Some? && Enabled(before.value, last.process, last.step)
      then Some(Apply(before.value, last.process, last.step))
      else None
  }

  lemma {:induction false} RunKeepsInv(actions: seq<Action>)
    requires After(actions).Some?
    ensures Inv(After(actions).value)
  {
    if actions != [] {
      var before, last := actions[..|actions| - 1], actions[|actions| - 1];
      RunKeepsInv(before);
      StepKeepsInv(After(before).value, last.process, last.step);
    }
  }

  // ----- main results -----

  predicate LiveInside(s: System, p: nat) {
    p in s.processes && s.processes[p].session.alive && InsideLock(s.processes[p].pc)
  }

  /** In every state of every run, with any catalogs, crashes, failures and late commits: the table holds versions
      1..k; the executed SQL is those k migrations, each once and in order, with matching checksums, and a prefix of
      some process's catalog; every process that returned success has its whole catalog executed; and at most one
      live session is inside the lock. */
  lemma EveryRunIsSafe(actions: seq<Action>)
    requires After(actions).Some?
    ensures var s := After(actions).value;
            && Faithful(s.rows, s.executed)
            && (s.executed != [] ==> Backed(s))
            && (forall p :: p in s.processes && s.processes[p].pc == Returned(Success) ==>
                  Agrees(s.processes[p].catalog, s.executed, |s.processes[p].catalog|))
            && (forall p, o :: LiveInside(s, p) && LiveInside(s, o) ==> p == o)
  {
    RunKeepsInv(actions);
    var s := After(actions).value;
    forall p | p in s.processes ensures ProcessInv(s, p) { }
  }

  /** What has been executed is never undone or reordered later in the run. */
  lemma {:induction false} ExecutedIsAppendOnly(actions: seq<Action>, k: nat)
    requires k <= |actions| && After(actions).Some?
    ensures After(actions[..k]).Some? && After(actions[..k]).value.executed <= After(actions).value.executed
    decreases |actions| - k
  {
    if k < |actions| {
      ExecutedIsAppendOnly(actions, k + 1);
      var longer, last := actions[..k + 1], actions[k];
      assert longer[..|longer| - 1] == actions[..k] && longer[|longer| - 1] == last;
      ExecutedGrows(After(actions[..k]).value, last.process, last.step);
    } else {
      assert actions[..k] == actions;
    }
  }

  /** With one catalog for everybody, the table is always a prefix of it, and a success means all of it. */
  lemma OneCatalog(actions: seq<Action>, catalog: seq<Migration>)
    requires After(actions).Some?
    requires forall p :: p in After(actions).value.processes ==> After(actions).value.processes[p].catalog == catalog
    ensures var s := After(actions).value;
            && (s.processes == map[] || AppliedPrefix(catalog, s.rows))
            && |s.executed| <= |catalog| && s.executed == Log(catalog)[..|s.executed|]
            && (forall p :: p in s.processes && s.processes[p].pc == Returned(Success) ==> s.executed == Log(catalog))
  {
    EveryRunIsSafe(actions);
    var s := After(actions).value;
    KeysCount(s.rows, |s.executed|);
    if s.executed != [] {
      assert Agrees(catalog, s.executed, |s.executed|);
    }
  }
}
