/** Accounts, linked GitHub identities and sessions: what every transaction does to the three tables.
    A transaction is one atomic step; a digest stands for the credential it was computed from. */
module Sessions {
  import opened Options
  import opened Sets

  type Digest = nat
  type AccountId = nat
  type UserId = int

  const MAXIMUM_ACTIVE := 50

  datatype Session = Session(
    id: nat, account: AccountId, csrf: Digest, expiresAt: int, createdAt: int, revokedAt: Option<int>)

  datatype Identity = Identity(account: AccountId, profile: string)

  datatype Status = Active | Deleting

  type Table = map<Digest, Session>

  datatype Database = Database(accounts: map<AccountId, Status>, identities: map<UserId, Identity>, sessions: Table)

  /** auth.SessionDraft; the identity is valid or not. */
  datatype Draft = Draft(
    id: nat, account: AccountId, token: Digest, csrf: Digest, user: UserId, profile: string, identityValid: bool,
    expiresAt: int, createdAt: int, maxActive: int)
  {
    /** validateSessionDraft; zero stands for an id that does not parse and for the zero digest. */
    predicate Valid() {
      && id != 0 && account != 0 && token != 0 && csrf != 0 && createdAt < expiresAt
      && 1 <= maxActive <= MAXIMUM_ACTIVE && identityValid
    }
  }

  datatype Failure = InvalidConfiguration | SessionNotFound | QueryFailed
  datatype Outcome<T> = Done(value: T) | Failed(failure: Failure)

  // ----- sessions -----

  predicate Live(s: Table, token: Digest) {
    token in s && s[token].revokedAt.None?
  }

  function LiveOf(s: Table, account: AccountId): set<Digest> {
    set t | t in s && s[t].account == account && s[t].revokedAt.None?
  }

  function Revoke(s: Table, gone: set<Digest>, now: int): Table {
    map t | t in s :: if t in gone then s[t].(revokedAt := Some(now)) else s[t]
  }

  /** The table refuses a revocation before the creation of the row, and the statement with it. */
  predicate CanRevoke(s: Table, gone: set<Digest>, now: int) {
    forall t :: t in gone && t in s ==> s[t].createdAt <= now
  }

  predicate Newer(x: Session, y: Session) {
    x.createdAt > y.createdAt || (x.createdAt == y.createdAt && x.id > y.id)
  }

  function NewerThan(s: Table, among: set<Digest>, t: Digest): set<Digest>
    requires t in s
  {
    set u | u in among && u in s && Newer(s[u], s[t])
  }

  function Others(s: Table, account: AccountId, currentId: nat): set<Digest> {
    set t | t in s && s[t].account == account && s[t].id != currentId && s[t].revokedAt.None?
  }

  /** ORDER BY created_at DESC, id DESC OFFSET keep: the rows with at least keep newer ones. */
  function Excess(s: Table, among: set<Digest>, keep: nat): set<Digest> {
    set t | t in among && t in s && |NewerThan(s, among, t)| >= keep
  }

  predicate IdUsed(s: Table, id: nat) {
    exists t :: t in s && s[t].id == id
  }

  function SessionOf(account: AccountId, d: Draft): Session {
    Session(d.id, account, d.csrf, d.expiresAt, d.createdAt, None)
  }

  /** insertSession and trimActiveSessions. */
  function WithSession(s: Table, account: AccountId, d: Draft, now: int): Outcome<Table>
    requires d.maxActive >= 1
  {
    if d.token in s || IdUsed(s, d.id) then Failed(QueryFailed)
    else
      var grown := s[d.token := SessionOf(account, d)];
      var gone := Excess(grown, Others(grown, account, d.id), d.maxActive - 1);
      if CanRevoke(grown, gone, now) then Done(Revoke(grown, gone, now)) else Failed(QueryFailed)
  }

  // ----- transactions -----

  /** findOrCreateIdentity: the account a GitHub user logs in to. */
  function AccountFor(db: Database, d: Draft): Option<AccountId> {
    if d.user in db.identities then
      var account := db.identities[d.user].account;
      if account in db.accounts && db.accounts[account].Active? then Some(account) else None
    else if d.account in db.accounts then None
    else Some(d.account)
  }

  function WithIdentity(db: Database, account: AccountId, d: Draft): Database {
    db.(accounts := if account in db.accounts then db.accounts else db.accounts[account := Active],
        identities := db.identities[d.user := Identity(account, d.profile)])
  }

  function Login(db: Database, d: Draft): Outcome<Database> {
    if !d.Valid() then Failed(InvalidConfiguration)
    else if AccountFor(db, d).None? then Failed(QueryFailed)
    else
      var account := AccountFor(db, d).value;
      match WithSession(db.sessions, account, d, d.createdAt)
      case Failed(f) => Failed(f)
      case Done(s) => Done(WithIdentity(db, account, d).(sessions := s))
  }

  predicate Usable(s: Table, token: Digest, now: int) {
    Live(s, token) && now < s[token].expiresAt
  }

  function Rotate(db: Database, current: Digest, d: Draft, now: int): Outcome<Database> {
    if !d.Valid() then Failed(InvalidConfiguration)
    else if !Usable(db.sessions, current, now) then Failed(SessionNotFound)
    else if now < db.sessions[current].createdAt || db.sessions[current].account != d.account then Failed(QueryFailed)
    else
      match WithSession(Revoke(db.sessions, {current}, now), d.account, d, now)
      case Failed(f) => Failed(f)
      case Done(s) => Done(db.(sessions := s))
  }

  function RevokeOne(db: Database, token: Digest, now: int): Outcome<Database> {
    if !Live(db.sessions, token) then Failed(SessionNotFound)
    else if now < db.sessions[token].createdAt then Failed(QueryFailed)
    else Done(db.(sessions := Revoke(db.sessions, {token}, now)))
  }

  function RevokeAll(db: Database, account: AccountId, now: int): Outcome<Database> {
    var gone := LiveOf(db.sessions, account);
    if !CanRevoke(db.sessions, gone, now) then Failed(QueryFailed)
    else Done(db.(sessions := Revoke(db.sessions, gone, now)))
  }

  /** Deleting an account takes its identity and its sessions with it. */
  function Deleted(db: Database, account: AccountId): Database {
    Database(
      db.accounts - {account},
      map u | u in db.identities && db.identities[u].account != account :: db.identities[u],
      map t | t in db.sessions && db.sessions[t].account != account :: db.sessions[t])
  }

  /** The session a token authenticates: unrevoked, unexpired, of an active account with an identity. */
  predicate Authenticates(db: Database, token: Digest, now: int, user: UserId) {
    && Usable(db.sessions, token, now)
    && user in db.identities && db.identities[user].account == db.sessions[token].account
    && db.sessions[token].account in db.accounts && db.accounts[db.sessions[token].account].Active?
  }

  // ----- calls -----

  /** What a transaction can meet: it commits and answers, it commits but the answer is lost, it is rolled back later
      on, or neither it nor its first statement gets through. */
  datatype Fault = Answered | ReplyLost | RolledBack | NotBegun {
    predicate Commits() {
      Answered? || ReplyLost?
    }
  }

  /** The calls of the repository; an account is marked as deleting by hand, no code does it. */
  datatype Event =
    | LoggedIn(draft: Draft, fault: Fault)
    | Rotated(current: Digest, draft: Draft, now: int, fault: Fault)
    | Revoked(token: Digest, now: int, fault: Fault)
    | RevokedAll(account: AccountId, now: int, fault: Fault)
    | MarkedDeleting(account: AccountId)
    | AccountDeleted(account: AccountId, fault: Fault)

  function Attempt(db: Database, e: Event): Outcome<Database> {
    match e
    case LoggedIn(d, _) => Login(db, d)
    case Rotated(current, d, now, _) => Rotate(db, current, d, now)
    case Revoked(token, now, _) => RevokeOne(db, token, now)
    case RevokedAll(account, now, _) => RevokeAll(db, account, now)
    case MarkedDeleting(account) =>
      Done(if account in db.accounts then db.(accounts := db.accounts[account := Deleting]) else db)
    case AccountDeleted(account, _) => Done(Deleted(db, account))
  }

  predicate Commits(db: Database, e: Event) {
    Attempt(db, e).Done? && (e.MarkedDeleting? || e.fault.Commits())
  }

  function After(db: Database, e: Event): Database {
    if Commits(db, e) then Attempt(db, e).value else db
  }

  // ----- what the schema guarantees -----

  predicate Owned(db: Database, account: AccountId) {
    exists u :: u in db.identities && db.identities[u].account == account
  }

  ghost predicate Linked(db: Database) {
    && (forall t :: t in db.sessions ==> db.sessions[t].account in db.accounts)
    && (forall u :: u in db.identities ==> db.identities[u].account in db.accounts)
    && (forall a :: a in db.accounts ==> Owned(db, a))
    && OneAccountEach(db.identities)
    && DistinctIds(db.sessions)
  }

  ghost predicate OneAccountEach(identities: map<UserId, Identity>) {
    forall u, v :: u in identities && v in identities && u != v ==> identities[u].account != identities[v].account
  }

  ghost predicate DistinctIds(s: Table) {
    forall t, u :: t in s && u in s && t != u ==> s[t].id != s[u].id
  }

  // ----- trimming -----

  predicate IsOldest(s: Table, among: set<Digest>, o: Digest)
    requires among <= s.Keys
  {
    o in among && forall t :: t in among && t != o ==> Newer(s[t], s[o]) && !Newer(s[o], s[t])
  }

  lemma {:induction false} Oldest(s: Table, among: set<Digest>) returns (o: Digest)
    requires among <= s.Keys && among != {} && DistinctIds(s)
    ensures IsOldest(s, among, o)
    decreases among
  {
    SomeMember(among);
    var x :| x in among;
    var rest := among - {x};
    o := x;
    assert among == rest + {x};
    if rest != {} {
      var p := Oldest(s, rest);
      assert s[x].id != s[p].id;
      o := if Newer(s[x], s[p]) then p else x;
      forall t | t in among && t != o ensures Newer(s[t], s[o]) && !Newer(s[o], s[t]) {
        assert t == x || t == p || Newer(s[t], s[p]);
      }
    }
  }

  lemma RankWithoutOldest(s: Table, among: set<Digest>, o: Digest, t: Digest)
    requires among <= s.Keys && IsOldest(s, among, o) && t in among
    ensures NewerThan(s, among, t) == if t == o then among - {o} else NewerThan(s, among - {o}, t)
  {
    assert !Newer(s[o], s[o]);
  }

  lemma ExcessWithoutOldest(s: Table, among: set<Digest>, o: Digest, keep: nat)
    requires among <= s.Keys && IsOldest(s, among, o)
    ensures Excess(s, among - {o}, keep) == Excess(s, among, keep) - {o}
    ensures o in Excess(s, among, keep) <==> |among - {o}| >= keep
  {
    forall t | t in among
      ensures NewerThan(s, among, t) == if t == o then among - {o} else NewerThan(s, among - {o}, t)
    {
      RankWithoutOldest(s, among, o, t);
    }
  }

  /** A cut after keep rows in a strict order leaves keep rows, or all of them when there are fewer. */
  lemma {:induction false} CutSize(s: Table, among: set<Digest>, keep: nat)
    requires among <= s.Keys && DistinctIds(s)
    ensures |among - Excess(s, among, keep)| == if |among| < keep then |among| else keep
    decreases among
  {
    if among != {} {
      var o := Oldest(s, among);
      CutSize(s, among - {o}, keep);
      ExcessWithoutOldest(s, among, o, keep);
      KeptSize(among, o, Excess(s, among, keep));
    }
  }

  lemma KeptSize(among: set<Digest>, o: Digest, gone: set<Digest>)
    requires o in among
    ensures |among - {o}| == |among| - 1
    ensures |among - gone| == |(among - {o}) - (gone - {o})| + if o in gone then 0 else 1
  {
    var kept, rest := among - gone, (among - {o}) - (gone - {o});
    if o in gone {
      assert kept == rest;
    } else {
      assert kept == rest + {o};
    }
  }

  // ----- one transaction -----

  /** The schema's guarantees survive an insert and a trim, and the account ends with at most maxActive live sessions:
      the new one, and of the others those with fewer than maxActive - 1 newer ones. */
  lemma SessionAdded(s: Table, account: AccountId, d: Draft, now: int)
    requires DistinctIds(s) && d.maxActive >= 1 && WithSession(s, account, d, now).Done?
    ensures var after := WithSession(s, account, d, now).value;
      && DistinctIds(after) && d.token !in s && after.Keys == s.Keys + {d.token}
      && (forall t :: t in s ==> after[t].account == s[t].account)
      && after[d.token] == SessionOf(account, d)
      && LiveOf(after, account) == {d.token} + (LiveOf(s, account) - Excess(s, LiveOf(s, account), d.maxActive - 1))
      && (forall other :: other != account ==> LiveOf(after, other) == LiveOf(s, other))
  {
    var grown := s[d.token := SessionOf(account, d)];
    var others := Others(grown, account, d.id);
    forall t | t in s ensures s[t].id != d.id { assert !IdUsed(s, d.id); }
    assert others == LiveOf(s, account);
    forall t | t in others ensures NewerThan(grown, others, t) == NewerThan(s, others, t) {}
    assert Excess(grown, others, d.maxActive - 1) == Excess(s, others, d.maxActive - 1);
  }

  lemma LiveBounded(s: Table, account: AccountId, d: Draft, now: int)
    requires DistinctIds(s) && d.maxActive >= 1 && WithSession(s, account, d, now).Done?
    ensures var after := LiveOf(WithSession(s, account, d, now).value, account);
      |after| == if |LiveOf(s, account)| < d.maxActive then |LiveOf(s, account)| + 1 else d.maxActive
  {
    SessionAdded(s, account, d, now);
    CutSize(s, LiveOf(s, account), d.maxActive - 1);
  }

  /** A trim never revokes a session and keeps an older one. */
  lemma NewestSurvive(s: Table, account: AccountId, d: Draft, now: int, kept: Digest, newer: Digest)
    requires DistinctIds(s) && d.maxActive >= 1 && WithSession(s, account, d, now).Done?
    requires kept in LiveOf(s, account) && newer in LiveOf(s, account) && Newer(s[newer], s[kept])
    requires Live(WithSession(s, account, d, now).value, kept)
    ensures Live(WithSession(s, account, d, now).value, newer)
  {
    SessionAdded(s, account, d, now);
    var live, after := LiveOf(s, account), WithSession(s, account, d, now).value;
    assert kept in LiveOf(after, account);
    assert NewerThan(s, live, newer) <= NewerThan(s, live, kept);
    SubsetSize(NewerThan(s, live, newer), NewerThan(s, live, kept));
    assert newer in LiveOf(after, account);
  }
}
