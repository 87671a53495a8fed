/** Whole runs of the session repository: any sequence of calls, with lost replies and rollbacks. */
module SessionRuns {
  import opened Sets
  import opened Sessions

  const EMPTY := Database(map[], map[], map[])

  function Run(events: seq<Event>): Database {
    if events == [] then EMPTY else After(Run(events[..|events| - 1]), events[|events| - 1])
  }

  lemma RunStep(events: seq<Event>, i: nat)
    requires i < |events|
    ensures Run(events[..i + 1]) == After(Run(events[..i]), events[i])
  {
    assert events[..i + 1][..i] == events[..i];
  }

  // ----- what every step keeps -----

  lemma LoginKeepsLinks(db: Database, d: Draft)
    requires Linked(db) && Login(db, d).Done?
    ensures Linked(Login(db, d).value)
  {
    var account := AccountFor(db, d).value;
    var after := Login(db, d).value;
    SessionAdded(db.sessions, account, d, d.createdAt);
    forall a | a in after.accounts ensures Owned(after, a) {
      if a == account {
        assert after.identities[d.user].account == a;
      } else {
        assert Owned(db, a);
        var u :| u in db.identities && db.identities[u].account == a;
        assert u in after.identities && after.identities[u].account == a;
      }
    }
  }

  lemma RevokeKeepsIds(s: Table, gone: set<Digest>, now: int)
    requires DistinctIds(s)
    ensures DistinctIds(Revoke(s, gone, now))
  {
  }

  lemma RotateKeepsLinks(db: Database, current: Digest, d: Draft, now: int)
    requires Linked(db) && Rotate(db, current, d, now).Done?
    ensures Linked(Rotate(db, current, d, now).value)
  {
    RevokeKeepsIds(db.sessions, {current}, now);
    SessionAdded(Revoke(db.sessions, {current}, now), d.account, d, now);
    OwnersUnchanged(db, Rotate(db, current, d, now).value);
  }

  lemma OwnersUnchanged(db: Database, after: Database)
    requires forall a :: a in db.accounts ==> Owned(db, a)
    requires after.accounts.Keys == db.accounts.Keys && after.identities == db.identities
    ensures forall a :: a in after.accounts ==> Owned(after, a)
  {
    forall a | a in after.accounts ensures Owned(after, a) {
      assert Owned(db, a);
      var u :| u in db.identities && db.identities[u].account == a;
      assert u in after.identities && after.identities[u].account == a;
    }
  }

  lemma DeletionKeepsLinks(db: Database, account: AccountId)
    requires Linked(db)
    ensures Linked(Deleted(db, account))
  {
    var after := Deleted(db, account);
    forall a | a in after.accounts ensures Owned(after, a) {
      assert Owned(db, a);
      var u :| u in db.identities && db.identities[u].account == a;
      assert u in after.identities && after.identities[u].account == a;
    }
  }

  /** Every session has an account, every account exactly one identity, every identity its own account. */
  lemma StepKeepsLinks(db: Database, e: Event)
    requires Linked(db)
    ensures Linked(After(db, e))
  {
    if Commits(db, e) {
      match e
      case LoggedIn(d, _) => LoginKeepsLinks(db, d);
      case Rotated(current, d, now, _) => RotateKeepsLinks(db, current, d, now);
      case Revoked(token, now, _) =>
        RevokeKeepsIds(db.sessions, {token}, now);
        OwnersUnchanged(db, After(db, e));
      case RevokedAll(account, now, _) =>
        RevokeKeepsIds(db.sessions, LiveOf(db.sessions, account), now);
        OwnersUnchanged(db, After(db, e));
      case MarkedDeleting(account) => OwnersUnchanged(db, After(db, e));
      case AccountDeleted(account, _) => DeletionKeepsLinks(db, account);
    }
  }

  lemma {:induction false} RunKeepsLinks(events: seq<Event>)
    ensures Linked(Run(events))
  {
    if events != [] {
      RunKeepsLinks(events[..|events| - 1]);
      StepKeepsLinks(Run(events[..|events| - 1]), events[|events| - 1]);
    }
  }

  // ----- the bound -----

  predicate Issues(e: Event, token: Digest) {
    (e.LoggedIn? || e.Rotated?) && e.draft.token == token
  }

  lemma RevokeShrinks(s: Table, gone: set<Digest>, now: int, account: AccountId)
    ensures LiveOf(Revoke(s, gone, now), account) == LiveOf(s, account) - gone
    ensures |LiveOf(Revoke(s, gone, now), account)| <= |LiveOf(s, account)|
  {
    SubsetSize(LiveOf(Revoke(s, gone, now), account), LiveOf(s, account));
  }

  lemma AdditionKeepsBound(s: Table, owner: AccountId, d: Draft, now: int, account: AccountId, bound: nat)
    requires DistinctIds(s) && 1 <= d.maxActive <= bound && WithSession(s, owner, d, now).Done?
    requires |LiveOf(s, account)| <= bound
    ensures |LiveOf(WithSession(s, owner, d, now).value, account)| <= bound
  {
    SessionAdded(s, owner, d, now);
    LiveBounded(s, owner, d, now);
  }

  lemma RotationKeepsBound(
    db: Database, current: Digest, d: Draft, now: int, account: AccountId, bound: nat)
    requires Linked(db) && Rotate(db, current, d, now).Done? && d.maxActive <= bound
    requires |LiveOf(db.sessions, account)| <= bound
    ensures |LiveOf(Rotate(db, current, d, now).value.sessions, account)| <= bound
  {
    RevokeKeepsIds(db.sessions, {current}, now);
    RevokeShrinks(db.sessions, {current}, now, account);
    AdditionKeepsBound(Revoke(db.sessions, {current}, now), d.account, d, now, account, bound);
  }

  lemma StepKeepsBound(db: Database, e: Event, account: AccountId, bound: nat)
    requires Linked(db) && |LiveOf(db.sessions, account)| <= bound
    requires e.LoggedIn? || e.Rotated? ==> e.draft.maxActive <= bound
    ensures |LiveOf(After(db, e).sessions, account)| <= bound
  {
    if Commits(db, e) {
      match e
      case LoggedIn(d, _) => AdditionKeepsBound(db.sessions, AccountFor(db, d).value, d, d.createdAt, account, bound);
      case Rotated(current, d, now, _) =>
        RotationKeepsBound(db, current, d, now, account, bound);
      case Revoked(token, now, _) => RevokeShrinks(db.sessions, {token}, now, account);
      case RevokedAll(a, now, _) => RevokeShrinks(db.sessions, LiveOf(db.sessions, a), now, account);
      case MarkedDeleting(_) =>
      case AccountDeleted(_, _) => SubsetSize(LiveOf(After(db, e).sessions, account), LiveOf(db.sessions, account));
    }
  }

  /** With one configured maximum, no account ever has more live sessions than that. */
  lemma {:induction false} LiveSessionsBounded(events: seq<Event>, account: AccountId, bound: nat)
    requires forall i :: 0 <= i < |events| && (events[i].LoggedIn? || events[i].Rotated?) ==>
      events[i].draft.maxActive <= bound
    ensures |LiveOf(Run(events).sessions, account)| <= bound
  {
    if events == [] {
      assert LiveOf(EMPTY.sessions, account) == {};
    } else {
      var n := |events| - 1;
      LiveSessionsBounded(events[..n], account, bound);
      RunKeepsLinks(events[..n]);
      StepKeepsBound(Run(events[..n]), events[n], account, bound);
    }
  }

  // ----- revocation is final -----

  /** No step brings a session to life except by issuing its token. */
  lemma StepRevivesNothing(db: Database, e: Event, token: Digest)
    requires Linked(db) && !Live(db.sessions, token) && !Issues(e, token)
    ensures !Live(After(db, e).sessions, token)
  {
    if Commits(db, e) {
      match e
      case LoggedIn(d, _) => SessionAdded(db.sessions, AccountFor(db, d).value, d, d.createdAt);
      case Rotated(current, d, now, _) => RevokeKeepsIds(db.sessions, {current}, now);
      case Revoked(_, _, _) =>
      case RevokedAll(_, _, _) =>
      case MarkedDeleting(_) =>
      case AccountDeleted(_, _) =>
    }
  }

  /** The generator never repeats a token. */
  ghost predicate FreshTokens(events: seq<Event>) {
    forall i, j, t :: 0 <= i < j < |events| && Issues(events[i], t) ==> !Issues(events[j], t)
  }

  lemma {:induction false} StaysDead(events: seq<Event>, i: nat, j: nat, token: Digest)
    requires i <= j <= |events| && !Live(Run(events[..i]).sessions, token)
    requires forall k :: i <= k < j ==> !Issues(events[k], token)
    ensures !Live(Run(events[..j]).sessions, token)
  {
    if i < j {
      StaysDead(events, i, j - 1, token);
      RunStep(events, j - 1);
      RunKeepsLinks(events[..j - 1]);
      StepRevivesNothing(Run(events[..j - 1]), events[j - 1], token);
    }
  }

  /** What ends a session: its revocation, the revocation of all sessions of its account, its rotation, or the
      deletion of the account. */
  predicate Ends(db: Database, e: Event, token: Digest) {
    && Commits(db, e) && token in db.sessions
    && match e
       case LoggedIn(_, _) => false
       case Rotated(current, _, _, _) => token == current
       case Revoked(t, _, _) => token == t
       case RevokedAll(account, _, _) => db.sessions[token].account == account
       case MarkedDeleting(_) => false
       case AccountDeleted(account, _) => db.sessions[token].account == account
  }

  lemma EndedIsDead(db: Database, e: Event, token: Digest)
    requires Linked(db) && Ends(db, e, token)
    ensures !Live(After(db, e).sessions, token)
  {
    if e.Rotated? {
      var s := Revoke(db.sessions, {e.current}, e.now);
      RevokeKeepsIds(db.sessions, {e.current}, e.now);
      SessionAdded(s, e.draft.account, e.draft, e.now);
    }
  }

  /** A session that was ended never authenticates again. */
  lemma EndedNeverAuthenticates(events: seq<Event>, i: nat, j: nat, token: Digest, now: int, user: UserId)
    requires i < j <= |events| && FreshTokens(events) && Ends(Run(events[..i]), events[i], token)
    ensures !Authenticates(Run(events[..j]), token, now, user)
  {
    var k := IssuedWith(events[..i], token);
    assert Issues(events[k], token);
    RunKeepsLinks(events[..i]);
    RunStep(events, i);
    EndedIsDead(Run(events[..i]), events[i], token);
    StaysDead(events, i + 1, j, token);
  }

  /** The same for a session that a trim revoked: once dead, dead for good. */
  lemma DeadNeverAuthenticates(events: seq<Event>, i: nat, j: nat, token: Digest, now: int, user: UserId)
    requires i <= j <= |events| && FreshTokens(events)
    requires token in Run(events[..i]).sessions && !Live(Run(events[..i]).sessions, token)
    ensures !Authenticates(Run(events[..j]), token, now, user)
  {
    var k := IssuedWith(events[..i], token);
    assert Issues(events[k], token);
    StaysDead(events, i, j, token);
  }

  /** Equal in everything that a session is issued with. */
  predicate SameIssue(x: Session, y: Session) {
    x.id == y.id && x.account == y.account && x.csrf == y.csrf && x.expiresAt == y.expiresAt
    && x.createdAt == y.createdAt
  }

  lemma StepKeys(db: Database, e: Event, token: Digest)
    requires token in After(db, e).sessions && (!Commits(db, e) || !Issues(e, token))
    ensures token in db.sessions && SameIssue(After(db, e).sessions[token], db.sessions[token])
  {
  }

  // ----- rotation -----

  function Issuances(events: seq<Event>, token: Digest): nat {
    if events == [] then 0
    else
      var n := |events| - 1;
      Issuances(events[..n], token) + if Commits(Run(events[..n]), events[n]) && Issues(events[n], token) then 1 else 0
  }

  function Rotations(events: seq<Event>, token: Digest): nat {
    if events == [] then 0
    else
      var n := |events| - 1;
      Rotations(events[..n], token)
      + if Commits(Run(events[..n]), events[n]) && events[n].Rotated? && events[n].current == token then 1 else 0
  }

  /** Every token is rotated at most as often as it was issued. */
  lemma {:induction false} RotationsWithinIssuances(events: seq<Event>, token: Digest)
    ensures Rotations(events, token) + (if Live(Run(events).sessions, token) then 1 else 0) <= Issuances(events, token)
  {
    if events != [] {
      var n := |events| - 1;
      var db, e := Run(events[..n]), events[n];
      RotationsWithinIssuances(events[..n], token);
      RunKeepsLinks(events[..n]);
      if !Issues(e, token) && !Live(db.sessions, token) { StepRevivesNothing(db, e, token); }
      if Commits(db, e) && e.Rotated? && e.current == token { RotationReplaces(db, e); }
    }
  }

  lemma {:induction false} IssuedOnce(events: seq<Event>, token: Digest)
    requires FreshTokens(events)
    ensures Issuances(events, token) <= 1
    ensures Issuances(events, token) == 1 ==> exists k :: 0 <= k < |events| && Issues(events[k], token)
  {
    if events != [] {
      var n := |events| - 1;
      IssuedOnce(events[..n], token);
      if Issues(events[n], token) {
        forall k | 0 <= k < n ensures !Issues(events[..n][k], token) { assert Issues(events[n], token); }
      }
    }
  }

  /** With fresh tokens every token is rotated at most once in a run. */
  lemma FreshTokenRotatedOnce(events: seq<Event>, token: Digest)
    requires FreshTokens(events)
    ensures Rotations(events, token) <= 1
    ensures Live(Run(events).sessions, token) ==> Rotations(events, token) == 0
  {
    IssuedOnce(events, token);
    RotationsWithinIssuances(events, token);
  }

  /** A rotation ends the current session and starts one of the same account. */
  lemma RotationReplaces(db: Database, e: Event)
    requires Linked(db) && e.Rotated? && Commits(db, e)
    ensures var after := After(db, e).sessions;
      && Usable(db.sessions, e.current, e.now) && !Live(after, e.current) && Live(after, e.draft.token)
      && after[e.draft.token].account == db.sessions[e.current].account
      && e.draft.token !in db.sessions
  {
    RevokeKeepsIds(db.sessions, {e.current}, e.now);
    SessionAdded(Revoke(db.sessions, {e.current}, e.now), e.draft.account, e.draft, e.now);
  }

  // ----- identities -----

  /** The account of a user changes only when it is deleted. */
  lemma StepKeepsAccount(db: Database, e: Event, user: UserId)
    requires Linked(db) && user in db.identities && db.identities[user].account in After(db, e).accounts
    ensures user in After(db, e).identities && After(db, e).identities[user].account == db.identities[user].account
  {
  }

  ghost predicate ExistsThroughout(events: seq<Event>, i: nat, j: nat, account: AccountId)
    requires i <= j <= |events|
  {
    forall k :: i <= k <= j ==> account in Run(events[..k]).accounts
  }

  lemma {:induction false} AccountKept(events: seq<Event>, i: nat, j: nat, user: UserId)
    requires i <= j <= |events| && user in Run(events[..i]).identities
    requires ExistsThroughout(events, i, j, Run(events[..i]).identities[user].account)
    ensures user in Run(events[..j]).identities
    ensures Run(events[..j]).identities[user].account == Run(events[..i]).identities[user].account
  {
    if i < j {
      AccountKept(events, i, j - 1, user);
      RunStep(events, j - 1);
      RunKeepsLinks(events[..j - 1]);
      assert Run(events[..i]).identities[user].account in Run(events[..j]).accounts;
      StepKeepsAccount(Run(events[..j - 1]), events[j - 1], user);
    }
  }

  lemma LoginLinks(db: Database, e: Event)
    requires Linked(db) && e.LoggedIn? && Commits(db, e)
    ensures var after := After(db, e);
      && Live(after.sessions, e.draft.token) && e.draft.user in after.identities
      && after.identities[e.draft.user].account == after.sessions[e.draft.token].account
  {
    SessionAdded(db.sessions, AccountFor(db, e.draft).value, e.draft, e.draft.createdAt);
  }

  predicate BelongsTo(db: Database, token: Digest, account: AccountId) {
    token in db.sessions && db.sessions[token].account == account
  }

  /** All logins of one GitHub user reach the same account while it exists. */
  lemma LoginsAgree(events: seq<Event>, i: nat, j: nat)
    requires i < j < |events| && events[i].LoggedIn? && events[j].LoggedIn?
    requires events[i].draft.user == events[j].draft.user
    requires Commits(Run(events[..i]), events[i]) && Commits(Run(events[..j]), events[j])
    requires ExistsThroughout(events, i + 1, j, AccountFor(Run(events[..i]), events[i].draft).value)
    ensures var account := AccountFor(Run(events[..i]), events[i].draft).value;
      && BelongsTo(Run(events[..i + 1]), events[i].draft.token, account)
      && BelongsTo(Run(events[..j + 1]), events[j].draft.token, account)
  {
    RunStep(events, i);
    RunStep(events, j);
    RunKeepsLinks(events[..i]);
    RunKeepsLinks(events[..j]);
    LoginLinks(Run(events[..i]), events[i]);
    LoginLinks(Run(events[..j]), events[j]);
    AccountKept(events, i + 1, j, events[i].draft.user);
  }

  // ----- where a session comes from -----

  predicate LinkedTo(db: Database, user: UserId, token: Digest) {
    && token in db.sessions && user in db.identities
    && db.identities[user].account == db.sessions[token].account
  }

  /** The session a live session replaced in a step, or itself. */
  function Predecessor(db: Database, e: Event, token: Digest): Digest {
    if Commits(db, e) && e.Rotated? && Issues(e, token) then e.current else token
  }

  /** Whoever a session belonged to before a step, it or its replacement belongs to after it. */
  lemma StepKeepsUser(db: Database, e: Event, user: UserId, token: Digest)
    requires Linked(db) && token in After(db, e).sessions
    requires !(Commits(db, e) && e.LoggedIn? && Issues(e, token))
    requires LinkedTo(db, user, Predecessor(db, e, token))
    ensures LinkedTo(After(db, e), user, token)
  {
    StepKeepsLinks(db, e);
    if Predecessor(db, e, token) == token {
      StepKeys(db, e, token);
    } else {
      RotationReplaces(db, e);
    }
    StepKeepsAccount(db, e, user);
  }

  lemma PredecessorExists(db: Database, e: Event, token: Digest)
    requires Linked(db) && token in After(db, e).sessions
    requires !(Commits(db, e) && e.LoggedIn? && Issues(e, token))
    ensures Predecessor(db, e, token) in db.sessions
  {
    if !(Commits(db, e) && Issues(e, token)) { StepKeys(db, e, token); }
  }

  /** Every session, rotated or not, traces back to a committed login of the user its account belongs to. */
  lemma {:induction false} TracesToLogin(events: seq<Event>, token: Digest) returns (k: nat)
    requires token in Run(events).sessions
    ensures k < |events| && events[k].LoggedIn? && Commits(Run(events[..k]), events[k])
    ensures LinkedTo(Run(events), events[k].draft.user, token)
    decreases |events|
  {
    var n := |events| - 1;
    var rest, e := events[..n], events[n];
    RunKeepsLinks(rest);
    if Commits(Run(rest), e) && e.LoggedIn? && Issues(e, token) {
      LoginLinks(Run(rest), e);
      k := n;
    } else {
      PredecessorExists(Run(rest), e, token);
      k := TracesToLogin(rest, Predecessor(Run(rest), e, token));
      assert rest[..k] == events[..k];
      StepKeepsUser(Run(rest), e, events[k].draft.user, token);
    }
  }

  predicate LoginOf(events: seq<Event>, k: nat, user: UserId)
    requires k < |events|
  {
    events[k].LoggedIn? && Commits(Run(events[..k]), events[k]) && events[k].draft.user == user
  }

  predicate IssuedUntil(events: seq<Event>, j: nat, token: Digest, now: int)
    requires j < |events|
  {
    Issues(events[j], token) && Commits(Run(events[..j]), events[j]) && now < events[j].draft.expiresAt
  }

  /** Whoever a token authenticates has logged in: the token was issued by a call whose expiry still lies ahead, and
      the chain of rotations behind it starts with a login of exactly that GitHub user. */
  lemma AuthenticatedUserLoggedIn(events: seq<Event>, token: Digest, now: int, user: UserId)
    requires Authenticates(Run(events), token, now, user)
    ensures exists k :: 0 <= k < |events| && LoginOf(events, k, user)
    ensures exists j :: 0 <= j < |events| && IssuedUntil(events, j, token, now)
  {
    RunKeepsLinks(events);
    var k := TracesToLogin(events, token);
    assert LoginOf(events, k, user);
    var j := IssuedWith(events, token);
    assert IssuedUntil(events, j, token, now);
  }

  /** The id, the CSRF digest and the times of a draft. */
  predicate CarriesDraft(s: Session, d: Draft) {
    s.id == d.id && s.csrf == d.csrf && s.createdAt == d.createdAt && s.expiresAt == d.expiresAt
  }

  /** Every session carries the id, the CSRF digest and the times of the draft it was issued with. */
  lemma {:induction false} IssuedWith(events: seq<Event>, token: Digest) returns (k: nat)
    requires token in Run(events).sessions
    ensures k < |events| && Issues(events[k], token) && Commits(Run(events[..k]), events[k])
    ensures CarriesDraft(Run(events).sessions[token], events[k].draft)
  {
    var n := |events| - 1;
    var rest, e := events[..n], events[n];
    RunKeepsLinks(rest);
    if Commits(Run(rest), e) && Issues(e, token) {
      k := n;
      IssuedFields(Run(rest), e);
    } else {
      StepKeys(Run(rest), e, token);
      k := IssuedWith(rest, token);
      assert rest[..k] == events[..k];
    }
  }

  lemma IssuedFields(db: Database, e: Event)
    requires Linked(db) && (e.LoggedIn? || e.Rotated?) && Commits(db, e)
    ensures Live(After(db, e).sessions, e.draft.token)
    ensures CarriesDraft(After(db, e).sessions[e.draft.token], e.draft)
  {
    if e.LoggedIn? {
      SessionAdded(db.sessions, AccountFor(db, e.draft).value, e.draft, e.draft.createdAt);
    } else {
      RevokeKeepsIds(db.sessions, {e.current}, e.now);
      SessionAdded(Revoke(db.sessions, {e.current}, e.now), e.draft.account, e.draft, e.now);
    }
  }
}
