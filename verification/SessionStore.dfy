/** The session repository over its three tables: the statements of each transaction in order, with rollback. */
module SessionStore {
  import opened Options
  import opened Sessions

  datatype Principal = Principal(session: Session, user: UserId, profile: string)

  class Store {
    var accounts: map<AccountId, Status>
    var identities: map<UserId, Identity>
    var sessions: Table

    function Db(): Database
      reads this
    {
      Database(accounts, identities, sessions)
    }

    constructor ()
      ensures Db() == Database(map[], map[], map[])
    {
      accounts, identities, sessions := map[], map[], map[];
    }

    /** The profile of a known identity is refreshed; an unknown one gets the account of the draft. */
    method FindOrCreateIdentity(d: Draft) returns (r: Option<AccountId>)
      requires Linked(Db())
      modifies this`accounts, this`identities
      ensures r == AccountFor(old(Db()), d)
      ensures r.Some? ==> Db() == WithIdentity(old(Db()), r.value, d)
      ensures r.None? ==> Db() == old(Db())
    {
      if d.user in identities {
        var account := identities[d.user].account;
        if accounts[account] != Active { return None; }
        identities := identities[d.user := identities[d.user].(profile := d.profile)];
        return Some(account);
      }
      if d.account in accounts { return None; }
      accounts := accounts[d.account := Active];
      identities := identities[d.user := Identity(d.account, d.profile)];
      return Some(d.account);
    }

    method InsertSession(account: AccountId, d: Draft) returns (ok: bool)
      modifies this`sessions
      ensures ok ==> d.token in sessions && sessions[d.token].csrf == d.csrf && sessions[d.token].id == d.id
      ensures ok ==> sessions[d.token].createdAt == d.createdAt && sessions[d.token].expiresAt == d.expiresAt
      ensures ok ==> sessions[d.token].account == account && sessions[d.token].revokedAt.None?
      ensures ok <==> d.token !in old(sessions) && !IdUsed(old(sessions), d.id)
      ensures sessions == if ok then old(sessions)[d.token := SessionOf(account, d)] else old(sessions)
    {
      ok := d.token !in sessions && !IdUsed(sessions, d.id);
      if ok {
        sessions := sessions[d.token := Session(d.id, account, d.csrf, d.expiresAt, d.createdAt, None)];
      }
    }

    method RevokeRows(gone: set<Digest>, now: int) returns (ok: bool)
      modifies this`sessions
      ensures ok <==> CanRevoke(old(sessions), gone, now)
      ensures sessions == if ok then Revoke(old(sessions), gone, now) else old(sessions)
    {
      ok := CanRevoke(sessions, gone, now);
      if ok {
        sessions := map t | t in sessions :: if t in gone then sessions[t].(revokedAt := Some(now)) else sessions[t];
      }
    }

    method AddSession(account: AccountId, d: Draft, now: int) returns (ok: bool)
      requires d.Valid()
      modifies this`sessions
      ensures ok <==> WithSession(old(sessions), account, d, now).Done?
      ensures ok ==> sessions == WithSession(old(sessions), account, d, now).value
    {
      ok := InsertSession(account, d);
      if ok {
        ok := RevokeRows(Excess(sessions, Others(sessions, account, d.id), d.maxActive - 1), now);
      }
    }

    /** Everything a transaction wrote is undone. */
    method Rollback(before: Database)
      modifies this
      ensures Db() == before
    {
      accounts, identities, sessions := before.accounts, before.identities, before.sessions;
    }

    method UpsertIdentityAndCreateSession(d: Draft, fault: Fault) returns (r: Outcome<AccountId>)
      requires Linked(Db())
      modifies this
      ensures Db() == After(old(Db()), LoggedIn(d, fault))
      ensures r.Done? <==> Login(old(Db()), d).Done? && fault.Answered?
      ensures r.Done? ==> AccountFor(old(Db()), d) == Some(r.value)
      ensures r.Failed? ==> r.failure == if d.Valid() then QueryFailed else InvalidConfiguration
    {
      if !d.Valid() { return Failed(InvalidConfiguration); }
      if fault.NotBegun? { return Failed(QueryFailed); }
      var before := Db();
      var account := FindOrCreateIdentity(d);
      if account.None? {
        Rollback(before);
        return Failed(QueryFailed);
      }
      var ok := AddSession(account.value, d, d.createdAt);
      if !ok || fault.RolledBack? {
        Rollback(before);
        return Failed(QueryFailed);
      }
      return if fault.Answered? then Done(account.value) else Failed(QueryFailed);
    }

    method RotateSession(current: Digest, d: Draft, now: int, fault: Fault) returns (r: Outcome<AccountId>)
      modifies this
      ensures Db() == After(old(Db()), Rotated(current, d, now, fault))
      ensures r.Done? <==> Rotate(old(Db()), current, d, now).Done? && fault.Answered?
      ensures r.Done? ==> r.value == d.account == old(sessions)[current].account
      ensures r.Failed? ==>
        && (r.failure.InvalidConfiguration? <==> !d.Valid())
        && (r.failure.SessionNotFound? <==>
              && d.Valid() && !fault.NotBegun?
              && (current in old(sessions) ==>
                    old(sessions)[current].revokedAt.Some? || old(sessions)[current].expiresAt <= now))
    {
      if !d.Valid() { return Failed(InvalidConfiguration); }
      if fault.NotBegun? { return Failed(QueryFailed); }
      var before := Db();
      if current !in sessions || sessions[current].revokedAt.Some? || sessions[current].expiresAt <= now {
        return Failed(SessionNotFound);
      }
      var revoked := RevokeRows({current}, now);
      if !revoked { return Failed(QueryFailed); }
      if sessions[current].account != d.account {
        Rollback(before);
        return Failed(QueryFailed);
      }
      var ok := AddSession(d.account, d, now);
      if !ok || fault.RolledBack? {
        Rollback(before);
        return Failed(QueryFailed);
      }
      return if fault.Answered? then Done(d.account) else Failed(QueryFailed);
    }

    method RevokeSession(token: Digest, now: int, fault: Fault) returns (r: Outcome<()>)
      modifies this
      ensures Db() == After(old(Db()), Revoked(token, now, fault))
      ensures r.Done? <==> RevokeOne(old(Db()), token, now).Done? && fault.Answered?
      ensures r == Failed(SessionNotFound) <==> fault.Answered? && !Live(old(sessions), token)
    {
      if !fault.Commits() { return Failed(QueryFailed); }
      if !Live(sessions, token) { return if fault.Answered? then Failed(SessionNotFound) else Failed(QueryFailed); }
      var ok := RevokeRows({token}, now);
      return if ok && fault.Answered? then Done(()) else Failed(QueryFailed);
    }

    method RevokeAllSessions(account: AccountId, now: int, fault: Fault) returns (r: Outcome<()>)
      modifies this
      ensures Db() == After(old(Db()), RevokedAll(account, now, fault))
      ensures r.Done? <==> RevokeAll(old(Db()), account, now).Done? && fault.Answered?
    {
      if !fault.Commits() { return Failed(QueryFailed); }
      var ok := RevokeRows(LiveOf(sessions, account), now);
      return if ok && fault.Answered? then Done(()) else Failed(QueryFailed);
    }

    /** The join of a session with its account and its identity. */
    method FindSession(token: Digest, now: int) returns (r: Outcome<Principal>)
      ensures r.Done? ==>
        && Authenticates(Db(), token, now, r.value.user)
        && r.value == Principal(sessions[token], r.value.user, identities[r.value.user].profile)
        && sessions[token].revokedAt.None? && now < sessions[token].expiresAt
        && identities[r.value.user].account == sessions[token].account
        && accounts[sessions[token].account] == Active
      ensures r.Failed? ==> r.failure.SessionNotFound? && forall user :: !Authenticates(Db(), token, now, user)
    {
      if !Usable(sessions, token, now) { return Failed(SessionNotFound); }
      var account := sessions[token].account;
      if account !in accounts || accounts[account] != Active { return Failed(SessionNotFound); }
      if user :| user in identities && identities[user].account == account {
        return Done(Principal(sessions[token], user, identities[user].profile));
      }
      return Failed(SessionNotFound);
    }
  }
}
