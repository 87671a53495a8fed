/** What a caller gets out of a run of session calls, in the fields of the calls: which logins and rotations are
    accepted, which sessions stand, what they carry, and whom their tokens authenticate. */
module SessionFields {
  import opened Options
  import opened SessionRuns
  import opened Sessions
  import opened Sets

  // ----- which calls are accepted -----

  /** A draft with usable ids and digests, a lifetime, one to fifty sessions an account and a valid identity. */
  predicate WellFormed(d: Draft) {
    && d.id != 0 && d.account != 0 && d.token != 0 && d.csrf != 0 && d.expiresAt > d.createdAt
    && 1 <= d.maxActive && d.maxActive <= 50 && d.identityValid
  }

  /** The live sessions of the same account that are newer, those in besides left out. */
  function NewerLive(s: Table, token: Digest, besides: set<Digest>): set<Digest>
    requires token in s
  {
    set u | u in s && u !in besides && s[u].account == s[token].account && s[u].revokedAt.None?
            && (s[u].createdAt > s[token].createdAt || (s[u].createdAt == s[token].createdAt && s[u].id > s[token].id))
  }

  /** A live session that one more of its account pushes out. */
  predicate Crowded(s: Table, token: Digest, account: AccountId, maxActive: int, besides: set<Digest>) {
    && token in s && token !in besides && s[token].revokedAt.None? && s[token].account == account
    && |NewerLive(s, token, besides)| + 1 >= maxActive
  }

  /** The token and the id are new, and nothing that is pushed out was created after now. */
  ghost predicate HasPlace(s: Table, account: AccountId, d: Draft, besides: set<Digest>, now: int) {
    && d.token !in s && (forall t :: t in s ==> s[t].id != d.id)
    && (forall t :: Crowded(s, t, account, d.maxActive, besides) ==> s[t].createdAt <= now)
  }

  lemma RanksAgree(s: Table, account: AccountId, token: Digest, besides: set<Digest>, now: int)
    requires token in LiveOf(s, account) && token !in besides
    ensures NewerThan(Revoke(s, besides, now), LiveOf(s, account) - besides, token) == NewerLive(s, token, besides)
  {
  }

  lemma PushedOut(s: Table, account: AccountId, d: Draft, besides: set<Digest>, now: int)
    requires DistinctIds(s) && d.maxActive >= 1 && d.token !in s && (forall t :: t in s ==> s[t].id != d.id)
    ensures var left := Revoke(s, besides, now);
      var grown := left[d.token := SessionOf(account, d)];
      forall t :: t in Excess(grown, Others(grown, account, d.id), d.maxActive - 1)
        <==> Crowded(s, t, account, d.maxActive, besides)
  {
    var left := Revoke(s, besides, now);
    var grown := left[d.token := SessionOf(account, d)];
    var others := Others(grown, account, d.id);
    assert others == LiveOf(s, account) - besides;
    forall t | t in others ensures NewerThan(grown, others, t) == NewerLive(s, t, besides) {
      RanksAgree(s, account, t, besides, now);
      assert NewerThan(grown, others, t) == NewerThan(left, others, t);
    }
  }

  lemma PlaceIff(s: Table, account: AccountId, d: Draft, besides: set<Digest>, now: int)
    requires DistinctIds(s) && d.maxActive >= 1
    requires forall t :: t in besides && t in s ==> s[t].createdAt <= now
    ensures WithSession(Revoke(s, besides, now), account, d, now).Done? <==> HasPlace(s, account, d, besides, now)
  {
    var left := Revoke(s, besides, now);
    assert IdUsed(left, d.id) <==> exists t :: t in s && s[t].id == d.id by {
      forall t | t in s ensures left[t].id == s[t].id { }
      if IdUsed(left, d.id) {
        var t :| t in left && left[t].id == d.id;
        assert s[t].id == d.id;
      }
      if t :| t in s && s[t].id == d.id { assert left[t].id == d.id; }
    }
    if d.token !in s && !IdUsed(left, d.id) {
      PushedOut(s, account, d, besides, now);
    }
  }

  lemma NothingRevoked(s: Table, now: int)
    ensures Revoke(s, {}, now) == s
  {
  }

  /** A login is accepted exactly when its draft is well formed, its user is new or has an active account, and there is
      a place for its session. */
  lemma LoginIff(db: Database, d: Draft)
    requires Linked(db)
    ensures Login(db, d).Done? <==>
      && WellFormed(d)
      && (if d.user in db.identities then db.accounts[db.identities[d.user].account] == Active
          else d.account !in db.accounts)
      && HasPlace(db.sessions, if d.user in db.identities then db.identities[d.user].account else d.account, d, {},
                  d.createdAt)
    ensures Login(db, d) == Failed(InvalidConfiguration) <==> !WellFormed(d)
  {
    if WellFormed(d) {
      PlaceIff(db.sessions, if d.user in db.identities then db.identities[d.user].account else d.account, d, {},
               d.createdAt);
      NothingRevoked(db.sessions, d.createdAt);
    }
  }

  /** A rotation is accepted exactly when its draft is well formed and of the account of the current session, that
      session is live, and there is a place for its replacement. */
  lemma RotateIff(db: Database, current: Digest, d: Draft, now: int)
    requires Linked(db)
    ensures Rotate(db, current, d, now).Done? <==>
      && WellFormed(d)
      && current in db.sessions && db.sessions[current].revokedAt.None?
      && db.sessions[current].createdAt <= now && now < db.sessions[current].expiresAt
      && db.sessions[current].account == d.account
      && HasPlace(db.sessions, d.account, d, {current}, now)
    ensures Rotate(db, current, d, now) == Failed(InvalidConfiguration) <==> !WellFormed(d)
    ensures Rotate(db, current, d, now) == Failed(SessionNotFound) <==>
      && WellFormed(d)
      && !(current in db.sessions && db.sessions[current].revokedAt.None? && now < db.sessions[current].expiresAt)
  {
    if WellFormed(d) && current in db.sessions && db.sessions[current].createdAt <= now {
      PlaceIff(db.sessions, d.account, d, {current}, now);
    }
  }

  /** A revocation is accepted exactly for a live session that is not from the future, one of all sessions of an account
      exactly when none of its live ones is. */
  lemma RevokeIff(db: Database, token: Digest, account: AccountId, now: int)
    ensures RevokeOne(db, token, now).Done? <==>
      token in db.sessions && db.sessions[token].revokedAt.None? && db.sessions[token].createdAt <= now
    ensures RevokeAll(db, account, now).Done? <==>
      forall t :: t in db.sessions && db.sessions[t].account == account && db.sessions[t].revokedAt.None? ==>
        db.sessions[t].createdAt <= now
  {
  }

  /** A committed login gives a known user its old account and an unknown one the account of the draft, now active;
      either way the identity takes the profile of the draft. */
  lemma LoginEffect(db: Database, e: Event)
    requires Linked(db) && e.LoggedIn? && Commits(db, e)
    ensures var after, d := After(db, e), e.draft;
      if d.user in db.identities then
        && after.accounts == db.accounts
        && after.identities == db.identities[d.user := Identity(db.identities[d.user].account, d.profile)]
      else
        && after.accounts == db.accounts[d.account := Active] && d.account !in db.accounts
        && after.identities == db.identities[d.user := Identity(d.account, d.profile)]
  {
  }

  /** A deletion takes the account, its identity and its sessions, and leaves everything else as it was. */
  lemma DeletionEffect(db: Database, e: Event)
    requires e.AccountDeleted? && Commits(db, e)
    ensures var after := After(db, e);
      && (forall a :: a in after.accounts <==> a in db.accounts && a != e.account)
      && (forall a :: a in after.accounts ==> after.accounts[a] == db.accounts[a])
      && (forall u :: u in after.identities <==> u in db.identities && db.identities[u].account != e.account)
      && (forall u :: u in after.identities ==> after.identities[u] == db.identities[u])
      && (forall t :: t in after.sessions <==> t in db.sessions && db.sessions[t].account != e.account)
      && (forall t :: t in after.sessions ==> after.sessions[t] == db.sessions[t])
  {
  }

  /** A call commits exactly when it is accepted and its transaction is neither rolled back nor kept from beginning. */
  lemma CommitsIff(db: Database, e: Event)
    ensures Commits(db, e) <==>
      && (match e
          case LoggedIn(d, _) => Login(db, d).Done?
          case Rotated(current, d, now, _) => Rotate(db, current, d, now).Done?
          case Revoked(token, now, _) => RevokeOne(db, token, now).Done?
          case RevokedAll(account, now, _) => RevokeAll(db, account, now).Done?
          case MarkedDeleting(_) => true
          case AccountDeleted(_, _) => true)
      && (e.MarkedDeleting? || e.fault == Answered || e.fault == ReplyLost)
  {
  }

  // ----- which sessions stand -----

  /** A committed login or rotation pushes a live session of its account out. */
  predicate Trims(db: Database, e: Event, token: Digest) {
    && Commits(db, e) && (e.LoggedIn? || e.Rotated?)
    && Crowded(db.sessions, token,
               if e.LoggedIn? && e.draft.user in db.identities then db.identities[e.draft.user].account
               else e.draft.account,
               e.draft.maxActive, if e.Rotated? then {e.current} else {})
  }

  lemma LoginLiveIff(db: Database, e: Event, token: Digest)
    requires Linked(db) && e.LoggedIn? && Commits(db, e)
    ensures Live(After(db, e).sessions, token) <==>
      token == e.draft.token || (Live(db.sessions, token) && !Trims(db, e, token))
  {
    var d, account := e.draft, AccountFor(db, e.draft).value;
    SessionAdded(db.sessions, account, d, d.createdAt);
    NothingRevoked(db.sessions, d.createdAt);
    PushedOut(db.sessions, account, d, {}, d.createdAt);
  }

  lemma RotationLiveIff(db: Database, e: Event, token: Digest)
    requires Linked(db) && e.Rotated? && Commits(db, e)
    ensures Live(After(db, e).sessions, token) <==>
      token == e.draft.token || (Live(db.sessions, token) && token != e.current && !Trims(db, e, token))
  {
    var left := Revoke(db.sessions, {e.current}, e.now);
    RevokeKeepsIds(db.sessions, {e.current}, e.now);
    SessionAdded(left, e.draft.account, e.draft, e.now);
    forall t | t in db.sessions ensures db.sessions[t].id != e.draft.id { assert IdUsed(left, left[t].id); }
    PushedOut(db.sessions, e.draft.account, e.draft, {e.current}, e.now);
  }

  /** A step leaves a session live exactly when it issues it, or finds it live and neither ends it nor pushes it out. */
  lemma StepLiveIff(db: Database, e: Event, token: Digest)
    requires Linked(db)
    ensures Live(After(db, e).sessions, token) <==>
      || (Commits(db, e) && Issues(e, token))
      || (Live(db.sessions, token) && !Ends(db, e, token) && !Trims(db, e, token))
  {
    if Commits(db, e) {
      match e
      case LoggedIn(_, _) => LoginLiveIff(db, e, token);
      case Rotated(_, _, _, _) => RotationLiveIff(db, e, token);
      case Revoked(_, _, _) =>
      case RevokedAll(_, _, _) =>
      case MarkedDeleting(_) =>
      case AccountDeleted(_, _) =>
    }
  }

  /** The token was issued by the k-th call, and no later one ended its session or pushed it out. */
  ghost predicate Standing(events: seq<Event>, k: nat, token: Digest) {
    && k < |events| && Commits(Run(events[..k]), events[k]) && Issues(events[k], token)
    && forall j :: k < j < |events| ==>
         !Ends(Run(events[..j]), events[j], token) && !Trims(Run(events[..j]), events[j], token)
  }

  lemma StandingPrefix(events: seq<Event>, k: nat, token: Digest, n: nat)
    requires Standing(events, k, token) && k < n <= |events|
    ensures Standing(events[..n], k, token)
  {
    assert events[..n][..k] == events[..k];
    forall j | k < j < n
      ensures !Ends(Run(events[..n][..j]), events[..n][j], token)
        && !Trims(Run(events[..n][..j]), events[..n][j], token)
    {
      assert events[..n][..j] == events[..j];
    }
  }

  lemma {:induction false} StandingIsLive(events: seq<Event>, k: nat, token: Digest)
    requires Standing(events, k, token)
    ensures Live(Run(events).sessions, token) && CarriesDraft(Run(events).sessions[token], events[k].draft)
    decreases |events|
  {
    var n := |events| - 1;
    var rest, e := events[..n], events[n];
    RunKeepsLinks(rest);
    if k == n {
      IssuedFields(Run(rest), e);
    } else {
      StandingPrefix(events, k, token, n);
      StandingIsLive(rest, k, token);
      StepLiveIff(Run(rest), e, token);
      assert !Issues(e, token) || !Commits(Run(rest), e) by {
        if Issues(e, token) && Commits(Run(rest), e) { Unrepeated(Run(rest), e); }
      }
      StepKeys(Run(rest), e, token);
    }
  }

  /** A committed call issues a new token. */
  lemma Unrepeated(db: Database, e: Event)
    requires Linked(db) && (e.LoggedIn? || e.Rotated?) && Commits(db, e)
    ensures e.draft.token !in db.sessions
  {
    if e.Rotated? { RotationReplaces(db, e); }
  }

  lemma {:induction false} LiveIsStanding(events: seq<Event>, token: Digest) returns (k: nat)
    requires Live(Run(events).sessions, token)
    ensures Standing(events, k, token)
    decreases |events|
  {
    var n := |events| - 1;
    var rest, e := events[..n], events[n];
    RunKeepsLinks(rest);
    StepLiveIff(Run(rest), e, token);
    if Commits(Run(rest), e) && Issues(e, token) {
      k := n;
    } else {
      k := LiveIsStanding(rest, token);
      assert rest[..k] == events[..k];
      forall j | k < j < |events|
        ensures !Ends(Run(events[..j]), events[j], token) && !Trims(Run(events[..j]), events[j], token)
      {
        if j < n { assert rest[..j] == events[..j]; }
      }
    }
  }

  // ----- whom a token authenticates -----

  /** Nobody logged in as this user after the k-th call. */
  ghost predicate LastLogin(events: seq<Event>, k: nat, user: UserId) {
    k < |events| && LoginOf(events, k, user) && forall m :: k < m < |events| ==> !LoginOf(events, m, user)
  }

  lemma StepKeepsIdentity(db: Database, e: Event, user: UserId)
    requires user in After(db, e).identities && !(e.LoggedIn? && Commits(db, e) && e.draft.user == user)
    ensures user in db.identities && After(db, e).identities[user] == db.identities[user]
  {
  }

  /** The identity of a user has the profile of the last committed login of that user. */
  lemma {:induction false} ProfileOfLastLogin(events: seq<Event>, user: UserId) returns (k: nat)
    requires user in Run(events).identities
    ensures LastLogin(events, k, user) && Run(events).identities[user].profile == events[k].draft.profile
    decreases |events|
  {
    var n := |events| - 1;
    var rest, e := events[..n], events[n];
    if e.LoggedIn? && Commits(Run(rest), e) && e.draft.user == user {
      k := n;
    } else {
      StepKeepsIdentity(Run(rest), e, user);
      k := ProfileOfLastLogin(rest, user);
      assert rest[..k] == events[..k];
      forall m | k < m < |events| ensures !LoginOf(events, m, user) {
        if m < n { assert rest[..m] == events[..m] && !LoginOf(rest, m, user); }
      }
    }
  }

  ghost predicate StandsUntil(events: seq<Event>, token: Digest, now: int) {
    exists k: nat :: Standing(events, k, token) && now < events[k].draft.expiresAt
  }

  lemma UsableIff(events: seq<Event>, token: Digest, now: int)
    ensures Usable(Run(events).sessions, token, now) <==> StandsUntil(events, token, now)
  {
    if Live(Run(events).sessions, token) {
      var k := LiveIsStanding(events, token);
      StandingIsLive(events, k, token);
    }
    if StandsUntil(events, token, now) {
      var k: nat :| Standing(events, k, token) && now < events[k].draft.expiresAt;
      StandingIsLive(events, k, token);
    }
  }

  /** A token authenticates a user exactly when some call issued it, nothing has ended its session or pushed it out
      since, its draft has not expired, and its account is active and the user's. */
  lemma AuthenticatesIff(events: seq<Event>, token: Digest, now: int, user: UserId)
    ensures Authenticates(Run(events), token, now, user) <==>
      && StandsUntil(events, token, now)
      && LinkedTo(Run(events), user, token)
      && Run(events).sessions[token].account in Run(events).accounts
      && Run(events).accounts[Run(events).sessions[token].account] == Active
  {
    UsableIff(events, token, now);
  }

  /** What a lookup of a standing token finds: the fields its draft gave the session, and the profile its user had at
      the last login. */
  lemma FoundFields(events: seq<Event>, token: Digest, now: int, user: UserId) returns (k: nat, m: nat)
    requires Authenticates(Run(events), token, now, user)
    ensures Standing(events, k, token) && now < events[k].draft.expiresAt && LastLogin(events, m, user)
    ensures var d, s := events[k].draft, Run(events).sessions[token];
      s == Session(d.id, s.account, d.csrf, d.expiresAt, d.createdAt, None)
    ensures Run(events).identities[user] == Identity(Run(events).sessions[token].account, events[m].draft.profile)
  {
    k := LiveIsStanding(events, token);
    StandingIsLive(events, k, token);
    m := ProfileOfLastLogin(events, user);
  }
}
