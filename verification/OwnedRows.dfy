/** Account-owned rows: bookmarks, saved searches and issue claims. Every statement is one atomic step; between the
    statement of a call and the query that explains its failure, other clients may write. */
module OwnedRows {
  type AccountId = nat
  type RowId = nat

  const MAXIMUM_BOOKMARKS := 200
  const MAXIMUM_ISSUE_CLAIMS := 200
  const MAXIMUM_SAVED_SEARCHES := 50

  /** key: the canonical reference of a bookmark or a claim, the lower-cased name of a saved search. */
  datatype Row<K, P> = Row(account: AccountId, key: K, payload: P, version: int)

  type Table<K, P> = map<RowId, Row<K, P>>

  /** Update keeps the key; Rename may replace it. */
  datatype Write<K, P> =
    | Insert(account: AccountId, id: RowId, key: K, payload: P, quota: nat)
    | Update(account: AccountId, id: RowId, version: int, payload: P)
    | Rename(account: AccountId, id: RowId, version: int, key: K, payload: P)
    | Delete(account: AccountId, id: RowId, version: int)

  function Mine<K, P>(t: Table<K, P>, account: AccountId): set<RowId> {
    set id | id in t && t[id].account == account
  }

  function Holders<K(==), P>(t: Table<K, P>, account: AccountId, key: K): set<RowId> {
    set id | id in t && t[id].account == account && t[id].key == key
  }

  predicate Owns<K, P>(t: Table<K, P>, account: AccountId, id: RowId) {
    id in t && t[id].account == account
  }

  predicate Current<K, P>(t: Table<K, P>, account: AccountId, id: RowId, version: int) {
    Owns(t, account, id) && t[id].version == version
  }

  /** When a write changes the table. */
  predicate Takes<K(==), P>(t: Table<K, P>, w: Write<K, P>) {
    match w
    case Insert(account, id, key, _, quota) => Holders(t, account, key) == {} && |Mine(t, account)| < quota && id !in t
    case Update(account, id, version, _) => Current(t, account, id, version)
    case Rename(account, id, version, key, _) => Current(t, account, id, version) && Holders(t, account, key) <= {id}
    case Delete(account, id, version) => Current(t, account, id, version)
  }

  function After<K(==), P>(t: Table<K, P>, w: Write<K, P>): Table<K, P> {
    if !Takes(t, w) then t
    else
      match w
      case Insert(account, id, key, payload, _) => t[id := Row(account, key, payload, 1)]
      case Update(_, id, version, payload) => t[id := t[id].(payload := payload, version := version + 1)]
      case Rename(_, id, version, key, payload) =>
        t[id := t[id].(key := key, payload := payload, version := version + 1)]
      case Delete(_, id, _) => t - {id}
  }

  function Apply<K(==), P>(t: Table<K, P>, ws: seq<Write<K, P>>): Table<K, P> {
    if ws == [] then t else After(Apply(t, ws[..|ws| - 1]), ws[|ws| - 1])
  }

  function Run<K(==), P>(ws: seq<Write<K, P>>): Table<K, P> {
    Apply(map[], ws)
  }

  // ----- the repository -----

  datatype Failure = InvalidInput | NotFound | VersionConflict | Duplicate | QuotaExceeded

  datatype Outcome = Done(id: RowId) | Failed(failure: Failure)

  class Repository<K(==), P> {
    var rows: Table<K, P>

    constructor ()
      ensures rows == map[]
    {
      rows := map[];
    }

    /** UpsertBookmark and UpsertIssueClaim: the row of a reference, inserted when there is none. */
    method Upsert(account: AccountId, id: RowId, key: K, payload: P, quota: nat) returns (r: Outcome)
      modifies this
      ensures rows == After(old(rows), Insert(account, id, key, payload, quota))
      ensures r.Done? ==> Owns(rows, account, r.id) && rows[r.id].key == key
      ensures r.Done? && Holders(old(rows), account, key) != {} ==> r.id in Holders(old(rows), account, key)
      ensures r.Failed? ==> r.failure.QuotaExceeded?
      ensures r.Failed? <==>
        Holders(old(rows), account, key) == {} && (|Mine(old(rows), account)| >= quota || id in old(rows))
    {
      var existing := Holders(rows, account, key);
      var allowed := existing != {} || |Mine(rows, account)| < quota;
      if allowed && existing == {} && id !in rows {
        rows := rows[id := Row(account, key, payload, 1)];
        return Done(id);
      }
      if id' :| id' in existing { return Done(id'); }
      return Failed(QuotaExceeded);
    }

    /** What other clients commit between two statements of one call. */
    method Interleave(others: seq<Write<K, P>>)
      modifies this
      ensures rows == Apply(old(rows), others)
    {
      ghost var before := rows;
      for i := 0 to |others|
        invariant rows == Apply(before, others[..i])
      {
        assert others[..i + 1][..i] == others[..i];
        rows := After(rows, others[i]);
      }
      assert others[..|others|] == others;
    }

    /** CreateSavedSearch: the failure is explained by a second query. */
    method Create(account: AccountId, id: RowId, key: K, payload: P, quota: nat, others: seq<Write<K, P>>)
      returns (r: Outcome)
      modifies this
      ensures var w := Insert(account, id, key, payload, quota);
        if Takes(old(rows), w) then rows == After(old(rows), w) && r == Done(id)
        else rows == Apply(old(rows), others) && r == Failed(Report(old(rows), w, others, []))
    {
      if |Mine(rows, account)| < quota && id !in rows && Holders(rows, account, key) == {} {
        rows := rows[id := Row(account, key, payload, 1)];
        return Done(id);
      }
      Interleave(others);
      return Failed(if Holders(rows, account, key) != {} then Duplicate else QuotaExceeded);
    }

    /** ownedVersionFailure. */
    method OwnedVersionFailure(account: AccountId, id: RowId) returns (f: Failure)
      ensures f == VersionFailure(rows, account, id)
    {
      return if id in rows && rows[id].account == account then VersionConflict else NotFound;
    }

    /** UpdateBookmark, UpdateSavedSearchSnapshot and UpdateIssueClaim. */
    method Update(account: AccountId, id: RowId, version: int, payload: P, others: seq<Write<K, P>>)
      returns (r: Outcome)
      modifies this
      ensures version < 1 ==> rows == old(rows) && r == Failed(InvalidInput)
      ensures var w := Write.Update(account, id, version, payload);
        version >= 1 ==>
        if Takes(old(rows), w) then rows == After(old(rows), w) && r == Done(id)
        else rows == Apply(old(rows), others) && r == Failed(Report(old(rows), w, others, []))
    {
      if version < 1 { return Failed(InvalidInput); }
      if id in rows && rows[id].account == account && rows[id].version == version {
        rows := rows[id := rows[id].(payload := payload, version := rows[id].version + 1)];
        return Done(id);
      }
      Interleave(others);
      var f := OwnedVersionFailure(account, id);
      return Failed(f);
    }

    /** UpdateSavedSearch: two more queries explain a failure. */
    method Rename(
      account: AccountId, id: RowId, version: int, key: K, payload: P,
      others: seq<Write<K, P>>, more: seq<Write<K, P>>)
      returns (r: Outcome)
      modifies this
      ensures version < 1 ==> rows == old(rows) && r == Failed(InvalidInput)
      ensures var w := Write.Rename(account, id, version, key, payload);
        var second := Apply(old(rows), others);
        version >= 1 ==>
        if Takes(old(rows), w) then rows == After(old(rows), w) && r == Done(id)
        else
          && rows == (if Owns(second, account, id) then Apply(second, more) else second)
          && r == Failed(Report(old(rows), w, others, more))
    {
      if version < 1 { return Failed(InvalidInput); }
      if id in rows && rows[id].account == account && rows[id].version == version
         && Holders(rows, account, key) <= {id}
      {
        rows := rows[id := rows[id].(key := key, payload := payload, version := rows[id].version + 1)];
        return Done(id);
      }
      Interleave(others);
      var f := OwnedVersionFailure(account, id);
      if f != VersionConflict { return Failed(f); }
      Interleave(more);
      return Failed(if Holders(rows, account, key) - {id} != {} then Duplicate else VersionConflict);
    }

    method Delete(account: AccountId, id: RowId, version: int, others: seq<Write<K, P>>) returns (r: Outcome)
      modifies this
      ensures version < 1 ==> rows == old(rows) && r == Failed(InvalidInput)
      ensures var w := Write.Delete(account, id, version);
        version >= 1 ==>
        if Takes(old(rows), w) then rows == After(old(rows), w) && r == Done(id)
        else rows == Apply(old(rows), others) && r == Failed(Report(old(rows), w, others, []))
    {
      if version < 1 { return Failed(InvalidInput); }
      if id in rows && rows[id].account == account && rows[id].version == version {
        rows := rows - {id};
        return Done(id);
      }
      Interleave(others);
      var f := OwnedVersionFailure(account, id);
      return Failed(f);
    }
  }

  function VersionFailure<K, P>(t: Table<K, P>, account: AccountId, id: RowId): Failure {
    if Owns(t, account, id) then VersionConflict else NotFound
  }

  function CreateFailure<K(==), P>(t: Table<K, P>, account: AccountId, key: K): Failure {
    if Holders(t, account, key) != {} then Duplicate else QuotaExceeded
  }

  /** What a call whose statement did not take reports, when other clients write others before its first explaining
      query and more before its second. */
  function Report<K(==), P>(t: Table<K, P>, w: Write<K, P>, others: seq<Write<K, P>>, more: seq<Write<K, P>>): Failure {
    var second := Apply(t, others);
    match w
    case Insert(account, _, key, _, _) => CreateFailure(second, account, key)
    case Update(account, id, _, _) => VersionFailure(second, account, id)
    case Delete(account, id, _) => VersionFailure(second, account, id)
    case Rename(account, id, _, key, _) =>
      if !Owns(second, account, id) then NotFound
      else if Holders(Apply(second, more), account, key) <= {id} then VersionConflict
      else Duplicate
  }

  // ----- one write in the fields -----

  /** The account owns the row and the row has the version. */
  predicate Expected<K, P>(t: Table<K, P>, account: AccountId, id: RowId, version: int) {
    id in t && t[id].account == account && t[id].version == version
  }

  /** A write takes effect: an insert of a new id for a key the account does not use, with room for one more row; any
      other write on a row of the account at the expected version, a rename only to a key no other row of it uses. */
  ghost predicate Fits<K, P>(t: Table<K, P>, w: Write<K, P>) {
    match w
    case Insert(account, id, key, _, quota) =>
      && id !in t && (forall i :: i in t && t[i].account == account ==> t[i].key != key)
      && |set i | i in t && t[i].account == account| + 1 <= quota
    case Update(account, id, version, _) => Expected(t, account, id, version)
    case Rename(account, id, version, key, _) =>
      && Expected(t, account, id, version)
      && (forall i :: i in t && t[i].account == account && i != id ==> t[i].key != key)
    case Delete(account, id, version) => Expected(t, account, id, version)
  }

  /** The row a write leaves under its id. */
  predicate Leaves<K(==), P(==)>(t: Table<K, P>, w: Write<K, P>, after: Table<K, P>) {
    match w
    case Insert(account, id, key, payload, _) => id in after && after[id] == Row(account, key, payload, 1)
    case Update(account, id, version, payload) =>
      id in after && id in t && after[id] == Row(account, t[id].key, payload, version + 1)
    case Rename(account, id, version, key, payload) =>
      id in after && after[id] == Row(account, key, payload, version + 1)
    case Delete(_, id, _) => id !in after
  }

  /** A write that fits leaves its row and every other one alone; one that does not fit changes nothing. */
  lemma WriteInFields<K, P>(t: Table<K, P>, w: Write<K, P>)
    ensures Takes(t, w) <==> Fits(t, w)
    ensures Fits(t, w) ==> Leaves(t, w, After(t, w))
    ensures !Fits(t, w) ==> After(t, w) == t
    ensures forall i :: i != w.id ==> (i in After(t, w) <==> i in t) && (i in t ==> After(t, w)[i] == t[i])
  {
    if w.Insert? {
      assert Mine(t, w.account) == set i | i in t && t[i].account == w.account;
      if Holders(t, w.account, w.key) == {} {
        forall i | i in t && t[i].account == w.account ensures t[i].key != w.key {
          assert i !in Holders(t, w.account, w.key);
        }
      }
    }
    if w.Rename? && Holders(t, w.account, w.key) <= {w.id} {
      forall i | i in t && t[i].account == w.account && i != w.id ensures t[i].key != w.key {
        assert i !in Holders(t, w.account, w.key);
      }
    }
  }

  // ----- what every write keeps -----

  ghost predicate UniqueKeys<K, P>(t: Table<K, P>) {
    forall i, j :: i in t && j in t && i != j && t[i].account == t[j].account ==> t[i].key != t[j].key
  }

  ghost predicate WithinQuota<K, P>(t: Table<K, P>, quota: nat) {
    forall account: AccountId :: |Mine(t, account)| <= quota
  }

  ghost predicate InsertsWithin<K, P>(ws: seq<Write<K, P>>, quota: nat) {
    forall i :: 0 <= i < |ws| && ws[i].Insert? ==> ws[i].quota <= quota
  }

  lemma StepKeepsKeys<K, P>(t: Table<K, P>, w: Write<K, P>)
    requires UniqueKeys(t)
    ensures UniqueKeys(After(t, w))
  {
    if Takes(t, w) {
      match w
      case Insert(account, id, key, _, _) =>
        forall j | j in t && t[j].account == account ensures t[j].key != key { assert j !in Holders(t, account, key); }
      case Update(_, _, _, _) =>
      case Rename(account, id, _, key, _) =>
        forall j | j in t && j != id && t[j].account == account ensures t[j].key != key {
          assert j !in Holders(t, account, key);
        }
      case Delete(_, _, _) =>
    }
  }

  lemma StepMine<K, P>(t: Table<K, P>, w: Write<K, P>, account: AccountId)
    ensures Mine(After(t, w), account)
      == if !Takes(t, w) || w.account != account || w.Update? || w.Rename? then Mine(t, account)
         else if w.Insert? then Mine(t, account) + {w.id}
         else Mine(t, account) - {w.id}
  {
  }

  lemma StepKeepsQuota<K, P>(t: Table<K, P>, w: Write<K, P>, quota: nat)
    requires WithinQuota(t, quota) && (w.Insert? ==> w.quota <= quota)
    ensures WithinQuota(After(t, w), quota)
  {
    forall account: AccountId ensures |Mine(After(t, w), account)| <= quota {
      StepMine(t, w, account);
    }
  }

  /** In every reachable state references and names are unique per account and the counts stay within the quota. */
  lemma {:induction false} RunKeepsQuota<K, P>(ws: seq<Write<K, P>>, quota: nat)
    requires InsertsWithin(ws, quota)
    ensures UniqueKeys(Run(ws)) && WithinQuota(Run(ws), quota)
  {
    if ws == [] {
      forall account: AccountId ensures |Mine(Run(ws), account)| <= quota { assert Mine(Run(ws), account) == {}; }
    } else {
      var n := |ws| - 1;
      RunKeepsQuota(ws[..n], quota);
      StepKeepsKeys(Run(ws[..n]), ws[n]);
      StepKeepsQuota(Run(ws[..n]), ws[n], quota);
    }
  }

  /** No write touches the rows of another account. */
  lemma OtherAccountsUntouched<K, P>(t: Table<K, P>, w: Write<K, P>, id: RowId)
    requires id in t && t[id].account != w.account
    ensures id in After(t, w) && After(t, w)[id] == t[id]
  {
  }

  // ----- versions -----

  /** The generator never repeats an id. */
  ghost predicate FreshIds<K, P>(ws: seq<Write<K, P>>) {
    forall i, j :: 0 <= i < j < |ws| && ws[i].Insert? && ws[j].Insert? ==> ws[i].id != ws[j].id
  }

  predicate Changes<K(==), P>(t: Table<K, P>, w: Write<K, P>, id: RowId) {
    Takes(t, w) && (w.Update? || w.Rename?) && w.id == id
  }

  /** How many updates of a row succeed while ws is written to t. */
  function UpdatesFrom<K(==), P>(t: Table<K, P>, ws: seq<Write<K, P>>, id: RowId): nat {
    if ws == [] then 0
    else
      var n := |ws| - 1;
      UpdatesFrom(t, ws[..n], id) + if Changes(Apply(t, ws[..n]), ws[n], id) then 1 else 0
  }

  function Updates<K(==), P>(ws: seq<Write<K, P>>, id: RowId): nat {
    UpdatesFrom(map[], ws, id)
  }

  ghost predicate Inserted<K, P>(ws: seq<Write<K, P>>, id: RowId) {
    exists i :: 0 <= i < |ws| && ws[i].Insert? && ws[i].id == id
  }

  /** The version of a row counts its successful updates. */
  lemma {:induction false} VersionCountsUpdates<K, P>(ws: seq<Write<K, P>>, id: RowId)
    requires FreshIds(ws)
    ensures id in Run(ws) ==> Inserted(ws, id) && Run(ws)[id].version == 1 + Updates(ws, id)
    ensures !Inserted(ws, id) ==> Updates(ws, id) == 0
  {
    if ws != [] {
      var n := |ws| - 1;
      VersionCountsUpdates(ws[..n], id);
      if ws[n].Insert? && ws[n].id == id {
        assert !Inserted(ws[..n], id);
        assert ws[n].Insert? && ws[n].id == id;
      } else if Inserted(ws[..n], id) {
        var i :| 0 <= i < n && ws[..n][i].Insert? && ws[..n][i].id == id;
        assert ws[i].Insert? && ws[i].id == id;
      }
    }
  }

  /** A linear chain: a successful update expects exactly one more than the number of earlier successful updates. */
  lemma UpdatesFormAChain<K, P>(ws: seq<Write<K, P>>, i: nat)
    requires FreshIds(ws) && i < |ws| && Changes(Run(ws[..i]), ws[i], ws[i].id)
    ensures ws[i].version == 1 + Updates(ws[..i], ws[i].id)
    ensures Current(Run(ws[..i + 1]), ws[i].account, ws[i].id, ws[i].version + 1)
  {
    VersionCountsUpdates(ws[..i], ws[i].id);
    assert ws[..i + 1][..i] == ws[..i];
  }

  lemma {:induction false} UpdatesGrow<K, P>(ws: seq<Write<K, P>>, i: nat, j: nat, id: RowId)
    requires i <= j <= |ws|
    ensures Updates(ws[..i], id) <= Updates(ws[..j], id)
  {
    if i < j {
      UpdatesGrow(ws, i, j - 1, id);
      assert ws[..j][..j - 1] == ws[..j - 1];
    }
  }

  /** No two successful updates of a row expect the same version: of concurrent writers at most one succeeds. */
  lemma NoSharedVersion<K, P>(ws: seq<Write<K, P>>, i: nat, j: nat)
    requires FreshIds(ws) && i < j < |ws| && ws[i].id == ws[j].id
    requires Changes(Run(ws[..i]), ws[i], ws[i].id) && Changes(Run(ws[..j]), ws[j], ws[j].id)
    ensures ws[i].version < ws[j].version
  {
    UpdatesFormAChain(ws, i);
    UpdatesFormAChain(ws, j);
    assert ws[..i + 1][..i] == ws[..i];
    UpdatesGrow(ws, i + 1, j, ws[i].id);
  }

  /** The last write that took effect on a row. */
  ghost predicate LastEffect<K(!new), P(!new)>(ws: seq<Write<K, P>>, i: nat, id: RowId) {
    && i < |ws| && ws[i].id == id && Takes(Run(ws[..i]), ws[i])
    && forall j :: i < j < |ws| && ws[j].id == id ==> !Takes(Run(ws[..j]), ws[j])
  }

  /** What is stored in a row is what the last effective write of it brought; failed writes leave no trace. */
  lemma {:induction false} PayloadIsLastEffect<K(!new), P(!new)>(ws: seq<Write<K, P>>, id: RowId) returns (i: nat)
    requires id in Run(ws)
    ensures LastEffect(ws, i, id) && !ws[i].Delete? && Run(ws)[id].payload == ws[i].payload
    ensures Run(ws)[id].account == ws[i].account
  {
    var n := |ws| - 1;
    var rest := ws[..n];
    if Takes(Run(rest), ws[n]) && ws[n].id == id {
      i := n;
    } else {
      i := PayloadIsLastEffect(rest, id);
      assert rest[..i] == ws[..i];
      forall j | i < j < |ws| && ws[j].id == id ensures !Takes(Run(ws[..j]), ws[j]) {
        if j < n { assert rest[..j] == ws[..j] && rest[j] == ws[j]; }
      }
    }
  }
}
