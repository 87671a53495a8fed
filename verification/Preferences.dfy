/** The preferences row of an account: inserted on first write, versioned from then on. */
module Preferences {
  import opened Options

  type AccountId = nat

  datatype Stored<S> = Stored(settings: S, version: int)

  type Table<S> = map<AccountId, Stored<S>>

  datatype Write<S> = Write(account: AccountId, settings: S, expected: int)

  /** GetPreferences: defaults with version zero when nothing is stored. */
  function Read<S>(t: Table<S>, account: AccountId, defaults: S): Stored<S> {
    if account in t then t[account] else Stored(defaults, 0)
  }

  /** UpdatePreferences refuses a negative version; the statement inserts an absent row whatever was expected. */
  predicate Accepted<S>(t: Table<S>, w: Write<S>) {
    w.expected >= 0 && (w.account in t ==> t[w.account].version == w.expected)
  }

  function After<S>(t: Table<S>, w: Write<S>): Table<S> {
    if !Accepted(t, w) then t
    else t[w.account := Stored(w.settings, if w.account in t then t[w.account].version + 1 else 1)]
  }

  function Run<S>(ws: seq<Write<S>>): Table<S> {
    if ws == [] then map[] else After(Run(ws[..|ws| - 1]), ws[|ws| - 1])
  }

  class PreferencesStore<S> {
    var rows: Table<S>

    constructor ()
      ensures rows == map[]
    {
      rows := map[];
    }

    method Upsert(w: Write<S>) returns (r: Option<Stored<S>>)
      modifies this
      ensures rows == After(old(rows), w)
      ensures r.Some? <==> Accepted(old(rows), w)
      ensures r.Some? ==> w.account in rows && r.value == rows[w.account] && r.value.settings == w.settings
    {
      if w.expected < 0 { return None; }
      if w.account !in rows {
        rows := rows[w.account := Stored(w.settings, 1)];
        return Some(Stored(w.settings, 1));
      }
      if rows[w.account].version != w.expected { return None; }
      var updated := Stored(w.settings, w.expected + 1);
      rows := rows[w.account := updated];
      return Some(updated);
    }
  }

  /** The stored version, zero when nothing is stored. */
  function VersionOf<S>(t: Table<S>, account: AccountId): int {
    if account in t then t[account].version else 0
  }

  /** How many of the writes i..j - 1 are accepted writes of the account. */
  function AcceptedFrom<S>(ws: seq<Write<S>>, i: nat, j: nat, account: AccountId): nat
    requires i <= j <= |ws|
  {
    if i == j then 0
    else
      AcceptedFrom(ws, i, j - 1, account)
      + if ws[j - 1].account == account && Accepted(Run(ws[..j - 1]), ws[j - 1]) then 1 else 0
  }

  lemma {:induction false} StoredIffPositive<S>(ws: seq<Write<S>>, account: AccountId)
    ensures VersionOf(Run(ws), account) >= 0
    ensures account in Run(ws) <==> VersionOf(Run(ws), account) > 0
  {
    if ws != [] {
      StoredIffPositive(ws[..|ws| - 1], account);
    }
  }

  /** The version counts the accepted writes. */
  lemma {:induction false} VersionCountsAccepted<S>(ws: seq<Write<S>>, i: nat, j: nat, account: AccountId)
    requires i <= j <= |ws|
    ensures VersionOf(Run(ws[..j]), account) == VersionOf(Run(ws[..i]), account) + AcceptedFrom(ws, i, j, account)
  {
    if i < j {
      VersionCountsAccepted(ws, i, j - 1, account);
      assert ws[..j][..j - 1] == ws[..j - 1];
    }
  }

  /** Of the writes that find a row, no two accepted ones expect the same version; the first write of an account is
      the exception, whatever it expects. */
  lemma {:induction false} AcceptedVersionsIncrease<S>(ws: seq<Write<S>>, i: nat, j: nat)
    requires i < j < |ws| && ws[i].account == ws[j].account
    requires Accepted(Run(ws[..i]), ws[i]) && Accepted(Run(ws[..j]), ws[j])
    ensures ws[i].account in Run(ws[..i]) ==> ws[i].expected < ws[j].expected
    ensures ws[i].account !in Run(ws[..i]) ==> ws[j].expected >= 1
  {
    assert ws[..i + 1][..i] == ws[..i];
    StoredIffPositive(ws[..i], ws[i].account);
    StoredIffPositive(ws[..j], ws[i].account);
    VersionCountsAccepted(ws, i + 1, j, ws[i].account);
  }

  /** Two accepted writes of an account expect the same version exactly when the first one found nothing stored and
      expected, by chance, the number of writes accepted from it up to the second one. */
  lemma {:induction false} SharedVersionIff<S>(ws: seq<Write<S>>, i: nat, j: nat)
    requires i < j < |ws| && ws[i].account == ws[j].account
    requires Accepted(Run(ws[..i]), ws[i]) && Accepted(Run(ws[..j]), ws[j])
    ensures ws[i].expected == ws[j].expected <==>
      ws[i].account !in Run(ws[..i]) && ws[i].expected == AcceptedFrom(ws, i, j, ws[i].account)
  {
    AcceptedVersionsIncrease(ws, i, j);
    assert ws[..i + 1][..i] == ws[..i];
    StoredIffPositive(ws[..i + 1], ws[i].account);
    StoredIffPositive(ws[..j], ws[i].account);
    VersionCountsAccepted(ws, i + 1, j, ws[i].account);
    VersionCountsAccepted(ws, i, j, ws[i].account);
  }

  /** A write in a run is accepted exactly when its version is not negative and, unless it is the first accepted write
      of its account, equals the number of those before it. */
  lemma {:induction false} AcceptedIff<S>(ws: seq<Write<S>>, j: nat)
    requires j < |ws|
    ensures var count := AcceptedFrom(ws, 0, j, ws[j].account);
      Accepted(Run(ws[..j]), ws[j]) <==> ws[j].expected >= 0 && (count == 0 || ws[j].expected == count)
  {
    StoredIffPositive(ws[..j], ws[j].account);
    VersionCountsAccepted(ws, 0, j, ws[j].account);
    assert Run(ws[..0]) == map[];
  }

  /** The stored settings are those of the last accepted write of the account. */
  lemma {:induction false} SettingsOfLastAccepted<S>(ws: seq<Write<S>>, account: AccountId) returns (k: nat)
    requires account in Run(ws)
    ensures k < |ws| && ws[k].account == account && Accepted(Run(ws[..k]), ws[k])
    ensures forall m :: k < m < |ws| && ws[m].account == account ==> !Accepted(Run(ws[..m]), ws[m])
    ensures Run(ws)[account] == Stored(ws[k].settings, AcceptedFrom(ws, 0, |ws|, account))
  {
    var n := |ws| - 1;
    var rest := ws[..n];
    VersionCountsAccepted(ws, 0, |ws|, account);
    assert ws[..|ws|] == ws && Run(ws[..0]) == map[];
    if ws[n].account == account && Accepted(Run(rest), ws[n]) {
      k := n;
    } else {
      k := SettingsOfLastAccepted(rest, account);
      assert rest[..k] == ws[..k];
      forall m | k < m < |ws| && ws[m].account == account ensures !Accepted(Run(ws[..m]), ws[m]) {
        if m < n { assert rest[..m] == ws[..m]; }
      }
    }
  }

  /** A write in a run is accepted without being based on what a read would show exactly when no write of its account
      was accepted before and it expects a positive version. */
  lemma {:induction false} UnbasedAcceptedIff<S>(ws: seq<Write<S>>, j: nat, defaults: S)
    requires j < |ws|
    ensures var w, t := ws[j], Run(ws[..j]);
      Accepted(t, w) && Read(t, w.account, defaults).version != w.expected <==>
        AcceptedFrom(ws, 0, j, w.account) == 0 && w.expected > 0
  {
    StoredIffPositive(ws[..j], ws[j].account);
    VersionCountsAccepted(ws, 0, j, ws[j].account);
    assert Run(ws[..0]) == map[];
  }

  /** Two accepted writes that both expected version one. */
  lemma FirstWriteSharesItsVersion()
    ensures var ws := [Write(1, "dark", 1), Write(1, "light", 1)];
      && Accepted(Run(ws[..0]), ws[0]) && Accepted(Run(ws[..1]), ws[1])
  {
    var ws := [Write(1, "dark", 1), Write(1, "light", 1)];
    assert ws[..1][..0] == [];
    assert Run(ws[..1]) == After(Run(ws[..1][..0]), ws[0]);
  }
}
