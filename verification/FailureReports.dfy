/** What the errors of the account store are worth. A failed statement is explained by later queries, and other clients
    may write in between: each error is right about the table exactly when their effective writes left it so. */
module FailureReports {
  import opened OwnedRows

  /** The holders of a key other than one row. */
  function Rivals<K(==), P>(t: Table<K, P>, account: AccountId, key: K, id: RowId): set<RowId> {
    Holders(t, account, key) - {id}
  }

  /** What an error says about a table, as an answer to one write. */
  ghost predicate Says<K, P>(t: Table<K, P>, w: Write<K, P>, f: Failure) {
    match f
    case NotFound => !Owns(t, w.account, w.id)
    case VersionConflict => Owns(t, w.account, w.id) && !w.Insert? && t[w.id].version != w.version
    case Duplicate => (w.Insert? || w.Rename?) && Rivals(t, w.account, w.key, w.id) != {}
    case QuotaExceeded => w.Insert? && |Mine(t, w.account)| >= w.quota
    case InvalidInput => false
  }

  // ----- what other clients did meanwhile -----

  /** Nobody else inserts this id: the generator never repeats one. */
  ghost predicate NeverInserted<K, P>(ws: seq<Write<K, P>>, id: RowId) {
    forall i :: 0 <= i < |ws| && ws[i].Insert? ==> ws[i].id != id
  }

  /** A delete of the row took effect. */
  predicate Deletes<K(==), P>(t: Table<K, P>, ws: seq<Write<K, P>>, id: RowId) {
    ws != []
    && var n := |ws| - 1;
       Deletes(t, ws[..n], id) || (Takes(Apply(t, ws[..n]), ws[n]) && ws[n].Delete? && ws[n].id == id)
  }

  datatype KeyEvent = Untouched | Taken | Freed

  /** The effect of one write on whether a rival holds the key. */
  function KeyEventOf<K(==), P>(t: Table<K, P>, w: Write<K, P>, account: AccountId, key: K, id: RowId): KeyEvent {
    if !Takes(t, w) || w.account != account || w.id == id then Untouched
    else if (w.Insert? || w.Rename?) && w.key == key then Taken
    else if (w.Delete? || w.Rename?) && w.id in Holders(t, account, key) then Freed
    else Untouched
  }

  /** The last effective write that took the key or freed it. */
  function LastKeyEvent<K(==), P>(
    t: Table<K, P>, ws: seq<Write<K, P>>, account: AccountId, key: K, id: RowId): KeyEvent
  {
    if ws == [] then Untouched
    else
      var n := |ws| - 1;
      var event := KeyEventOf(Apply(t, ws[..n]), ws[n], account, key, id);
      if event.Untouched? then LastKeyEvent(t, ws[..n], account, key, id) else event
  }

  /** Effective inserts of the account less its effective deletes. */
  function NetInserts<K(==), P>(t: Table<K, P>, ws: seq<Write<K, P>>, account: AccountId): int {
    if ws == [] then 0
    else
      var n := |ws| - 1;
      NetInserts(t, ws[..n], account)
      + if !Takes(Apply(t, ws[..n]), ws[n]) || ws[n].account != account then 0
        else if ws[n].Insert? then 1
        else if ws[n].Delete? then -1
        else 0
  }

  // ----- what that leaves -----

  lemma {:induction false} ApplyKeepsKeys<K, P>(t: Table<K, P>, ws: seq<Write<K, P>>)
    requires UniqueKeys(t)
    ensures UniqueKeys(Apply(t, ws))
  {
    if ws != [] {
      var n := |ws| - 1;
      ApplyKeepsKeys(t, ws[..n]);
      StepKeepsKeys(Apply(t, ws[..n]), ws[n]);
    }
  }

  lemma {:induction false} ApplyConcat<K, P>(t: Table<K, P>, a: seq<Write<K, P>>, b: seq<Write<K, P>>)
    ensures Apply(t, a + b) == Apply(Apply(t, a), b)
  {
    if b == [] {
      assert a + b == a;
    } else {
      ApplyConcat(t, a, b[..|b| - 1]);
      assert (a + b)[..|a + b| - 1] == a + b[..|b| - 1];
    }
  }

  /** A row stays owned until a delete takes effect, and its version grows by one per effective update. */
  lemma {:induction false} RowAfter<K, P>(t: Table<K, P>, ws: seq<Write<K, P>>, account: AccountId, id: RowId)
    requires NeverInserted(ws, id)
    ensures Owns(Apply(t, ws), account, id) <==> Owns(t, account, id) && !Deletes(t, ws, id)
    ensures Owns(Apply(t, ws), account, id) ==> Apply(t, ws)[id].version == t[id].version + UpdatesFrom(t, ws, id)
  {
    if ws != [] {
      var n := |ws| - 1;
      RowAfter(t, ws[..n], account, id);
    }
  }

  lemma TakenHasRival<K, P>(t: Table<K, P>, w: Write<K, P>, account: AccountId, key: K, id: RowId)
    requires KeyEventOf(t, w, account, key, id).Taken?
    ensures Rivals(After(t, w), account, key, id) != {}
  {
    assert w.id in Rivals(After(t, w), account, key, id);
  }

  lemma FreedHasNoRival<K, P>(t: Table<K, P>, w: Write<K, P>, account: AccountId, key: K, id: RowId)
    requires UniqueKeys(t) && KeyEventOf(t, w, account, key, id).Freed?
    ensures Rivals(t, account, key, id) != {} && Rivals(After(t, w), account, key, id) == {}
  {
    assert w.id in Rivals(t, account, key, id);
    forall r ensures r !in Rivals(After(t, w), account, key, id) {
      if r != w.id && r in t && t[r].account == account { assert t[r].key != t[w.id].key; }
    }
  }

  lemma UntouchedKeepsRivals<K, P>(t: Table<K, P>, w: Write<K, P>, account: AccountId, key: K, id: RowId)
    requires KeyEventOf(t, w, account, key, id).Untouched?
    ensures Rivals(After(t, w), account, key, id) == Rivals(t, account, key, id)
  {
    forall r ensures r in Rivals(After(t, w), account, key, id) <==> r in Rivals(t, account, key, id) {
      if r != w.id { assert r in t <==> r in After(t, w); }
    }
  }

  lemma RivalsStep<K, P>(t: Table<K, P>, w: Write<K, P>, account: AccountId, key: K, id: RowId)
    requires UniqueKeys(t)
    ensures var event := KeyEventOf(t, w, account, key, id);
      Rivals(After(t, w), account, key, id) != {} <==>
        if event.Untouched? then Rivals(t, account, key, id) != {} else event.Taken?
  {
    match KeyEventOf(t, w, account, key, id)
    case Taken => TakenHasRival(t, w, account, key, id);
    case Freed => FreedHasNoRival(t, w, account, key, id);
    case Untouched => UntouchedKeepsRivals(t, w, account, key, id);
  }

  /** Whether a rival holds a key is settled by the last effective write that took it or freed it. */
  lemma {:induction false} RivalsAfter<K, P>(
    t: Table<K, P>, ws: seq<Write<K, P>>, account: AccountId, key: K, id: RowId)
    requires UniqueKeys(t)
    ensures var event := LastKeyEvent(t, ws, account, key, id);
      Rivals(Apply(t, ws), account, key, id) != {} <==>
        if event.Untouched? then Rivals(t, account, key, id) != {} else event.Taken?
  {
    if ws != [] {
      var n := |ws| - 1;
      RivalsAfter(t, ws[..n], account, key, id);
      ApplyKeepsKeys(t, ws[..n]);
      RivalsStep(Apply(t, ws[..n]), ws[n], account, key, id);
    }
  }

  lemma {:induction false} CountAfter<K, P>(t: Table<K, P>, ws: seq<Write<K, P>>, account: AccountId)
    ensures |Mine(Apply(t, ws), account)| == |Mine(t, account)| + NetInserts(t, ws, account)
  {
    if ws != [] {
      var n := |ws| - 1;
      CountAfter(t, ws[..n], account);
      StepMine(Apply(t, ws[..n]), ws[n], account);
    }
  }

  // ----- when each error is right -----

  /** Update and Delete. Not found is right about the table when it is explained, and wrong about the table the
      statement failed on exactly when the row was there and a delete of it took effect since. Version conflict is
      right about the table the statement failed on, and wrong about the table when it is explained exactly when just
      as many updates took effect since as the expected version was ahead. */
  lemma VersionReportIff<K, P>(t: Table<K, P>, w: Write<K, P>, others: seq<Write<K, P>>)
    requires (w.Update? || w.Delete?) && !Takes(t, w) && NeverInserted(others, w.id)
    ensures var f, later := Report(t, w, others, []), Apply(t, others);
      && (f == NotFound || f == VersionConflict)
      && (f == NotFound ==> Says(later, w, f))
      && (f == NotFound && !Says(t, w, f) <==> Owns(t, w.account, w.id) && Deletes(t, others, w.id))
      && (f == VersionConflict ==> Says(t, w, f))
      && (f == VersionConflict && !Says(later, w, f) <==>
            && Owns(t, w.account, w.id) && !Deletes(t, others, w.id)
            && t[w.id].version + UpdatesFrom(t, others, w.id) == w.version)
  {
    RowAfter(t, others, w.account, w.id);
  }

  lemma FreshHasRivals<K, P>(t: Table<K, P>, w: Write<K, P>)
    requires w.Insert? && w.id !in t
    ensures Rivals(t, w.account, w.key, w.id) == Holders(t, w.account, w.key)
  {
  }

  /** Create. A duplicate is reported rightly about the table when it is explained, and wrongly about the table the
      statement failed on exactly when there was no room and no such name, and one has been taken since. An exceeded
      quota is wrong about the table the statement failed on exactly when there was room and the name that blocked the
      insert has been freed since; and wrong about the table when it is explained exactly when nobody holds the name
      and the inserts and deletes since leave room. */
  lemma CreateReportIff<K, P>(t: Table<K, P>, w: Write<K, P>, others: seq<Write<K, P>>)
    requires UniqueKeys(t) && w.Insert? && !Takes(t, w) && w.id !in t && NeverInserted(others, w.id)
    ensures var f, later := Report(t, w, others, []), Apply(t, others);
      var held, room := Holders(t, w.account, w.key) != {}, w.quota - |Mine(t, w.account)|;
      var event := LastKeyEvent(t, others, w.account, w.key, w.id);
      && (f == Duplicate || f == QuotaExceeded)
      && (f == Duplicate ==> Says(later, w, f))
      && (f == Duplicate && !Says(t, w, f) <==> !held && event.Taken?)
      && (f == QuotaExceeded && !Says(t, w, f) <==> held && room > 0 && event.Freed?)
      && (f == QuotaExceeded && !Says(later, w, f) <==>
            (if held then event.Freed? else !event.Taken?) && NetInserts(t, others, w.account) < room)
  {
    RowAfter(t, others, w.account, w.id);
    RivalsAfter(t, others, w.account, w.key, w.id);
    CountAfter(t, others, w.account);
    StaysAbsent(t, others, w.id);
    FreshHasRivals(t, w);
    FreshHasRivals(Apply(t, others), w);
  }

  lemma {:induction false} StaysAbsent<K, P>(t: Table<K, P>, ws: seq<Write<K, P>>, id: RowId)
    requires id !in t && NeverInserted(ws, id)
    ensures id !in Apply(t, ws)
  {
    if ws != [] { StaysAbsent(t, ws[..|ws| - 1], id); }
  }

  /** Rename. Not found is right about the table of the first explaining query, and wrong about the table the
      statement failed on exactly when a delete of the row took effect before that query. Version conflict is wrong
      about the table the statement failed on exactly when the expected version was the current one there, and the
      rival that blocked it has freed the name since; and wrong about the table of the second query exactly when the
      row is gone by then or just as many updates took effect as the expected version was ahead. A duplicate is right
      about the table of the second query, and wrong about the table the statement failed on exactly when there was no
      rival and one has taken the name since. */
  lemma RenameReportIff<K, P>(t: Table<K, P>, w: Write<K, P>, others: seq<Write<K, P>>, more: seq<Write<K, P>>)
    requires UniqueKeys(t) && w.Rename? && !Takes(t, w) && NeverInserted(others + more, w.id)
    ensures var f, second, third := Report(t, w, others, more), Apply(t, others), Apply(t, others + more);
      var rival := Rivals(t, w.account, w.key, w.id) != {};
      var event := LastKeyEvent(t, others + more, w.account, w.key, w.id);
      var present := Owns(t, w.account, w.id) && !Deletes(t, others, w.id);
      && (f == NotFound || f == VersionConflict || f == Duplicate)
      && (f == NotFound <==> !present)
      && (f == NotFound ==> Says(second, w, f))
      && (f == NotFound && !Says(t, w, f) <==> Owns(t, w.account, w.id) && Deletes(t, others, w.id))
      && (f == VersionConflict && !Says(t, w, f) <==>
            present && Current(t, w.account, w.id, w.version) && event.Freed?)
      && (f == VersionConflict && !Says(third, w, f) <==>
            && present && (if rival then event.Freed? else !event.Taken?)
            && (|| Deletes(t, others + more, w.id)
                || t[w.id].version + UpdatesFrom(t, others + more, w.id) == w.version))
      && (f == Duplicate ==> Says(third, w, f))
      && (f == Duplicate && !Says(t, w, f) <==> present && !rival && event.Taken?)
  {
    ApplyConcat(t, others, more);
    forall i | 0 <= i < |others| && others[i].Insert? ensures others[i].id != w.id {
      assert (others + more)[i] == others[i];
    }
    RowAfter(t, others, w.account, w.id);
    RowAfter(t, others + more, w.account, w.id);
    RivalsAfter(t, others + more, w.account, w.key, w.id);
    RivalsOrNot(Apply(t, others + more), w.account, w.key, w.id);
    RivalsOrNot(t, w.account, w.key, w.id);
  }

  lemma RivalsOrNot<K, P>(t: Table<K, P>, account: AccountId, key: K, id: RowId)
    ensures Holders(t, account, key) <= {id} <==> Rivals(t, account, key, id) == {}
  {
    if Rivals(t, account, key, id) == {} {
      forall r | r in Holders(t, account, key) ensures r == id { assert r !in Rivals(t, account, key, id); }
    }
  }

  /** Without interference every error is right. */
  lemma ReportedAtOnce<K, P>(t: Table<K, P>, w: Write<K, P>)
    requires !Takes(t, w) && (w.Insert? ==> w.id !in t)
    ensures Says(t, w, Report(t, w, [], []))
  {
    if w.Insert? { FreshHasRivals(t, w); }
    if w.Rename? { RivalsOrNot(t, w.account, w.key, w.id); }
  }

  // ----- a wrong answer of each kind -----

  lemma ApplyOne<K, P>(t: Table<K, P>, w: Write<K, P>)
    ensures Apply(t, [w]) == After(t, w)
  {
    assert [w][..0] == [];
  }

  /** One row, one account. */
  function Single(id: RowId, key: string, version: int): Table<string, string> {
    map[id := Row(1, key, "", version)]
  }

  /** A name that is deleted between the two statements makes an almost empty table report a full one. */
  lemma QuotaMisreported()
    ensures var t, w := Single(1, "go", 1), Insert(1, 2, "go", "", MAXIMUM_SAVED_SEARCHES);
      var others := [Write.Delete(1, 1, 1)];
      && !Takes(t, w) && Report(t, w, others, []) == QuotaExceeded
      && !Says(t, w, QuotaExceeded) && !Says(Apply(t, others), w, QuotaExceeded)
  {
    var t := Single(1, "go", 1);
    ApplyOne(t, Write.Delete(1, 1, 1));
    assert 1 in Holders(t, 1, "go");
    assert Mine(t, 1) == {1} && Mine(After(t, Write.Delete(1, 1, 1)), 1) == {};
  }

  /** n rows with the keys 1 to n. */
  function Rows(n: nat): Table<int, string> {
    map i: nat | 1 <= i <= n :: Row(1, i, "", 1)
  }

  lemma {:induction false} RowsFill(n: nat)
    ensures |Mine(Rows(n), 1)| == n
  {
    if n == 0 {
      assert Mine(Rows(0), 1) == {};
    } else {
      RowsFill(n - 1);
      assert Mine(Rows(n), 1) == Mine(Rows(n - 1), 1) + {n};
    }
  }

  /** At a full table a new name is refused for want of room; when another client makes room and takes the name first,
      the refusal is reported as a duplicate. */
  lemma DuplicateMisreported(quota: nat)
    requires quota > 0
    ensures var t, w := Rows(quota), Insert(1, quota + 1, 0, "", quota);
      var others := [Write.Delete(1, 1, 1), Insert(1, quota + 2, 0, "", quota)];
      !Takes(t, w) && Report(t, w, others, []) == Duplicate && !Says(t, w, Duplicate)
  {
    var t, w := Rows(quota), Insert(1, quota + 1, 0, "", quota);
    var first, second := Write.Delete(1, 1, 1), Insert(1, quota + 2, 0, "", quota);
    RowsFill(quota);
    StepMine(t, first, 1);
    ApplyOne(t, first);
    ApplyConcat(t, [first], [second]);
    ApplyOne(After(t, first), second);
    assert [first] + [second] == [first, second];
    assert Mine(After(t, first), 1) == Mine(t, 1) - {1};
    assert Holders(t, 1, 0) == {} && Holders(After(t, first), 1, 0) == {};
    assert quota + 2 in Holders(After(After(t, first), second), 1, 0);
  }

  /** A stale update of a row that is deleted before the second query is reported as an update of no row. */
  lemma NotFoundMisreported()
    ensures var t, w := Single(1, "go", 2), Update(1, 1, 1, "note");
      !Takes(t, w) && Report(t, w, [Write.Delete(1, 1, 2)], []) == NotFound && !Says(t, w, NotFound)
  {
    ApplyOne(Single(1, "go", 2), Write.Delete(1, 1, 2));
  }

  /** An update that expected the next version is told of a conflict with the very version it expected. */
  lemma ConflictAtExpectedVersion()
    ensures var t, w := Single(1, "go", 1), Update(1, 1, 2, "note");
      var others := [Update(1, 1, 1, "theirs")];
      && !Takes(t, w) && Report(t, w, others, []) == VersionConflict
      && Current(Apply(t, others), 1, 1, 2) && !Says(Apply(t, others), w, VersionConflict)
  {
    ApplyOne(Single(1, "go", 1), Update(1, 1, 1, "theirs"));
  }

  /** A rename blocked by another row's name is told of a version conflict when that row is deleted before the last
      query, although its version was the current one all along. */
  lemma ConflictAtCurrentVersion()
    ensures var t, w := Single(1, "go", 1)[2 := Row(1, "rust", "", 1)], Rename(1, 2, 1, "go", "");
      var more := [Write.Delete(1, 1, 1)];
      && !Takes(t, w) && Report(t, w, [], more) == VersionConflict
      && Current(t, 1, 2, 1) && Current(Apply(t, more), 1, 2, 1)
      && !Says(t, w, VersionConflict) && !Says(Apply(t, more), w, VersionConflict)
  {
    var t := Single(1, "go", 1)[2 := Row(1, "rust", "", 1)];
    ApplyOne(t, Write.Delete(1, 1, 1));
    assert 1 in Holders(t, 1, "go");
  }

  /** A stale rename to a name that is taken before the last query is reported as a duplicate. */
  lemma RenameDuplicateMisreported()
    ensures var t, w := Single(2, "rust", 2), Rename(1, 2, 1, "go", "");
      var others := [Insert(1, 3, "go", "", MAXIMUM_SAVED_SEARCHES)];
      !Takes(t, w) && Report(t, w, others, []) == Duplicate && !Says(t, w, Duplicate)
  {
    var t, insert := Single(2, "rust", 2), Insert(1, 3, "go", "", MAXIMUM_SAVED_SEARCHES);
    ApplyOne(t, insert);
    assert Mine(t, 1) == {2} && Holders(t, 1, "go") == {};
    assert 3 in Holders(After(t, insert), 1, "go");
  }

  /** A stale rename of a row that is deleted between the two explaining queries is told of a version conflict. */
  lemma ConflictOnMissingRow()
    ensures var t, w := Single(2, "rust", 2), Rename(1, 2, 1, "go", "");
      var more := [Write.Delete(1, 2, 2)];
      && !Takes(t, w) && Report(t, w, [], more) == VersionConflict
      && !Owns(Apply(t, more), 1, 2) && !Says(Apply(t, more), w, VersionConflict)
  {
    var t := Single(2, "rust", 2);
    ApplyOne(t, Write.Delete(1, 2, 2));
    assert Holders(After(t, Write.Delete(1, 2, 2)), 1, "go") == {};
  }
}
