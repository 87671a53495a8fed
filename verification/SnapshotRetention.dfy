/** The retained history of one account: at most 24 months, the oldest one making room for a new one. */
module SnapshotRetention {
  import opened Sets

  const MAXIMUM_PROFILE_SNAPSHOTS := 24

  type Table<P> = map<int, P>

  datatype Write<P> = Write(month: int, payload: P)

  // ----- months in order -----

  function Above(months: set<int>, month: int): set<int> {
    set m | m in months && m > month
  }

  /** The newest months: those with fewer than limit later ones. */
  function NewestMonths(months: set<int>, limit: nat): set<int> {
    set m | m in months && |Above(months, m)| < limit
  }

  predicate IsOldest(months: set<int>, month: int) {
    month in months && forall m :: m in months ==> month <= m
  }

  lemma {:induction false} OldestExists(months: set<int>)
    requires months != {}
    ensures exists m :: IsOldest(months, m)
    decreases months
  {
    SomeMember(months);
    var x :| x in months;
    var rest := months - {x};
    assert months == rest + {x};
    if rest == {} {
      assert IsOldest(months, x);
    } else {
      OldestExists(rest);
      var m :| IsOldest(rest, m);
      assert IsOldest(months, if x < m then x else m);
    }
  }

  /** min(month). */
  method Oldest(months: set<int>) returns (oldest: int)
    requires months != {}
    ensures IsOldest(months, oldest)
  {
    SomeMember(months);
    oldest :| oldest in months;
    var rest := months - {oldest};
    while rest != {}
      invariant rest <= months && oldest in months
      invariant forall m :: m in months && m !in rest ==> oldest <= m
      decreases rest
    {
      SomeMember(rest);
      var m :| m in rest;
      if m < oldest { oldest := m; }
      rest := rest - {m};
    }
  }

  // ----- the statement -----

  /** The upsert prunes the oldest month of a full table before it adds a month the table does not have. */
  ghost predicate Upserted<P>(t: Table<P>, w: Write<P>, after: Table<P>) {
    if |t| >= MAXIMUM_PROFILE_SNAPSHOTS && w.month !in t
    then exists m :: IsOldest(t.Keys, m) && after == (t - {m})[w.month := w.payload]
    else after == t[w.month := w.payload]
  }

  datatype Outcome = Written | NotFound

  class SnapshotStore<P> {
    var accountExists: bool
    var rows: Table<P>

    constructor ()
      ensures rows == map[] && accountExists
    {
      rows, accountExists := map[], true;
    }

    method Upsert(w: Write<P>) returns (r: Outcome)
      modifies this`rows
      ensures accountExists ==> r == Written && Upserted(old(rows), w, rows)
      ensures !accountExists ==> r == NotFound && rows == old(rows)
    {
      if !accountExists { return NotFound; }
      if |rows| >= MAXIMUM_PROFILE_SNAPSHOTS && w.month !in rows {
        var oldest := Oldest(rows.Keys);
        rows := rows - {oldest};
      }
      rows := rows[w.month := w.payload];
      return Written;
    }
  }

  // ----- what it is meant to keep -----

  /** The rows of the newest limit months of a history. */
  function Newest<P>(history: Table<P>, limit: nat): Table<P> {
    map m | m in history && m in NewestMonths(history.Keys, limit) :: history[m]
  }

  lemma AboveOldest(months: set<int>, o: int, m: int)
    requires IsOldest(months, o) && m in months
    ensures Above(months, m) == if m == o then months - {o} else Above(months - {o}, m)
  {
  }

  lemma {:induction false} NewestCount(months: set<int>, limit: nat)
    ensures |NewestMonths(months, limit)| == if |months| < limit then |months| else limit
    ensures |months| <= limit ==> NewestMonths(months, limit) == months
    decreases months
  {
    if months != {} {
      OldestExists(months);
      var o :| IsOldest(months, o);
      var rest := months - {o};
      NewestCount(rest, limit);
      NewestWithoutOldest(months, o, limit);
      if |rest| < limit {
        assert NewestMonths(months, limit) == NewestMonths(rest, limit) + {o};
      } else {
        assert NewestMonths(months, limit) == NewestMonths(rest, limit);
      }
    } else {
      assert NewestMonths(months, limit) == {};
    }
  }

  lemma NewestWithoutOldest(months: set<int>, o: int, limit: nat)
    requires IsOldest(months, o)
    ensures NewestMonths(months, limit) - {o} == NewestMonths(months - {o}, limit)
    ensures o in NewestMonths(months, limit) <==> |months - {o}| < limit
  {
    forall m | m in months ensures Above(months, m) == if m == o then months - {o} else Above(months - {o}, m) {
      AboveOldest(months, o, m);
    }
  }

  /** A month later than a kept one is kept. */
  lemma NewestIsUpwardClosed(months: set<int>, limit: nat, kept: int, m: int)
    requires kept in NewestMonths(months, limit) && m in months && m >= kept
    ensures m in NewestMonths(months, limit)
  {
    SubsetSize(Above(months, m), Above(months, kept));
  }

  lemma NewMonthPushesOldestOut(months: set<int>, limit: nat, o: int, m: int)
    requires |NewestMonths(months, limit)| == limit && IsOldest(NewestMonths(months, limit), o)
    requires m !in months && m > o
    ensures NewestMonths(months + {m}, limit) == NewestMonths(months, limit) - {o} + {m}
  {
    forall x | x in months + {m}
      ensures x in NewestMonths(months + {m}, limit) <==> x in NewestMonths(months, limit) - {o} + {m}
    {
      if x == m {
        AboveWithin(months, limit, o, m);
        assert Above(months + {m}, m) == Above(months, m);
      } else {
        OldMonthAfterNew(months, limit, o, m, x);
      }
    }
  }

  lemma OldMonthAfterNew(months: set<int>, limit: nat, o: int, m: int, x: int)
    requires |NewestMonths(months, limit)| == limit && IsOldest(NewestMonths(months, limit), o)
    requires m !in months && m > o && x in months
    ensures x in NewestMonths(months + {m}, limit) <==> x in NewestMonths(months, limit) - {o}
  {
    var kept := NewestMonths(months, limit);
    AboveWithNew(months, m, x);
    if x == o {
      AboveWithin(months, limit, o, o);
      assert kept - {o} <= Above(months, o);
      SubsetSize(kept - {o}, Above(months, o));
    } else if x in kept {
      AboveWithin(months, limit, o, x);
      assert Above(months, x) <= kept - {o} - {x};
      SubsetSize(Above(months, x), kept - {o} - {x});
    }
  }

  /** Months later than the oldest kept one are kept. */
  lemma AboveWithin(months: set<int>, limit: nat, o: int, x: int)
    requires IsOldest(NewestMonths(months, limit), o) && x >= o
    ensures Above(months, x) <= NewestMonths(months, limit) - {o}
    ensures |Above(months, x)| <= |NewestMonths(months, limit)| - 1
  {
    forall y | y in Above(months, x) ensures y in NewestMonths(months, limit) - {o} {
      NewestIsUpwardClosed(months, limit, o, y);
    }
    SubsetSize(Above(months, x), NewestMonths(months, limit) - {o});
  }

  lemma AboveWithNew(months: set<int>, m: int, x: int)
    requires m !in months && x in months
    ensures Above(months + {m}, x) == Above(months, x) + if m > x then {m} else {}
    ensures |Above(months + {m}, x)| == |Above(months, x)| + if m > x then 1 else 0
  {
    assert Above(months + {m}, x) == Above(months, x) + if m > x then {m} else {};
  }

  // ----- when the step keeps it -----

  /** The month is already there, or there is room, or it is later than some retained month. */
  predicate InOrder<P>(t: Table<P>, w: Write<P>) {
    w.month in t || |t| < MAXIMUM_PROFILE_SNAPSHOTS || exists m :: m in t && m < w.month
  }

  lemma NewestKeys<P>(history: Table<P>, limit: nat)
    ensures Newest(history, limit).Keys == NewestMonths(history.Keys, limit)
    ensures |Newest(history, limit)| == if |history| < limit then |history| else limit
    ensures |history| <= limit ==> Newest(history, limit) == history
  {
    assert Newest(history, limit).Keys == NewestMonths(history.Keys, limit);
    NewestCount(history.Keys, limit);
  }

  /** The step keeps exactly the newest 24 months if and only if the month is in order: a full table that is given a
      month older than all it holds loses its oldest row to it. */
  lemma StepKeepsNewestIff<P>(history: Table<P>, t: Table<P>, w: Write<P>, after: Table<P>)
    requires t == Newest(history, MAXIMUM_PROFILE_SNAPSHOTS) && Upserted(t, w, after)
    ensures after == Newest(history[w.month := w.payload], MAXIMUM_PROFILE_SNAPSHOTS) <==> InOrder(t, w)
  {
    NewestKeys(history, MAXIMUM_PROFILE_SNAPSHOTS);
    NewestKeys(history[w.month := w.payload], MAXIMUM_PROFILE_SNAPSHOTS);
    if w.month in t {
      ReplacedMonth(history, w);
    } else if |t| < MAXIMUM_PROFILE_SNAPSHOTS {
      assert |history[w.month := w.payload]| <= MAXIMUM_PROFILE_SNAPSHOTS;
    } else {
      FullTable(history, t, w, after);
    }
  }

  lemma ReplacedMonth<P>(history: Table<P>, w: Write<P>)
    requires w.month in Newest(history, MAXIMUM_PROFILE_SNAPSHOTS)
    ensures Newest(history[w.month := w.payload], MAXIMUM_PROFILE_SNAPSHOTS)
      == Newest(history, MAXIMUM_PROFILE_SNAPSHOTS)[w.month := w.payload]
  {
    assert history[w.month := w.payload].Keys == history.Keys;
  }

  lemma FullTable<P>(history: Table<P>, t: Table<P>, w: Write<P>, after: Table<P>)
    requires t == Newest(history, MAXIMUM_PROFILE_SNAPSHOTS) && Upserted(t, w, after)
    requires w.month !in t && |t| == MAXIMUM_PROFILE_SNAPSHOTS
    ensures after == Newest(history[w.month := w.payload], MAXIMUM_PROFILE_SNAPSHOTS) <==> InOrder(t, w)
  {
    var o :| IsOldest(t.Keys, o) && after == (t - {o})[w.month := w.payload];
    if o < w.month {
      LaterMonthReplacesOldest(history, w, o);
    } else {
      OlderMonthKeepsOldest(history, w, o);
      assert o !in after;
    }
  }

  lemma LaterMonthReplacesOldest<P>(history: Table<P>, w: Write<P>, o: int)
    requires var t := Newest(history, MAXIMUM_PROFILE_SNAPSHOTS);
      w.month !in t && |t| == MAXIMUM_PROFILE_SNAPSHOTS && IsOldest(t.Keys, o) && o < w.month
    ensures Newest(history[w.month := w.payload], MAXIMUM_PROFILE_SNAPSHOTS)
      == (Newest(history, MAXIMUM_PROFILE_SNAPSHOTS) - {o})[w.month := w.payload]
  {
    var limit := MAXIMUM_PROFILE_SNAPSHOTS;
    NewestKeys(history, limit);
    if w.month in history { NewestIsUpwardClosed(history.Keys, limit, o, w.month); }
    NewMonthPushesOldestOut(history.Keys, limit, o, w.month);
    SameRows(history, w, NewestMonths(history.Keys, limit), o);
  }

  lemma SameRows<P>(history: Table<P>, w: Write<P>, kept: set<int>, o: int)
    requires kept <= history.Keys && w.month !in history
    requires NewestMonths(history.Keys + {w.month}, MAXIMUM_PROFILE_SNAPSHOTS) == kept - {o} + {w.month}
    requires NewestMonths(history.Keys, MAXIMUM_PROFILE_SNAPSHOTS) == kept
    ensures Newest(history[w.month := w.payload], MAXIMUM_PROFILE_SNAPSHOTS)
      == (Newest(history, MAXIMUM_PROFILE_SNAPSHOTS) - {o})[w.month := w.payload]
  {
    assert history[w.month := w.payload].Keys == history.Keys + {w.month};
  }

  lemma OlderMonthKeepsOldest<P>(history: Table<P>, w: Write<P>, o: int)
    requires o in Newest(history, MAXIMUM_PROFILE_SNAPSHOTS) && w.month < o
    ensures o in Newest(history[w.month := w.payload], MAXIMUM_PROFILE_SNAPSHOTS)
  {
    assert Above(history[w.month := w.payload].Keys, o) == Above(history.Keys, o);
  }

  // ----- whole histories -----

  /** The last write of every month. */
  function Full<P>(ws: seq<Write<P>>): Table<P> {
    if ws == [] then map[] else Full(ws[..|ws| - 1])[ws[|ws| - 1].month := ws[|ws| - 1].payload]
  }

  ghost predicate Runs<P(!new)>(ws: seq<Write<P>>, states: seq<Table<P>>) {
    && |states| == |ws| + 1 && states[0] == map[]
    && forall i :: 0 <= i < |ws| ==> Upserted(states[i], ws[i], states[i + 1])
  }

  /** The table never holds more than 24 months, whatever is written. */
  lemma {:induction false} RunsWithinLimit<P(!new)>(ws: seq<Write<P>>, states: seq<Table<P>>)
    requires Runs(ws, states)
    ensures |states[|ws|]| <= MAXIMUM_PROFILE_SNAPSHOTS
  {
    if ws != [] {
      var n := |ws| - 1;
      RunsWithinLimit(ws[..n], states[..n + 1]);
      UpsertWithinLimit(states[n], ws[n], states[n + 1]);
    }
  }

  lemma UpsertWithinLimit<P>(t: Table<P>, w: Write<P>, after: Table<P>)
    requires |t| <= MAXIMUM_PROFILE_SNAPSHOTS && Upserted(t, w, after)
    ensures |after| <= MAXIMUM_PROFILE_SNAPSHOTS
  {
    if |t| >= MAXIMUM_PROFILE_SNAPSHOTS && w.month !in t {
      var m :| IsOldest(t.Keys, m) && after == (t - {m})[w.month := w.payload];
      assert after.Keys == t.Keys - {m} + {w.month};
    } else {
      assert after.Keys == t.Keys + {w.month};
    }
  }

  ghost predicate Nondecreasing<P>(ws: seq<Write<P>>) {
    forall i, j :: 0 <= i < j < |ws| ==> ws[i].month <= ws[j].month
  }

  lemma {:induction false} WrittenMonths<P>(ws: seq<Write<P>>, bound: int)
    requires forall i :: 0 <= i < |ws| ==> ws[i].month <= bound
    ensures forall m :: m in Full(ws) ==> m <= bound
  {
    if ws != [] { WrittenMonths(ws[..|ws| - 1], bound); }
  }

  /** While the clock does not go back, the table is the last write of each of the newest 24 months. */
  lemma {:induction false} RetainsNewestMonths<P(!new)>(ws: seq<Write<P>>, states: seq<Table<P>>)
    requires Runs(ws, states) && Nondecreasing(ws)
    ensures states[|ws|] == Newest(Full(ws), MAXIMUM_PROFILE_SNAPSHOTS)
  {
    if ws == [] {
      assert Newest(Full(ws), MAXIMUM_PROFILE_SNAPSHOTS) == map[];
    } else {
      var n := |ws| - 1;
      var history, t, w := Full(ws[..n]), states[n], ws[n];
      RetainsNewestMonths(ws[..n], states[..n + 1]);
      WrittenMonths(ws[..n], w.month);
      MonotoneIsInOrder(history, t, w);
      StepKeepsNewestIff(history, t, w, states[n + 1]);
    }
  }

  lemma MonotoneIsInOrder<P>(history: Table<P>, t: Table<P>, w: Write<P>)
    requires t == Newest(history, MAXIMUM_PROFILE_SNAPSHOTS) && forall m :: m in history ==> m <= w.month
    ensures InOrder(t, w)
  {
    if w.month !in t && |t| >= MAXIMUM_PROFILE_SNAPSHOTS {
      SomeMember(t.Keys);
      assert t != map[];
      var m :| m in t.Keys;
      assert m in t && m != w.month && m <= w.month;
    }
  }

  /** The months 1 to n. */
  function History<P>(n: nat, payload: P): Table<P> {
    map m | m in UpTo(n) :: payload
  }

  lemma HistorySize<P>(n: nat, payload: P)
    ensures |History(n, payload)| == n
  {
    assert History(n, payload).Keys == UpTo(n);
  }

  /** Months 1 to 24 are stored and month 0 is written: month 1 is lost to it, and what is retained is not the newest
      24 of the 25 months. */
  lemma OlderMonthIsKept<P>(payload: P, after: Table<P>)
    requires Upserted(History(MAXIMUM_PROFILE_SNAPSHOTS, payload), Write(0, payload), after)
    ensures Newest(History(MAXIMUM_PROFILE_SNAPSHOTS, payload), MAXIMUM_PROFILE_SNAPSHOTS)
      == History(MAXIMUM_PROFILE_SNAPSHOTS, payload)
    ensures 0 in after && 1 !in after
    ensures after != Newest(History(MAXIMUM_PROFILE_SNAPSHOTS, payload)[0 := payload], MAXIMUM_PROFILE_SNAPSHOTS)
  {
    var t, w := History(MAXIMUM_PROFILE_SNAPSHOTS, payload), Write(0, payload);
    HistorySize(MAXIMUM_PROFILE_SNAPSHOTS, payload);
    NewestKeys(t, MAXIMUM_PROFILE_SNAPSHOTS);
    StepKeepsNewestIff(t, t, w, after);
    assert IsOldest(t.Keys, 1);
  }
}
