/** The embedded migration catalog, its comparison with the schema_migrations table, and one Migrate call. */
module MigrationCatalog {
  import opened Options
  import opened Sets
  import opened Sorting

  /** SHA-256 is taken to be injective: a digest is identified with what was digested. */
  datatype Digest = Sha256(content: string)

  datatype Migration = Migration(version: int, name: string, sql: string) {
    function Checksum(): Digest {
      Sha256(sql)
    }
  }

  /** A row of schema_migrations without its timestamp. */
  datatype Row = Row(name: string, checksum: Digest)

  type Applied = map<int, Row>

  datatype Outcome = Success | MigrationFailed | MigrationDrift

  ghost predicate Contiguous(migrations: seq<Migration>) {
    forall i :: 0 <= i < |migrations| ==> migrations[i].version == i + 1
  }

  // ----- loading -----

  datatype FileEntry = FileEntry(isDirectory: bool, fileName: string, content: string)

  predicate IsDigit(c: char) {
    '0' <= c <= '9'
  }

  predicate IsNameCharacter(c: char) {
    'a' <= c <= 'z' || IsDigit(c) || c == '_'
  }

  function DecimalValue(digits: string): int
    requires forall c :: c in digits ==> IsDigit(c)
  {
    if digits == [] then 0
    else 10 * DecimalValue(digits[..|digits| - 1]) + (digits[|digits| - 1] as int - '0' as int)
  }

  /** The names ^(\d{6})_([a-z0-9_]+)\.sql$ accepts. */
  predicate IsMigrationName(s: string) {
    && |s| >= 12
    && (forall c :: c in s[..6] ==> IsDigit(c))
    && s[6] == '_'
    && (forall c :: c in s[7..|s| - 4] ==> IsNameCharacter(c))
    && s[|s| - 4..] == ".sql"
  }

  predicate Readable(e: FileEntry) {
    !e.isDirectory && IsMigrationName(e.fileName) && e.content != []
  }

  function Parse(e: FileEntry): Migration
    requires Readable(e)
  {
    Migration(DecimalValue(e.fileName[..6]), e.fileName[7..|e.fileName| - 4], e.content)
  }

  /** Six digits, an underscore, a name of lower-case letters, digits and underscores, and the suffix. */
  ghost predicate WellNamed(s: string, digits: string, name: string) {
    && |digits| == 6 && (forall i :: 0 <= i < 6 ==> digits[i] in "0123456789")
    && name != [] && (forall i :: 0 <= i < |name| ==> name[i] in "abcdefghijklmnopqrstuvwxyz0123456789_")
    && s == digits + "_" + name + ".sql"
  }

  lemma CharactersListed(c: char)
    ensures IsDigit(c) <==> c in "0123456789"
    ensures IsNameCharacter(c) <==> c in "abcdefghijklmnopqrstuvwxyz0123456789_"
  {
  }

  lemma NameIff(s: string)
    ensures IsMigrationName(s) <==> exists digits, name :: WellNamed(s, digits, name)
  {
    forall c ensures IsDigit(c) <==> c in "0123456789" { CharactersListed(c); }
    forall c ensures IsNameCharacter(c) <==> c in "abcdefghijklmnopqrstuvwxyz0123456789_" { CharactersListed(c); }
    if IsMigrationName(s) {
      var n := |s| - 4;
      assert s == s[..6] + "_" + s[7..n] + ".sql";
      assert WellNamed(s, s[..6], s[7..n]);
    }
    if digits, name :| WellNamed(s, digits, name) {
      SplitName(s, digits, name);
    }
  }

  /** Exactly the files are accepted that are well named and not empty. */
  lemma ReadableIff(e: FileEntry)
    ensures Readable(e) <==>
      !e.isDirectory && |e.content| > 0 && exists digits, name :: WellNamed(e.fileName, digits, name)
  {
    NameIff(e.fileName);
  }

  lemma SplitName(s: string, digits: string, name: string)
    requires |digits| == 6 && s == digits + "_" + name + ".sql"
    ensures s[..6] == digits && s[6] == '_' && s[7..|s| - 4] == name && s[|s| - 4..] == ".sql"
  {
  }

  /** The version is the number the six digits write, the name is what stands between. */
  lemma ParseInFields(e: FileEntry, digits: string, name: string)
    requires Readable(e) && WellNamed(e.fileName, digits, name)
    ensures Parse(e) == Migration(NumberOf(digits), name, e.content)
  {
    SplitName(e.fileName, digits, name);
    SixDigits(digits);
  }

  /** The number six digits write. */
  function NumberOf(digits: string): int
    requires |digits| == 6
  {
    100_000 * Digit(digits[0]) + 10_000 * Digit(digits[1]) + 1_000 * Digit(digits[2])
    + 100 * Digit(digits[3]) + 10 * Digit(digits[4]) + Digit(digits[5])
  }

  lemma SixDigits(digits: string)
    requires |digits| == 6 && forall c :: c in digits ==> IsDigit(c)
    ensures DecimalValue(digits) == NumberOf(digits)
  {
    DecimalSnoc(digits, 5);
    DecimalSnoc(digits, 4);
    DecimalSnoc(digits, 3);
    DecimalSnoc(digits, 2);
    DecimalSnoc(digits, 1);
    DecimalSnoc(digits, 0);
    assert digits[..6] == digits && digits[..0] == [];
  }

  function Digit(c: char): int {
    c as int - '0' as int
  }

  lemma DecimalSnoc(digits: string, i: nat)
    requires i < |digits| && forall c :: c in digits ==> IsDigit(c)
    ensures forall c :: c in digits[..i + 1] ==> IsDigit(c)
    ensures DecimalValue(digits[..i + 1]) == 10 * DecimalValue(digits[..i]) + Digit(digits[i])
  {
    assert digits[..i + 1][..i] == digits[..i];
  }

  function ParseAll(entries: seq<FileEntry>): seq<Migration>
    requires forall e :: e in entries ==> Readable(e)
  {
    seq(|entries|, i requires 0 <= i < |entries| => assert entries[i] in entries; Parse(entries[i]))
  }

  function ByVersion(): (Migration, Migration) -> int {
    Ascending((m: Migration) => m.version)
  }

  ghost predicate HasVersion(migrations: seq<Migration>, v: int) {
    exists m :: m in migrations && m.version == v
  }

  /** n migrations that include every version from 1 to n. */
  ghost predicate Complete(migrations: seq<Migration>) {
    forall v :: 1 <= v <= |migrations| ==> HasVersion(migrations, v)
  }

  ghost predicate AllReadable(entries: seq<FileEntry>) {
    forall e :: e in entries ==> Readable(e)
  }

  method LoadMigrations(entries: seq<FileEntry>) returns (r: Option<seq<Migration>>)
    ensures r.Some? <==> AllReadable(entries) && Complete(ParseAll(entries))
    ensures r.Some? ==> Contiguous(r.value) && multiset(r.value) == multiset(ParseAll(entries))
  {
    var parsed := ParseEntries(entries);
    if parsed.None? {
      return None;
    }
    var sorted := StableSort(ByVersion(), parsed.value);
    SortedByVersion(parsed.value);
    ContiguousIffComplete(parsed.value, sorted);
    var contiguous := CheckVersions(sorted);
    return if contiguous then Some(sorted) else None;
  }

  method CheckVersions(sorted: seq<Migration>) returns (ok: bool)
    ensures ok <==> Contiguous(sorted)
  {
    for i := 0 to |sorted|
      invariant forall k :: 0 <= k < i ==> sorted[k].version == k + 1
    {
      if sorted[i].version != i + 1 {
        return false;
      }
    }
    return true;
  }

  lemma SortedByVersion(migrations: seq<Migration>)
    ensures var sorted := StableSort(ByVersion(), migrations);
            && Sorted(ByVersion(), sorted)
            && multiset(sorted) == multiset(migrations) && |sorted| == |migrations|
  {
    AscendingIsTotal((m: Migration) => m.version);
    SortSorted(ByVersion(), migrations);
    SortMembers(ByVersion(), migrations);
    assert |multiset(StableSort(ByVersion(), migrations))| == |multiset(migrations)|;
  }

  method ParseEntries(entries: seq<FileEntry>) returns (r: Option<seq<Migration>>)
    ensures r.Some? <==> AllReadable(entries)
    ensures r.Some? ==> r.value == ParseAll(entries)
  {
    var migrations: seq<Migration> := [];
    for i := 0 to |entries|
      invariant AllReadable(entries[..i])
      invariant migrations == ParseAll(entries[..i])
    {
      assert entries[..i + 1] == entries[..i] + [entries[i]];
      assert entries[i] in entries;
      if !Readable(entries[i]) {
        return None;
      }
      migrations := migrations + [Parse(entries[i])];
    }
    assert entries[..|entries|] == entries;
    return Some(migrations);
  }

  /** Pigeonhole: sorted, n migrations are 1, 2, .., n exactly when no version from 1 to n is missing. */
  lemma ContiguousIffComplete(migrations: seq<Migration>, sorted: seq<Migration>)
    requires multiset(sorted) == multiset(migrations) && |sorted| == |migrations| && Sorted(ByVersion(), sorted)
    ensures Contiguous(sorted) <==> Complete(migrations)
  {
    forall m ensures m in sorted <==> m in migrations {
      assert m in multiset(sorted) <==> m in multiset(migrations);
    }
    forall v ensures HasVersion(sorted, v) <==> HasVersion(migrations, v) {
      if HasVersion(sorted, v) {
        var m :| m in sorted && m.version == v;
        assert m in migrations;
      }
      if HasVersion(migrations, v) {
        var m :| m in migrations && m.version == v;
        assert m in sorted;
      }
    }
    if Contiguous(sorted) {
      forall v | 1 <= v <= |migrations| ensures HasVersion(migrations, v) {
        assert sorted[v - 1] in sorted && sorted[v - 1].version == v;
      }
    }
    if Complete(sorted) {
      CompleteSortedIsContiguous(sorted);
    }
  }

  function Versions(s: seq<Migration>): seq<int> {
    seq(|s|, i requires 0 <= i < |s| => s[i].version)
  }

  lemma CompleteSortedIsContiguous(s: seq<Migration>)
    requires Sorted(ByVersion(), s) && Complete(s)
    ensures Contiguous(s)
  {
    var versions := Versions(s);
    forall v | 1 <= v <= |s| ensures v in versions {
      assert HasVersion(s, v);
      var m :| m in s && m.version == v;
      var i :| 0 <= i < |s| && s[i] == m;
      assert versions[i] == v;
    }
    forall i, j | 0 <= i < j < |s| ensures versions[i] <= versions[j] {
      assert ByVersion()(s[i], s[j]) == Compare(s[i].version, s[j].version);
    }
    CoveringSortedIsIdentity(versions, |s|);
    forall i | 0 <= i < |s| ensures s[i].version == i + 1 {
      assert versions[i] == i + 1;
    }
  }

  /** A sorted list of n numbers containing 1..n is 1, 2, .., n. */
  lemma {:induction false} CoveringSortedIsIdentity(s: seq<int>, n: nat)
    requires |s| == n
    requires forall i, j :: 0 <= i < j < |s| ==> s[i] <= s[j]
    requires forall v :: 1 <= v <= n ==> v in s
    ensures forall i :: 0 <= i < n ==> s[i] == i + 1
  {
    if n > 0 {
      var rest, last := s[..n - 1], s[n - 1];
      assert n in s;
      assert last >= n;
      forall v | 1 <= v <= n - 1 ensures v in rest {
        assert v in s;
        var i :| 0 <= i < n && s[i] == v;
        assert i != n - 1;
        assert rest[i] == v;
      }
      CoveringSortedIsIdentity(rest, n - 1);
      var i :| 0 <= i < n && s[i] == n;
      assert forall k :: 0 <= k < n - 1 ==> s[k] == rest[k];
      assert i == n - 1;
    }
  }

  // ----- verification -----

  /** The applied rows are a checksum-matching prefix of the catalog. */
  ghost predicate AppliedPrefix(migrations: seq<Migration>, applied: Applied) {
    && |applied| <= |migrations|
    && (forall v :: v in applied <==> 1 <= v <= |applied|)
    && (forall v :: v in applied ==> Matches(migrations, v, applied[v]))
  }

  predicate Matches(migrations: seq<Migration>, v: int, row: Row) {
    1 <= v <= |migrations| && row.checksum == migrations[v - 1].Checksum()
  }

  method VerifyMigrationSet(migrations: seq<Migration>, applied: Applied) returns (ok: bool)
    requires Contiguous(migrations)
    ensures ok <==> AppliedPrefix(migrations, applied)
  {
    var known := ByVersionNumber(migrations);
    var matched := AllKnown(migrations, known, applied);
    if !matched {
      return false;
    }
    var version := 1;
    while version <= |applied|
      invariant 1 <= version <= |applied| + 1
      invariant forall v :: 1 <= v < version ==> v in applied
    {
      if version !in applied {
        return false;
      }
      version := version + 1;
    }
    PresentPrefixIsAll(applied.Keys, |applied|);
    assert |applied| > 0 ==> |applied| in applied;
    return true;
  }

  method AllKnown(ghost migrations: seq<Migration>, known: map<int, Migration>, applied: Applied)
    returns (ok: bool)
    requires forall v :: v in known <==> 1 <= v <= |migrations|
    requires forall v :: v in known ==> known[v] == migrations[v - 1]
    ensures ok <==> forall v :: v in applied ==> Matches(migrations, v, applied[v])
  {
    var rest: set<int> := applied.Keys;
    while rest != {}
      invariant rest <= applied.Keys
      invariant forall v :: v in applied && v !in rest ==> Matches(migrations, v, applied[v])
    {
      SomeMember(rest);
      var v :| v in rest;
      if v !in known || known[v].Checksum() != applied[v].checksum {
        assert !Matches(migrations, v, applied[v]);
        return false;
      }
      rest := rest - {v};
    }
    return true;
  }

  method ByVersionNumber(migrations: seq<Migration>) returns (known: map<int, Migration>)
    requires Contiguous(migrations)
    ensures forall v :: v in known <==> 1 <= v <= |migrations|
    ensures forall v :: v in known ==> known[v] == migrations[v - 1]
  {
    known := map[];
    for i := 0 to |migrations|
      invariant forall v :: v in known <==> 1 <= v <= i
      invariant forall v :: v in known ==> known[v] == migrations[v - 1]
    {
      known := known[migrations[i].version := migrations[i]];
    }
  }

  /** Pigeonhole: n keys that include 1..n are exactly 1..n. */
  lemma PresentPrefixIsAll(keys: set<int>, n: nat)
    requires |keys| == n && forall v :: 1 <= v <= n ==> v in keys
    ensures forall v :: v in keys <==> 1 <= v <= n
  {
    var prefix := UpTo(n);
    assert keys == prefix + (keys - prefix);
    assert |keys - prefix| == 0;
    assert keys == prefix;
  }

  lemma KeysCount(rows: Applied, n: nat)
    requires forall v :: v in rows <==> 1 <= v <= n
    ensures |rows| == n
  {
    assert rows.Keys == UpTo(n);
  }

  // ----- one Migrate call on its own -----

  /** What the environment does to the transaction of one version. A lost acknowledgement is a commit the
      client is told failed. */
  datatype Fate = Commits | Fails | CommitsUnacknowledged

  datatype Executed = Executed(version: int, sql: string)

  function Log(migrations: seq<Migration>): seq<Executed> {
    seq(|migrations|, i requires 0 <= i < |migrations| => Executed(migrations[i].version, migrations[i].sql))
  }

  /** Where the loop stops when it starts at position next, and whether it stops at the end. UNIQUE (name) and the
      primary key make recording fail for a name or version already there. */
  function Advance(migrations: seq<Migration>, names: set<string>, next: nat, fate: int -> Fate): (r: (nat, bool))
    requires next <= |migrations|
    ensures next <= r.0 <= |migrations|
    ensures r.1 ==> r.0 == |migrations|
    decreases |migrations| - next
  {
    if next == |migrations| then (next, true)
    else
      var m := migrations[next];
      if m.name in names || fate(m.version).Fails? then (next, false)
      else if fate(m.version).CommitsUnacknowledged? then (next + 1, false)
      else Advance(migrations, names + {m.name}, next + 1, fate)
  }

  class Database {
    var rows: Applied
    /** The migration SQL whose transaction committed, in commit order. */
    var executed: seq<Executed>

    constructor ()
      ensures rows == map[] && executed == []
    {
      rows, executed := map[], [];
    }

    function Names(): set<string>
      reads this
    {
      NamesOf(rows)
    }

    /** connected and readable say whether the statements before the loop succeed. */
    method Migrate(migrations: seq<Migration>, connected: bool, readable: bool, fate: int -> Fate)
      returns (outcome: Outcome)
      requires Contiguous(migrations)
      modifies this
      ensures !connected || !readable ==> outcome == MigrationFailed
      ensures connected && readable ==> (outcome == MigrationDrift <==> !AppliedPrefix(migrations, old(rows)))
      ensures !connected || !readable || outcome == MigrationDrift ==> rows == old(rows) && executed == old(executed)
      ensures connected && readable && outcome != MigrationDrift ==>
        var k := |old(rows)|;
        var (reached, done) := Advance(migrations, old(Names()), k, fate);
        && executed == old(executed) + Log(migrations[k..reached])
        && Reached(rows, old(rows), migrations, reached)
        && AppliedPrefix(migrations, rows)
        && (outcome == Success <==> done)
    {
      if !connected {
        return MigrationFailed;
      }
      if !readable {
        return MigrationFailed;
      }
      var applied := rows;
      var verified := VerifyMigrationSet(migrations, applied);
      if !verified {
        return MigrationDrift;
      }
      outcome := ApplyPending(migrations, applied, fate);
    }

    method ApplyPending(migrations: seq<Migration>, applied: Applied, fate: int -> Fate) returns (outcome: Outcome)
      requires Contiguous(migrations) && AppliedPrefix(migrations, applied) && rows == applied
      modifies this
      ensures var (reached, done) := Advance(migrations, NamesOf(applied), |applied|, fate);
        && Progress(rows, executed, applied, old(executed), migrations, reached)
        && outcome == if done then Success else MigrationFailed
    {
      ghost var goal := Advance(migrations, NamesOf(applied), |applied|, fate);
      ProgressStart(applied, executed, migrations);
      for i := 0 to |migrations|
        invariant Progress(rows, executed, applied, old(executed), migrations, Larger(|applied|, i))
        invariant goal == Advance(migrations, NamesOf(rows), Larger(|applied|, i), fate)
      {
        PendingPositions(applied, migrations, i);
        if migrations[i].version in applied {
          continue;
        }
        outcome := ApplyNext(migrations, applied, old(executed), i, fate);
        if outcome != Success {
          return;
        }
      }
      return Success;
    }

    /** One turn of the loop: it moves one version on, or stops where Advance stops. */
    method ApplyNext(
      migrations: seq<Migration>, ghost applied: Applied, ghost before: seq<Executed>, i: nat, fate: int -> Fate
    ) returns (outcome: Outcome)
      requires i < |migrations| && migrations[i].version == i + 1 && i + 1 !in applied
      requires AppliedPrefix(migrations, applied) && Progress(rows, executed, applied, before, migrations, i)
      modifies this
      ensures var goal := Advance(migrations, old(Names()), i, fate);
        if outcome == Success
        then
          && Progress(rows, executed, applied, before, migrations, i + 1)
          && goal == Advance(migrations, Names(), i + 1, fate)
        else
          && outcome == MigrationFailed && !goal.1
          && Progress(rows, executed, applied, before, migrations, goal.0)
    {
      ReachedStep(rows, applied, migrations, i);
      LogSnoc(migrations, |applied|, i);
      ReachedIsPrefix(rows[i + 1 := Row(migrations[i].name, migrations[i].Checksum())], applied, migrations, i + 1);
      outcome := ApplyMigration(migrations[i], fate(migrations[i].version));
    }

    method ApplyMigration(m: Migration, fate: Fate) returns (outcome: Outcome)
      modifies this
      ensures m.version in old(rows) || m.name in old(Names()) || fate == Fails ==>
        outcome == MigrationFailed && rows == old(rows) && executed == old(executed)
      ensures m.version !in old(rows) && m.name !in old(Names()) && fate != Fails ==>
        && rows == old(rows)[m.version := Row(m.name, m.Checksum())]
        && Names() == old(Names()) + {m.name}
        && executed == old(executed) + [Executed(m.version, m.sql)]
        && outcome == if fate == Commits then Success else MigrationFailed
    {
      if fate == Fails || m.version in rows || m.name in Names() {
        return MigrationFailed;
      }
      NamesGrow(rows, m);
      rows := rows[m.version := Row(m.name, m.Checksum())];
      executed := executed + [Executed(m.version, m.sql)];
      return if fate == Commits then Success else MigrationFailed;
    }
  }

  function NamesOf(rows: Applied): set<string> {
    set v | v in rows :: rows[v].name
  }

  lemma NamesGrow(rows: Applied, m: Migration)
    requires m.version !in rows
    ensures NamesOf(rows[m.version := Row(m.name, m.Checksum())]) == NamesOf(rows) + {m.name}
  {
    var after := rows[m.version := Row(m.name, m.Checksum())];
    forall name | name in NamesOf(rows) ensures name in NamesOf(after) {
      var v :| v in rows && rows[v].name == name;
      assert v in after && after[v].name == name;
    }
    assert m.version in after && after[m.version].name == m.name;
  }

  /** The rows before, and new rows up to version n. */
  ghost predicate Reached(rows: Applied, before: Applied, migrations: seq<Migration>, n: nat)
    requires n <= |migrations|
  {
    && (forall v :: v in rows <==> 1 <= v <= n)
    && (forall v :: v in rows ==> rows[v] == if v in before then before[v]
                                             else Row(migrations[v - 1].name, migrations[v - 1].Checksum()))
  }

  /** Where the loop stands: n versions are in the table, a verified prefix, and those beyond applied were executed. */
  ghost predicate Progress(
    rows: Applied, executed: seq<Executed>, applied: Applied, before: seq<Executed>, migrations: seq<Migration>, n: nat)
  {
    && |applied| <= n <= |migrations|
    && Reached(rows, applied, migrations, n)
    && AppliedPrefix(migrations, rows)
    && executed == before + Log(migrations[|applied|..n])
  }

  lemma ProgressStart(applied: Applied, executed: seq<Executed>, migrations: seq<Migration>)
    requires AppliedPrefix(migrations, applied)
    ensures Progress(applied, executed, applied, executed, migrations, |applied|)
  {
    assert Log(migrations[|applied|..|applied|]) == [];
  }

  /** The loop skips the positions of the verified prefix and no other. */
  lemma PendingPositions(applied: Applied, migrations: seq<Migration>, i: nat)
    requires Contiguous(migrations) && AppliedPrefix(migrations, applied) && i < |migrations|
    ensures migrations[i].version == i + 1
    ensures if i + 1 in applied then Larger(|applied|, i) == Larger(|applied|, i + 1) == |applied|
            else Larger(|applied|, i) == i && Larger(|applied|, i + 1) == i + 1
  {
  }

  lemma ReachedStep(rows: Applied, before: Applied, migrations: seq<Migration>, i: nat)
    requires i < |migrations| && Reached(rows, before, migrations, i) && i + 1 !in before
    ensures Reached(rows[i + 1 := Row(migrations[i].name, migrations[i].Checksum())], before, migrations, i + 1)
  {
  }

  lemma LogSnoc(migrations: seq<Migration>, k: nat, i: nat)
    requires k <= i < |migrations|
    ensures Log(migrations[k..i + 1])
         == Log(migrations[k..i]) + [Executed(migrations[i].version, migrations[i].sql)]
  {
  }

  lemma ReachedIsPrefix(rows: Applied, before: Applied, migrations: seq<Migration>, n: nat)
    requires AppliedPrefix(migrations, before) && n <= |migrations| && Reached(rows, before, migrations, n)
    ensures AppliedPrefix(migrations, rows)
  {
    KeysCount(rows, n);
  }

  function Larger(x: nat, y: nat): nat {
    if x < y then y else x
  }

  // ----- restarts -----

  /** The names still to be recorded are new and different from each other. */
  ghost predicate NamesAvailable(migrations: seq<Migration>, names: set<string>, next: nat)
    requires next <= |migrations|
  {
    && (forall i :: next <= i < |migrations| ==> migrations[i].name !in names)
    && (forall i, j :: next <= i < j < |migrations| ==> migrations[i].name != migrations[j].name)
  }

  /** Undisturbed, the loop reaches the end exactly when no pending name collides. Loading checks versions only, so
      a catalog that repeats a name loads and verifies but can never be applied in full. */
  lemma {:induction false} UndisturbedRunCompletes(migrations: seq<Migration>, names: set<string>, next: nat)
    requires next <= |migrations|
    ensures Advance(migrations, names, next, v => Commits).1 <==> NamesAvailable(migrations, names, next)
    decreases |migrations| - next
  {
    if next < |migrations| && migrations[next].name !in names {
      UndisturbedRunCompletes(migrations, names + {migrations[next].name}, next + 1);
    }
  }

  function NamesBetween(migrations: seq<Migration>, from: nat, to: nat): set<string>
    requires from <= to <= |migrations|
  {
    set i | from <= i < to :: migrations[i].name
  }

  /** Whatever one run went through, a later undisturbed run carries on where it stopped: together they reach
      the end exactly when a single undisturbed run would have. */
  lemma {:induction false} RestartCompletes(
    migrations: seq<Migration>, names: set<string>, next: nat, fate: int -> Fate)
    requires next <= |migrations|
    ensures var stopped := Advance(migrations, names, next, fate).0;
            Advance(migrations, names + NamesBetween(migrations, next, stopped), stopped, v => Commits).1
            <==> Advance(migrations, names, next, v => Commits).1
    decreases |migrations| - next
  {
    var stopped := Advance(migrations, names, next, fate).0;
    if stopped == next {
      assert names + NamesBetween(migrations, next, next) == names;
    } else {
      var m := migrations[next];
      if fate(m.version).CommitsUnacknowledged? {
        assert NamesBetween(migrations, next, next + 1) == {m.name};
      } else {
        RestartCompletes(migrations, names + {m.name}, next + 1, fate);
        assert names + {m.name} + NamesBetween(migrations, next + 1, stopped)
            == names + NamesBetween(migrations, next, stopped) by {
          forall name ensures name in NamesBetween(migrations, next, stopped)
                         <==> name == m.name || name in NamesBetween(migrations, next + 1, stopped)
          {
            assert name == m.name ==> migrations[next].name == name;
          }
        }
      }
    }
  }

  // ----- a catalog that can never be applied -----

  const FIRST_USERS := FileEntry(false, "000001_users.sql", "a")
  const SECOND_USERS := FileEntry(false, "000002_users.sql", "b")

  lemma {:induction false} ZeroesAreZero(digits: string)
    requires forall c :: c in digits ==> c == '0'
    ensures DecimalValue(digits) == 0
  {
    if digits != [] {
      var n := |digits| - 1;
      forall c | c in digits[..n] ensures c == '0' { assert c in digits; }
      assert digits[n] in digits;
      ZeroesAreZero(digits[..n]);
    }
  }

  lemma AfterZeroes(digits: string, last: char)
    requires IsDigit(last) && forall c :: c in digits ==> c == '0'
    ensures forall c :: c in digits + [last] ==> IsDigit(c)
    ensures DecimalValue(digits + [last]) == last as int - '0' as int
  {
    ZeroesAreZero(digits);
    assert (digits + [last])[..|digits|] == digits;
  }

  lemma UsersFile(e: FileEntry, last: char)
    requires !e.isDirectory && e.content != [] && IsDigit(last)
    requires e.fileName == ("00000" + [last]) + ("_" + "users" + ".sql")
    ensures Readable(e) && Parse(e) == Migration(last as int - '0' as int, "users", e.content)
  {
    var name := e.fileName;
    AfterZeroes("00000", last);
    assert |name| == 16;
    assert name[..6] == "00000" + [last];
    assert name[6..] == "_" + "users" + ".sql";
    assert name[7..12] == "users" && name[12..] == ".sql";
  }

  lemma RepeatedNameStops(catalog: seq<Migration>, name: string)
    requires |catalog| == 2 && catalog[0].name == name && catalog[1].name == name
    ensures Advance(catalog, {}, 0, v => Commits) == (1, false)
    ensures Advance(catalog, {name}, 1, v => Commits) == (1, false)
  {
    assert {} + {name} == {name};
  }

  /** Two files with one name and versions 1 and 2: loading accepts them, the empty table verifies against them, and
      an undisturbed run applies the first and fails on the second; so does every later run. */
  lemma RepeatedNameNeverCompletes()
    ensures var entries := [FIRST_USERS, SECOND_USERS];
      && AllReadable(entries) && Complete(ParseAll(entries))
      && AppliedPrefix(ParseAll(entries), map[])
      && Advance(ParseAll(entries), {}, 0, v => Commits) == (1, false)
      && Advance(ParseAll(entries), {"users"}, 1, v => Commits) == (1, false)
  {
    UsersFile(FIRST_USERS, '1');
    UsersFile(SECOND_USERS, '2');
    var entries := [FIRST_USERS, SECOND_USERS];
    var catalog := ParseAll(entries);
    assert catalog == [Migration(1, "users", "a"), Migration(2, "users", "b")];
    assert catalog[0] in catalog && catalog[1] in catalog;
    assert HasVersion(catalog, 1) && HasVersion(catalog, 2);
    RepeatedNameStops(catalog, "users");
  }
}
