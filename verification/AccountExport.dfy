/** The account export: page after page of each owned collection until a page says there is no more. */
module AccountExport {
  import opened Options
  import opened OwnedRows
  import opened Sets
  import Preferences
  import SnapshotRetention

  const MAXIMUM_PAGE := 100
  const MAXIMUM_PAGE_SIZE := 50

  datatype Page = Page(number: int, perPage: int) {
    function Offset(): int {
      (number - 1) * perPage
    }
  }

  function NewPage(number: int, perPage: int): Option<Page> {
    if 1 <= number <= MAXIMUM_PAGE && 1 <= perPage <= MAXIMUM_PAGE_SIZE then Some(Page(number, perPage)) else None
  }

  /** The export ignores the error and goes on with the zero page. */
  function PageOrZero(number: int): Page {
    match NewPage(number, MAXIMUM_PAGE_SIZE)
    case Some(page) => page
    case None => Page(0, 0)
  }

  datatype PageResult<T> = PageResult(items: seq<T>, total: nat)

  function Min(a: int, b: int): int {
    if a < b then a else b
  }

  /** LIMIT and OFFSET over an ordered collection; the total comes with the rows, so an empty page reports none. */
  function ListPage<T>(all: seq<T>, page: Page): PageResult<T>
    requires page.perPage >= 0 && page.Offset() >= 0
  {
    var start := Min(page.Offset(), |all|);
    var items := all[start..Min(start + page.perPage, |all|)];
    PageResult(items, if items == [] then 0 else |all|)
  }

  /** One of the page loops of Export, over a collection that does not change meanwhile. */
  method ListAll<T>(all: seq<T>) returns (items: seq<T>, calls: nat)
    ensures items == all[..Min(|all|, 5_000)]
    ensures calls == if |all| == 0 then 1 else if |all| <= 5_000 then (|all| + 49) / 50 else 101
  {
    items, calls := [], 0;
    var number := 1;
    while true
      invariant 1 <= number <= MAXIMUM_PAGE + 1 && calls == number - 1
      invariant |items| == (number - 1) * MAXIMUM_PAGE_SIZE && items <= all
      invariant number > 1 ==> |items| < |all|
      decreases MAXIMUM_PAGE + 1 - number
    {
      var result := ListPage(all, PageOrZero(number));
      assert number <= MAXIMUM_PAGE ==> PageOrZero(number).Offset() == |items|;
      items := items + result.items;
      calls := calls + 1;
      if |items| >= result.total || |result.items| < MAXIMUM_PAGE_SIZE { break; }
      number := number + 1;
    }
  }

  // ----- list order -----

  /** Where a row stands in its list: archived claims after the others, then by time, the latest first. Bookmarks go by
      creation, claims and saved searches by their last update. */
  datatype Stamp = Stamp(group: int, time: int)

  /** ORDER BY group, time DESC, id DESC. */
  predicate Precedes(stamp: RowId -> Stamp, x: RowId, y: RowId) {
    || stamp(x).group < stamp(y).group
    || (stamp(x).group == stamp(y).group && stamp(x).time > stamp(y).time)
    || (stamp(x) == stamp(y) && x > y)
  }

  ghost predicate InOrder(stamp: RowId -> Stamp, order: seq<RowId>) {
    forall i, j :: 0 <= i < j < |order| ==> Precedes(stamp, order[i], order[j])
  }

  /** The rows of an account in list order. */
  ghost predicate Lists<K, P>(t: Table<K, P>, account: AccountId, stamp: RowId -> Stamp, order: seq<RowId>) {
    && (forall id :: id in order <==> id in Mine(t, account))
    && InOrder(stamp, order)
  }

  /** An ordered list holds no row twice, and there is only one list of the same rows. */
  lemma {:induction false} OrderIsUnique(stamp: RowId -> Stamp, a: seq<RowId>, b: seq<RowId>)
    requires InOrder(stamp, a) && InOrder(stamp, b) && forall id :: id in a <==> id in b
    ensures Distinct(a) && a == b
  {
    MemberUnlessEmpty(b);
    if a != [] {
      assert a[0] in b;
      assert b[0] in a;
      HeadPrecedes(stamp, a, b[0]);
      HeadPrecedes(stamp, b, a[0]);
      assert a[0] == b[0];
      forall id ensures id in a[1..] <==> id in b[1..] {
        TailOfOrdered(stamp, a, id);
        TailOfOrdered(stamp, b, id);
      }
      OrderIsUnique(stamp, a[1..], b[1..]);
      assert a == [a[0]] + a[1..] && b == [b[0]] + b[1..];
    }
  }

  lemma MemberUnlessEmpty(s: seq<RowId>)
    ensures s == [] || exists id :: id in s
  {
    if s != [] { assert s[0] in s; }
  }

  lemma HeadPrecedes(stamp: RowId -> Stamp, s: seq<RowId>, id: RowId)
    requires InOrder(stamp, s) && id in s
    ensures id == s[0] || Precedes(stamp, s[0], id)
  {
  }

  lemma TailOfOrdered(stamp: RowId -> Stamp, s: seq<RowId>, id: RowId)
    requires InOrder(stamp, s) && s != []
    ensures id in s[1..] <==> id in s && id != s[0]
  {
    if id in s[1..] {
      var i :| 0 <= i < |s[1..]| && s[1..][i] == id;
      assert Precedes(stamp, s[0], s[i + 1]);
    }
  }

  lemma ListedWithin<K, P>(t: Table<K, P>, quota: nat, account: AccountId, stamp: RowId -> Stamp, order: seq<RowId>)
    requires WithinQuota(t, quota) && Lists(t, account, stamp, order)
    ensures Distinct(order) && |order| <= quota
  {
    OrderIsUnique(stamp, order, order);
    DistinctSize(order);
    assert Members(order) == Mine(t, account);
  }

  // ----- the export -----

  datatype Store<K, P, S, M> = Store(
    claims: Table<K, P>, bookmarks: Table<K, P>, searches: Table<K, P>,
    preferences: Preferences.Table<S>, snapshots: SnapshotRetention.Table<M>)

  ghost predicate WithinLimits<K, P, S, M>(store: Store<K, P, S, M>) {
    && WithinQuota(store.claims, MAXIMUM_ISSUE_CLAIMS)
    && WithinQuota(store.bookmarks, MAXIMUM_BOOKMARKS)
    && WithinQuota(store.searches, MAXIMUM_SAVED_SEARCHES)
    && |store.snapshots| <= SnapshotRetention.MAXIMUM_PROFILE_SNAPSHOTS
    && forall a :: a in store.preferences ==> store.preferences[a].version > 0
  }

  /** Every store that its own writes built is within its limits. */
  lemma BuiltWithinLimits<K, P, S, M(!new)>(
    claims: seq<Write<K, P>>, bookmarks: seq<Write<K, P>>, searches: seq<Write<K, P>>,
    preferences: seq<Preferences.Write<S>>, snapshots: seq<SnapshotRetention.Write<M>>,
    states: seq<SnapshotRetention.Table<M>>)
    requires InsertsWithin(claims, MAXIMUM_ISSUE_CLAIMS) && InsertsWithin(bookmarks, MAXIMUM_BOOKMARKS)
    requires InsertsWithin(searches, MAXIMUM_SAVED_SEARCHES) && SnapshotRetention.Runs(snapshots, states)
    ensures WithinLimits(Store(
              Run(claims), Run(bookmarks), Run(searches), Preferences.Run(preferences), states[|snapshots|]))
  {
    RunKeepsQuota(claims, MAXIMUM_ISSUE_CLAIMS);
    RunKeepsQuota(bookmarks, MAXIMUM_BOOKMARKS);
    RunKeepsQuota(searches, MAXIMUM_SAVED_SEARCHES);
    SnapshotRetention.RunsWithinLimit(snapshots, states);
    forall a | a in Preferences.Run(preferences) ensures Preferences.Run(preferences)[a].version > 0 {
      Preferences.StoredIffPositive(preferences, a);
    }
  }

  /** The lists the database returns: rows by their order, snapshot months ascending. */
  datatype Listing = Listing(claims: seq<RowId>, bookmarks: seq<RowId>, searches: seq<RowId>, months: seq<int>)

  datatype Stamps = Stamps(claims: RowId -> Stamp, bookmarks: RowId -> Stamp, searches: RowId -> Stamp)

  ghost predicate ListsMonths<M>(snapshots: SnapshotRetention.Table<M>, months: seq<int>) {
    && (forall m :: m in months <==> m in snapshots)
    && forall i, j :: 0 <= i < j < |months| ==> months[i] < months[j]
  }

  ghost predicate ListsAll<K, P, S, M>(store: Store<K, P, S, M>, account: AccountId, stamps: Stamps, listing: Listing) {
    && Lists(store.claims, account, stamps.claims, listing.claims)
    && Lists(store.bookmarks, account, stamps.bookmarks, listing.bookmarks)
    && Lists(store.searches, account, stamps.searches, listing.searches)
    && ListsMonths(store.snapshots, listing.months)
  }

  datatype Export<S> = Export(
    bookmarks: seq<RowId>,
    issueClaims: seq<RowId>,
    savedSearches: seq<RowId>,
    preferences: Option<Preferences.Stored<S>>,
    months: seq<int>)

  /** Over an unchanging store within its limits the export holds every row exactly once, in list order, the stored
      preferences and every month, and needs at most four pages per loop. */
  method ExportAccount<K, P, S, M>(
    store: Store<K, P, S, M>, account: AccountId, defaults: S, ghost stamps: Stamps, listing: Listing)
    returns (e: Export<S>, claimCalls: nat, bookmarkCalls: nat)
    requires WithinLimits(store) && ListsAll(store, account, stamps, listing)
    ensures e.issueClaims == listing.claims && e.bookmarks == listing.bookmarks && e.savedSearches == listing.searches
    ensures Distinct(e.issueClaims) && Distinct(e.bookmarks) && Distinct(e.savedSearches)
    ensures e.months == listing.months
    ensures e.preferences == if account in store.preferences then Some(store.preferences[account]) else None
    ensures claimCalls <= 4 && bookmarkCalls <= 4
  {
    ListedWithin(store.claims, MAXIMUM_ISSUE_CLAIMS, account, stamps.claims, listing.claims);
    ListedWithin(store.bookmarks, MAXIMUM_BOOKMARKS, account, stamps.bookmarks, listing.bookmarks);
    ListedWithin(store.searches, MAXIMUM_SAVED_SEARCHES, account, stamps.searches, listing.searches);
    MonthsWithin(store.snapshots, listing.months);
    var claims, bookmarks;
    claims, claimCalls := ListAll(listing.claims);
    bookmarks, bookmarkCalls := ListAll(listing.bookmarks);
    var searches := ListPage(listing.searches, PageOrZero(1)).items;
    var stored := Preferences.Read(store.preferences, account, defaults);
    var months := listing.months[..Min(|listing.months|, SnapshotRetention.MAXIMUM_PROFILE_SNAPSHOTS)];
    e := Export(bookmarks, claims, searches, if stored.version > 0 then Some(stored) else None, months);
  }

  lemma MonthsWithin<M>(snapshots: SnapshotRetention.Table<M>, months: seq<int>)
    requires ListsMonths(snapshots, months)
    ensures |months| == |snapshots|
  {
    DistinctSize(months);
    assert Members(months) == snapshots.Keys;
  }

  /** Only the first page of saved searches is read, and the loops end after the last valid page: completeness rests
      on the quotas. */
  lemma FirstPageIsAllIffWithinQuota<T>(all: seq<T>)
    ensures ListPage(all, PageOrZero(1)).items == all <==> |all| <= MAXIMUM_SAVED_SEARCHES
  {
  }
}
