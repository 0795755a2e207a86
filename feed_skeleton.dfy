/**
 * The feed-skeleton handler of src/xrpc/feed.ts and the pure pieces it is
 * built from: the bounded row fetch `fetchFeedItems`, applying an operation
 * diff to cached items, de-duplication by content id, and slicing the page
 * after the cursor. The database is a value (the user's rows and operation
 * log); the feed cache is an optional `(items, opId, ranges)` triple read at
 * the start and the value written back at the end.
 */
module FeedSkeleton {
  import opened Wrappers
  import opened FeedItems
  import opened Sorting
  import opened CursorCodec
  import opened RangeTracker
  import opened OperationDiffs

  /** One user's part of the database: bookmark rows and operation log entries. */
  datatype Database = Database(rows: seq<FeedItem>, log: seq<Operation>)

  /** Rows listed by strictly descending `rowid` (rowids are unique). */
  ghost predicate NewestFirstRows(rows: seq<FeedItem>) {
    forall i, j :: 0 <= i < j < |rows| ==> rows[i].rowid > rows[j].rowid
  }

  ghost predicate ValidDatabase(db: Database) {
    NewestFirstRows(db.rows) && NewestFirstLog(db.log)
  }

  // ---------------------------------------------------------------------
  // fetchFeedItems
  // ---------------------------------------------------------------------

  /** `between(rowid, until, rowId - 1)`, applied only when `rowId` is not 0. */
  predicate InBounds(item: FeedItem, rowId: int, until: int) {
    rowId == 0 || (until <= item.rowid && item.rowid <= rowId - 1)
  }

  /** The `WHERE` clause over the user's rows, keeping `ORDER BY rowid DESC`. */
  function Matching(rows: seq<FeedItem>, rowId: int, until: int): (r: seq<FeedItem>)
    ensures |r| <= |rows|
    ensures forall it :: it in r <==> it in rows && InBounds(it, rowId, until)
  {
    if rows == [] then []
    else
      var rest := Matching(rows[1..], rowId, until);
      assert forall it :: it in rows <==> it == rows[0] || it in rows[1..];
      if InBounds(rows[0], rowId, until) then [rows[0]] + rest else rest
  }

  lemma {:induction false} MatchingNewestFirst(rows: seq<FeedItem>, rowId: int, until: int)
    requires NewestFirstRows(rows)
    ensures NewestFirstRows(Matching(rows, rowId, until))
  {
    if rows != [] {
      var tail := rows[1..];
      assert NewestFirstRows(tail) by {
        forall i, j | 0 <= i < j < |tail| ensures tail[i].rowid > tail[j].rowid {
          assert tail[i] == rows[i + 1] && tail[j] == rows[j + 1];
        }
      }
      MatchingNewestFirst(tail, rowId, until);
      var rest := Matching(tail, rowId, until);
      forall it | it in rest ensures rows[0].rowid > it.rowid {
        var i :| 0 <= i < |tail| && tail[i] == it;
        assert rows[i + 1] == it;
      }
    }
  }

  /** The first `limit` elements of `xs`, or all of them. */
  function Take<T>(xs: seq<T>, limit: nat): (r: seq<T>)
    ensures |r| <= limit && |r| <= |xs|
    ensures r == xs[..|r|]
    ensures |r| < limit ==> r == xs
  {
    if |xs| <= limit then xs else xs[..limit]
  }

  lemma TakeOfMatching(rows: seq<FeedItem>, limit: nat, rowId: int, until: int)
    ensures var r := Take(Matching(rows, rowId, until), limit);
      && (forall it :: it in r ==> it in rows && InBounds(it, rowId, until))
      && (NewestFirstRows(rows) ==> NewestFirstRows(r))
      && (forall it :: it in rows && InBounds(it, rowId, until) && it !in r ==> |r| == limit)
      && (NewestFirstRows(rows) ==>
            forall it, y :: it in rows && InBounds(it, rowId, until) && it !in r && y in r ==> y.rowid > it.rowid)
  {
    var matching := Matching(rows, rowId, until);
    var r := Take(matching, limit);
    assert forall it :: it in r ==> it in matching;
    if NewestFirstRows(rows) {
      MatchingNewestFirst(rows, rowId, until);
      forall it, y | it in rows && InBounds(it, rowId, until) && it !in r && y in r ensures y.rowid > it.rowid {
        var i :| 0 <= i < |matching| && matching[i] == it;
        var j :| 0 <= j < |r| && r[j] == y;
        assert matching[j] == y;
      }
    }
    forall it | it in rows && InBounds(it, rowId, until) && it !in r ensures |r| == limit {
      assert it in matching;
    }
  }

  /**
   * `fetchFeedItems(limit, rowId, until)`: the first `limit` of the user's
   * rows in bounds, by descending rowid. Every row in bounds that is left out
   * lies below all returned rows, and only when the limit was reached.
   */
  function FetchFeedItems(rows: seq<FeedItem>, limit: nat, rowId: int, until: int): (r: seq<FeedItem>)
    ensures |r| <= limit
    ensures forall it :: it in r ==> it in rows && InBounds(it, rowId, until)
    ensures NewestFirstRows(rows) ==> NewestFirstRows(r)
    ensures forall it :: it in rows && InBounds(it, rowId, until) && it !in r ==> |r| == limit
    ensures NewestFirstRows(rows) ==>
      forall it, y :: it in rows && InBounds(it, rowId, until) && it !in r && y in r ==> y.rowid > it.rowid
  {
    TakeOfMatching(rows, limit, rowId, until);
    Take(Matching(rows, rowId, until), limit)
  }

  /** The highest-rowid row is the one a limit-1 unbounded fetch returns. */
  lemma FetchNewest(db: Database)
    requires ValidDatabase(db)
    ensures db.rows == [] ==> FetchFeedItems(db.rows, 1, 0, 0) == []
    ensures db.rows != [] ==>
      && FetchFeedItems(db.rows, 1, 0, 0) == [db.rows[0]]
      && forall it :: it in db.rows ==> it.rowid <= db.rows[0].rowid
  {
    var r := FetchFeedItems(db.rows, 1, 0, 0);
    if db.rows != [] {
      assert db.rows[0] in db.rows && InBounds(db.rows[0], 0, 0);
      forall it | it in db.rows ensures it.rowid <= db.rows[0].rowid {
        var i :| 0 <= i < |db.rows| && db.rows[i] == it;
        assert i == 0 || db.rows[0].rowid > db.rows[i].rowid;
      }
    }
  }

  // ---------------------------------------------------------------------
  // Applying a diff to cached items
  // ---------------------------------------------------------------------

  /** `items.filter((a) => !remove.includes(a.post))`. */
  function NotRemoved(items: seq<FeedItem>, remove: seq<string>): (r: seq<FeedItem>)
    ensures |r| <= |items|
    ensures forall it :: it in r <==> it in items && it.post !in remove
  {
    if items == [] then []
    else
      var rest := NotRemoved(items[1..], remove);
      assert forall it :: it in items <==> it == items[0] || it in items[1..];
      if items[0].post !in remove then [items[0]] + rest else rest
  }

  /**
   * `insert.concat(feedItems).filter(...).sort(newestFirst)`: the inserted
   * and cached items whose post is not removed, newest first.
   */
  function ApplyDiff(insert: seq<FeedItem>, remove: seq<string>, cached: seq<FeedItem>): (r: seq<FeedItem>)
    ensures forall it :: it in r <==> (it in insert || it in cached) && it.post !in remove
    ensures forall it :: it in r ==> it.post !in remove
    ensures NonIncreasing(r, CreatedAt)
    ensures |r| <= |insert| + |cached|
  {
    var kept := NotRemoved(insert + cached, remove);
    SortDescMembers(kept, CreatedAt);
    SortDesc(kept, CreatedAt)
  }

  /** An uri that the diff removes is gone, whatever was cached or inserted. */
  lemma AddThenDeleteLeavesNothing(add: Operation, del: Operation, operationId: int, cached: seq<FeedItem>)
    requires add.opcode == Add && del.opcode == Delete && del.uri == add.uri
    requires del.id > add.id > operationId && del.createdAt >= add.createdAt
    ensures var d := GetOperationDiffs([del, add], operationId);
      d.Diffs? && forall it :: it in ApplyDiff(d.diff.insert, d.diff.remove, cached) ==> it.post != add.uri
  {
    AddThenDeleteOfSamePost(add, del, operationId);
  }

  /** A delete followed by a re-add of the same uri leaves the cached items as they were (once sorted). */
  lemma DeleteThenAddKeepsCache(cached: seq<FeedItem>)
    requires NonIncreasing(cached, CreatedAt)
    ensures var d := GetOperationDiffs([Operation(7, Add, "x", "cx", 70, 7000), Operation(6, Delete, "x", "cx", 0, 6000)], 5);
      d.Diffs? && ApplyDiff(d.diff.insert, d.diff.remove, cached) == cached
  {
    DeleteThenAddOfSamePost();
    NotRemovedNothing(cached);
    assert [] + cached == cached;
    SortDescSortedIsIdentity(cached, CreatedAt);
  }

  lemma {:induction false} NotRemovedNothing(items: seq<FeedItem>)
    ensures NotRemoved(items, []) == items
  {
    if items != [] {
      NotRemovedNothing(items[1..]);
      assert items == [items[0]] + items[1..];
    }
  }

  // ---------------------------------------------------------------------
  // De-duplication by cid
  // ---------------------------------------------------------------------

  ghost predicate DistinctCids(items: seq<FeedItem>) {
    forall i, j :: 0 <= i < j < |items| ==> items[i].cid != items[j].cid
  }

  /** `array.find((a) => a.cid === cid)` found something. */
  predicate HasCid(items: seq<FeedItem>, cid: string) {
    exists i :: 0 <= i < |items| && items[i].cid == cid
  }

  /** `x` is the first element of `items` carrying its cid. */
  ghost predicate FirstOfCid(items: seq<FeedItem>, x: FeedItem) {
    exists i :: 0 <= i < |items| && items[i] == x && forall j :: 0 <= j < i ==> items[j].cid != x.cid
  }

  /** `a` can be obtained from `b` by deleting elements. */
  ghost predicate IsSubsequence<T>(a: seq<T>, b: seq<T>)
    decreases |b|
  {
    a == [] ||
    (b != [] &&
      ((a[|a| - 1] == b[|b| - 1] && IsSubsequence(a[..|a| - 1], b[..|b| - 1])) ||
        IsSubsequence(a, b[..|b| - 1])))
  }

  /**
   * The de-duplicating `reduce`: keep an item unless an item with its cid was
   * already kept. The result keeps exactly the first item of every cid, in
   * input order.
   */
  function Dedup(items: seq<FeedItem>): (r: seq<FeedItem>)
    ensures DistinctCids(r)
    ensures IsSubsequence(r, items)
    ensures forall it :: it in items ==> HasCid(r, it.cid)
    ensures forall k :: 0 <= k < |r| ==> FirstOfCid(items, r[k])
  {
    if items == [] then []
    else
      var init, c := items[..|items| - 1], items[|items| - 1];
      var d := Dedup(init);
      assert items == init + [c];
      assert forall it :: it in items <==> it in init || it == c;
      DedupStep(init, c, d);
      DedupCovers(init, c, d);
      if HasCid(d, c.cid) then d else d + [c]
  }

  lemma FirstOfCidExtends(init: seq<FeedItem>, c: FeedItem, x: FeedItem)
    requires FirstOfCid(init, x)
    ensures FirstOfCid(init + [c], x)
  {
    var i :| 0 <= i < |init| && init[i] == x && forall j :: 0 <= j < i ==> init[j].cid != x.cid;
    var items := init + [c];
    assert items[i] == x;
    assert forall j :: 0 <= j < i ==> items[j] == init[j];
  }

  /** De-duplicating items that are newest first leaves them newest first. */
  lemma {:induction false} DedupKeepsOrder(items: seq<FeedItem>)
    requires NonIncreasing(items, CreatedAt)
    ensures NonIncreasing(Dedup(items), CreatedAt)
  {
    if items != [] {
      var init, c := items[..|items| - 1], items[|items| - 1];
      PrefixNonIncreasing(items, CreatedAt);
      DedupKeepsOrder(init);
      var d := Dedup(init);
      DedupProvenance(init, d);
      if !HasCid(d, c.cid) {
        var r := d + [c];
        forall i, j | 0 <= i < j < |r| ensures CreatedAt(r[i]) >= CreatedAt(r[j]) {
          if j == |d| {
            assert r[i] in init;
            var k :| 0 <= k < |init| && init[k] == r[i];
            assert items[k] == r[i];
          }
        }
      }
    }
  }

  /** One step of the fold keeps exactly the first item of each cid. */
  lemma DedupStep(init: seq<FeedItem>, c: FeedItem, d: seq<FeedItem>)
    requires forall it :: it in init ==> HasCid(d, it.cid)
    requires forall k :: 0 <= k < |d| ==> FirstOfCid(init, d[k])
    requires DistinctCids(d)
    ensures var r := if HasCid(d, c.cid) then d else d + [c];
      && DistinctCids(r)
      && forall k :: 0 <= k < |r| ==> FirstOfCid(init + [c], r[k])
  {
    var items := init + [c];
    forall k | 0 <= k < |d| ensures FirstOfCid(items, d[k]) {
      FirstOfCidExtends(init, c, d[k]);
    }
    if !HasCid(d, c.cid) {
      var r := d + [c];
      NewCidIsFirst(init, c, d);
      forall k | 0 <= k < |r| ensures FirstOfCid(items, r[k]) {
        if k < |d| { assert r[k] == d[k]; }
      }
      forall i, j | 0 <= i < j < |r| ensures r[i].cid != r[j].cid {
        if j == |d| {
          assert r[i] == d[i];
        } else {
          assert r[i] == d[i] && r[j] == d[j];
        }
      }
    }
  }

  lemma NewCidIsFirst(init: seq<FeedItem>, c: FeedItem, d: seq<FeedItem>)
    requires forall it :: it in init ==> HasCid(d, it.cid)
    requires !HasCid(d, c.cid)
    ensures FirstOfCid(init + [c], c)
  {
    var items := init + [c];
    forall j | 0 <= j < |init| ensures init[j].cid != c.cid {
      assert init[j] in init;
    }
    assert items[|init|] == c;
    assert forall j :: 0 <= j < |init| ==> items[j] == init[j];
  }

  /** One step of the fold keeps a subsequence that still holds every cid seen. */
  lemma DedupCovers(init: seq<FeedItem>, c: FeedItem, d: seq<FeedItem>)
    requires IsSubsequence(d, init)
    requires forall it :: it in init ==> HasCid(d, it.cid)
    ensures var r := if HasCid(d, c.cid) then d else d + [c];
      && IsSubsequence(r, init + [c])
      && forall it :: it in init + [c] ==> HasCid(r, it.cid)
  {
    var items := init + [c];
    assert items[..|items| - 1] == init;
    if HasCid(d, c.cid) {
      assert IsSubsequence(d, items);
    } else {
      var r := d + [c];
      assert r[..|r| - 1] == d;
      assert IsSubsequence(r, items);
      assert HasCid(r, c.cid) by { assert r[|d|] == c; }
      forall it | it in init ensures HasCid(r, it.cid) {
        var i :| 0 <= i < |d| && d[i].cid == it.cid;
        assert r[i] == d[i];
      }
    }
  }

  // ---------------------------------------------------------------------
  // The page after the cursor
  // ---------------------------------------------------------------------

  /** The cursor's test: no newer than the cursor's time, and not the cursor's own item. */
  predicate AfterCursor(item: FeedItem, cursor: Cursor) {
    item.createdAt <= cursor.time && item.cid != cursor.cid
  }

  /** `findIndex` of the first item after the cursor, or -1. */
  function CursorIndex(items: seq<FeedItem>, cursor: Cursor): (k: int)
    ensures -1 <= k < |items|
    ensures k >= 0 ==> AfterCursor(items[k], cursor) && forall j :: 0 <= j < k ==> !AfterCursor(items[j], cursor)
    ensures k == -1 ==> forall j :: 0 <= j < |items| ==> !AfterCursor(items[j], cursor)
  {
    if items == [] then -1
    else if AfterCursor(items[0], cursor) then 0
    else
      var k := CursorIndex(items[1..], cursor);
      if k == -1 then -1 else k + 1
  }

  /** `CursorIndex` is `k` when `k` is the first item after the cursor (or -1 when none is). */
  lemma {:induction false} CursorIndexAt(items: seq<FeedItem>, cursor: Cursor, k: nat)
    requires k <= |items|
    requires forall j :: 0 <= j < k ==> !AfterCursor(items[j], cursor)
    requires k < |items| ==> AfterCursor(items[k], cursor)
    ensures CursorIndex(items, cursor) == (if k < |items| then k else -1)
  {
    if k > 0 {
      CursorIndexAt(items[1..], cursor, k - 1);
    }
  }

  function Min(a: int, b: int): int { if a <= b then a else b }

  /**
   * `feedItems.slice(index, index + limit)`: without a cursor the first
   * `limit` items; with one, up to `limit` items from the first item after
   * it, or nothing when there is none.
   */
  function Page(items: seq<FeedItem>, cursor: Option<Cursor>, limit: nat): (page: seq<FeedItem>)
    ensures |page| <= limit
    ensures cursor.None? ==> page == items[..Min(limit, |items|)]
    ensures cursor.Some? && CursorIndex(items, cursor.value) == -1 ==> page == []
    ensures cursor.Some? && CursorIndex(items, cursor.value) >= 0 ==>
      var k := CursorIndex(items, cursor.value);
      && page == items[k..k + Min(limit, |items| - k)]
      && (limit > 0 ==> |page| > 0 && AfterCursor(page[0], cursor.value))
    ensures forall it :: it in page ==> it in items
  {
    var index := if cursor.Some? then CursorIndex(items, cursor.value) else 0;
    if index >= 0 then items[index..index + Min(limit, |items| - index)] else []
  }

  function LastOf(items: seq<FeedItem>): Option<FeedItem> {
    if items == [] then None else Some(items[|items| - 1])
  }

  /** The cursor returned with a page: the page's last item, absent exactly when the page is empty. */
  function NextCursor(page: seq<FeedItem>): (cursor: Option<string>)
    ensures cursor.None? <==> page == []
    ensures page != [] ==> cursor == CreateCursor(Some(page[|page| - 1]))
  {
    CreateCursor(LastOf(page))
  }

  /** Cursors that survive the round trip. */
  predicate Renderable(item: FeedItem) {
    item.createdAt >= 0 && item.rowid >= 0 && |item.cid| > 0 && AllWordChars(item.cid)
  }

  /**
   * Following the cursor of a page of distinct timestamps continues right
   * after it: the next page starts at the item after the previous page's last.
   */
  lemma NextPageContinues(items: seq<FeedItem>, limit: nat)
    requires limit > 0
    requires forall i, j :: 0 <= i < j < |items| ==> items[i].createdAt > items[j].createdAt
    requires forall it :: it in items ==> Renderable(it)
    requires DistinctCids(items)
    requires items != []
    ensures var n := Min(limit, |items|);
      var page := Page(items, None, limit);
      var next := ParseCursor(NextCursor(page).value);
      && |page| == n
      && next.Some?
      && Page(items, next, limit) == items[n..n + Min(limit, |items| - n)]
  {
    FirstPageCursor(items, limit);
    SecondPage(items, limit);
  }

  /** The page after the first page's last item starts right after it, when times strictly decrease. */
  lemma SecondPage(items: seq<FeedItem>, limit: nat)
    requires limit > 0 && items != []
    requires forall i, j :: 0 <= i < j < |items| ==> items[i].createdAt > items[j].createdAt
    requires DistinctCids(items)
    ensures var n := Min(limit, |items|);
      var last := items[n - 1];
      Page(items, Some(Cursor(last.createdAt, last.cid, last.rowid)), limit) == items[n..n + Min(limit, |items| - n)]
  {
    var n := Min(limit, |items|);
    var last := items[n - 1];
    var c := Cursor(last.createdAt, last.cid, last.rowid);
    NothingBeforeIsAfter(items, n, c);
    if n < |items| {
      assert items[n].createdAt < last.createdAt && items[n].cid != last.cid;
    }
    NextPageFrom(items, limit, c);
  }

  /** When the first item after cursor `c` is the first page's length, the page after `c` starts there. */
  lemma NextPageFrom(items: seq<FeedItem>, limit: nat, c: Cursor)
    requires limit > 0 && items != []
    requires var n := Min(limit, |items|);
      && (forall j :: 0 <= j < n ==> !AfterCursor(items[j], c))
      && (n < |items| ==> AfterCursor(items[n], c))
    ensures var n := Min(limit, |items|);
      Page(items, Some(c), limit) == items[n..n + Min(limit, |items| - n)]
  {
    var n := Min(limit, |items|);
    CursorIndexAt(items, c, n);
    if n == |items| {
      assert items[n..n + Min(limit, |items| - n)] == [];
    }
  }

  /** No item up to the page's last is after that last item's cursor, when times strictly decrease. */
  lemma NothingBeforeIsAfter(items: seq<FeedItem>, n: nat, c: Cursor)
    requires 0 < n <= |items|
    requires forall i, j :: 0 <= i < j < |items| ==> items[i].createdAt > items[j].createdAt
    requires c.time == items[n - 1].createdAt && c.cid == items[n - 1].cid
    ensures forall j :: 0 <= j < n ==> !AfterCursor(items[j], c)
  {
    forall j | 0 <= j < n ensures !AfterCursor(items[j], c) {
      if j < n - 1 {
        assert items[j].createdAt > items[n - 1].createdAt;
      }
    }
  }

  /** The first page's cursor reads back as its last item's (time, cid, rowid). */
  lemma FirstPageCursor(items: seq<FeedItem>, limit: nat)
    requires limit > 0 && items != []
    requires forall it :: it in items ==> Renderable(it)
    ensures var page := Page(items, None, limit);
      var last := items[Min(limit, |items|) - 1];
      && |page| == Min(limit, |items|)
      && ParseCursor(NextCursor(page).value) == Some(Cursor(last.createdAt, last.cid, last.rowid))
  {
    var page := Page(items, None, limit);
    var n := |page|;
    var last := items[n - 1];
    assert page[n - 1] == last;
    assert last in items;
    RoundTrip(last);
  }

  /**
   * Items sharing the cursor's timestamp defeat the cursor: with `a` and `b`
   * both at time 5 and a page size of 2, the page after `b`'s cursor starts
   * again at `a` and is the same page.
   */
  lemma TiedTimestampsRepeatThePage()
    ensures var a, b, c := FeedItem(3, "pa", "a", 5), FeedItem(2, "pb", "b", 5), FeedItem(1, "pc", "c", 4);
      var first := Page([a, b, c], None, 2);
      first == [a, b] && Page([a, b, c], ParseCursor(NextCursor(first).value), 2) == first
  {
    var a, b, c := FeedItem(3, "pa", "a", 5), FeedItem(2, "pb", "b", 5), FeedItem(1, "pc", "c", 4);
    var items := [a, b, c];
    assert Page(items, None, 2) == [a, b];
    RoundTrip(b);
    assert CursorIndex(items, Cursor(5, "b", 2)) == 0;
  }

  // ---------------------------------------------------------------------
  // The handler
  // ---------------------------------------------------------------------

  /** The cached feed: items, the watermark (last folded operation id) and the verified row ranges. */
  datatype CacheEntry = CacheEntry(items: seq<FeedItem>, opId: int, ranges: seq<Interval>)

  /** The JSON body: posts of the page and the cursor of its last item. */
  datatype Response = Response(feed: seq<string>, cursor: Option<string>)

  /** `feedItems.at(-1)?.rowid`, the row a top-up fetch continues below. */
  function LastRowid(items: seq<FeedItem>): Option<int> {
    if items == [] then None else Some(items[|items| - 1].rowid)
  }

  /** The items a cached entry can contribute after its diff is applied (none when it is too old). */
  ghost function Carried(db: Database, cache: Option<CacheEntry>): seq<FeedItem> {
    match cache
    case None => []
    case Some(entry) =>
      match GetOperationDiffs(db.log, entry.opId)
      case CacheTooOld(_) => []
      case Diffs(d) => NotRemoved(d.insert + entry.items, d.remove)
  }

  /** The watermark a cache hit ends with: the diff's newest id, else the old watermark. */
  function NextWatermark(db: Database, entry: CacheEntry): int {
    match GetOperationDiffs(db.log, entry.opId)
    case CacheTooOld(id) => id
    case Diffs(d) => d.id.GetOr(entry.opId)
  }

  /**
   * `updateFeedItems`: fetch `limit + 1` rows below `rowid` (down to
   * `until`), record the fetch in the range tracker, and merge the rows with
   * the current items, newest first.
   */
  method UpdateFeedItems(db: Database, range: Range, current: seq<FeedItem>, limit: nat, rowid: Option<int>, until: Option<int>)
    returns (items: seq<FeedItem>)
    modifies range
    ensures var fetched := FetchFeedItems(db.rows, limit + 1, rowid.GetOr(0), until.GetOr(0));
      && range.intervals == Appended(old(range.intervals), fetched, rowid)
      && items == SortDesc(fetched + current, CreatedAt)
    ensures forall it :: it in items ==> it in current || (it in db.rows && InBounds(it, rowid.GetOr(0), until.GetOr(0)))
    ensures forall it :: it in current ==> it in items
    ensures NonIncreasing(items, CreatedAt)
    ensures SortedByStart(old(range.intervals)) ==> SortedByStart(range.intervals)
    ensures |range.intervals| <= |old(range.intervals)| + 1
  {
    var feeds := FetchFeedItems(db.rows, limit + 1, rowid.GetOr(0), until.GetOr(0));
    range.Append(feeds, rowid);
    items := SortDesc(feeds + current, CreatedAt);
    SortDescMembers(feeds + current, CreatedAt);
  }

  /** The part of the handler that tops up the items around the cursor (or the top of the feed). */
  method FillFromDatabase(db: Database, range: Range, current: seq<FeedItem>, limit: nat, cursor: Option<Cursor>)
    returns (items: seq<FeedItem>)
    requires limit >= 1
    modifies range
    ensures forall it :: it in items ==> it in current || it in db.rows
    ensures forall it :: it in current ==> it in items
    ensures NonIncreasing(current, CreatedAt) ==> NonIncreasing(items, CreatedAt)
    ensures SortedByStart(old(range.intervals)) ==> SortedByStart(range.intervals)
    ensures |range.intervals| <= |old(range.intervals)| + 2
  {
    items := current;
    if cursor.None? {
      if |items| < limit && !range.IsEOF(LastRowid(items)) {
        // fetch missing pieces from database
        items := UpdateFeedItems(db, range, items, limit - |items|, LastRowid(items), None);
      }
    } else if range.IsEOF(Some(cursor.value.rowid)) {
      // end of feed: nothing to do
    } else {
      var c := cursor.value;
      var targetRange := range.Get(Some(c.rowid));
      var nextRange := range.Next(Some(c.rowid));
      if targetRange.None? && nextRange.Some? {
        items := UpdateFeedItems(db, range, items, limit, Some(c.rowid), Some(nextRange.value.s));
        targetRange := range.Get(Some(c.rowid));
      }
      if targetRange.Some? {
        var end := targetRange.value.e;
        var found := Found(items, c.rowid, end);
        if |found| < limit && !range.IsEOF(LastRowid(found)) {
          var rowid := LastRowid(found).GetOr(c.rowid);
          items := UpdateFeedItems(db, range, items, limit - |found|, Some(rowid), None);
        }
      } else {
        items := UpdateFeedItems(db, range, items, limit, Some(c.rowid), None);
      }
    }
  }

  /** `feedItems.filter(({ rowid }) => rowid < cursor.rowid && rowid >= end)`. */
  function Found(items: seq<FeedItem>, below: int, end: int): (r: seq<FeedItem>)
    ensures |r| <= |items|
    ensures forall it :: it in r <==> it in items && end <= it.rowid < below
  {
    if items == [] then []
    else
      var rest := Found(items[1..], below, end);
      assert forall it :: it in items <==> it == items[0] || it in items[1..];
      if end <= items[0].rowid < below then [items[0]] + rest else rest
  }

  /**
   * The cache-miss branch: fetch `limit + 1` rows from the cursor (or the
   * top), and take the newest operation id as the watermark.
   */
  method LoadFromDatabase(db: Database, range: Range, limit: nat, cursor: Option<Cursor>)
    returns (items: seq<FeedItem>, opId: int)
    modifies range
    ensures var rowid := if cursor.Some? then Some(cursor.value.rowid) else None;
      var fetched := FetchFeedItems(db.rows, limit + 1, rowid.GetOr(0), 0);
      && items == SortDesc(fetched, CreatedAt)
      && range.intervals == Appended(old(range.intervals), fetched, rowid)
    ensures SortedByStart(old(range.intervals)) ==> SortedByStart(range.intervals)
    ensures forall it :: it in items ==> it in db.rows
    ensures opId == if db.log == [] then 0 else db.log[0].id
  {
    var rowid := if cursor.Some? then Some(cursor.value.rowid) else None;
    ghost var fetched := FetchFeedItems(db.rows, limit + 1, rowid.GetOr(0), 0);
    assert fetched + [] == fetched;
    items := UpdateFeedItems(db, range, [], limit, rowid, None);
    opId := if db.log != [] then db.log[0].id else 0;
  }

  /**
   * The cache-hit branch: apply the operations logged since the watermark,
   * start over when the cache is too old, then top up from the database.
   */
  method RefreshCache(db: Database, range: Range, entry: CacheEntry, limit: nat, cursor: Option<Cursor>)
    returns (items: seq<FeedItem>, opId: int)
    requires limit >= 1
    modifies range
    ensures forall it :: it in items ==> it in db.rows || it in Carried(db, Some(entry))
    ensures opId == NextWatermark(db, entry)
    ensures NonIncreasing(items, CreatedAt)
    // a too-old cache starts over: the tracker is cleared before the top-up
    ensures GetOperationDiffs(db.log, entry.opId).CacheTooOld? ==>
      SortedByStart(range.intervals) && |range.intervals| <= 2
    // otherwise every cached or inserted item whose post is not removed survives
    ensures GetOperationDiffs(db.log, entry.opId).Diffs? ==>
      var d := GetOperationDiffs(db.log, entry.opId).diff;
      && (forall it :: (it in d.insert || it in entry.items) && it.post !in d.remove ==> it in items)
      && (SortedByStart(old(range.intervals)) ==> SortedByStart(range.intervals))
      && |range.intervals| <= |old(range.intervals)| + 2
  {
    var cached := entry.items;
    var insert: seq<FeedItem>, remove: seq<string>, id: Option<int>;
    match GetOperationDiffs(db.log, entry.opId) {
      case CacheTooOld(newest) =>
        range.Clear();
        cached := [];
        insert, remove, id := [], [], Some(newest);
      case Diffs(d) =>
        insert, remove, id := d.insert, d.remove, d.id;
    }
    items := ApplyDiff(insert, remove, cached);
    opId := id.GetOr(entry.opId);
    items := FillFromDatabase(db, range, items, limit, cursor);
  }

  /** The `getFeedSkeleton` handler after query validation. */
  method GetFeedSkeleton(user: Option<string>, welcomePost: Option<string>, db: Database, limit: int,
                         cursor: Option<Cursor>, cache: Option<CacheEntry>)
    returns (response: Response, written: Option<CacheEntry>)
    requires 1 <= limit <= 100
    requires ValidDatabase(db)
    // signed out: the welcome post, if one is configured
    ensures user.None? ==>
      && written.None?
      && response == Response(if welcomePost.Some? && welcomePost.value != "" then [welcomePost.value] else [], None)
    // one post without a cursor: the newest row, bypassing the cache
    ensures user.Some? && limit == 1 && cursor.None? ==>
      && written.None?
      && (db.rows == [] ==> response == Response([], None))
      && (db.rows != [] ==>
            && response == Response([db.rows[0].post], NextCursor([db.rows[0]]))
            && forall it :: it in db.rows ==> it.rowid <= db.rows[0].rowid)
    // every page: at most `limit` posts, and a cursor exactly when there are posts
    ensures |response.feed| <= limit
    ensures user.Some? ==> (response.cursor.None? <==> response.feed == [])
    // the page is cut from the de-duplicated items written back to the cache
    ensures written.Some? ==>
      var page := Page(written.value.items, cursor, limit);
      && response == Response(Posts(page), NextCursor(page))
      && DistinctCids(written.value.items)
      && forall it :: it in written.value.items ==> it in db.rows || it in Carried(db, cache)
    // the watermark written back
    ensures user.Some? && !(limit == 1 && cursor.None?) && cache.Some? ==>
      written.Some? && written.value.opId == NextWatermark(db, cache.value)
    ensures cache.None? && written.Some? ==> written.value.opId == (if db.log == [] then 0 else db.log[0].id)
    ensures user.Some? && !(limit == 1 && cursor.None?) && cache.None? && written.None? ==> response == Response([], None)
    // a cache miss: the newest-first fetch of `limit + 1` rows below the cursor, recorded in the ranges
    ensures user.Some? && !(limit == 1 && cursor.None?) && cache.None? ==>
      var rowid := if cursor.Some? then Some(cursor.value.rowid) else None;
      var fetched := FetchFeedItems(db.rows, limit + 1, rowid.GetOr(0), 0);
      && (fetched == [] ==> written.None?)
      && (fetched != [] ==>
            && written.Some?
            && written.value.items == Dedup(SortDesc(fetched, CreatedAt))
            && written.value.ranges == Appended([], fetched, rowid))
    // what is written back is newest first, and its ranges stay sorted by start
    ensures written.Some? ==> NonIncreasing(written.value.items, CreatedAt)
    ensures written.Some? && (cache.None? || SortedByStart(cache.value.ranges)) ==> SortedByStart(written.value.ranges)
    ensures written.Some? && cache.Some? ==> |written.value.ranges| <= |cache.value.ranges| + 2
    // a too-old cache has its ranges cleared before the top-up
    ensures written.Some? && cache.Some? && GetOperationDiffs(db.log, cache.value.opId).CacheTooOld? ==>
      SortedByStart(written.value.ranges) && |written.value.ranges| <= 2
    // a cache hit keeps every inserted or cached post that the diff does not remove
    ensures written.Some? && cache.Some? && GetOperationDiffs(db.log, cache.value.opId).Diffs? ==>
      var d := GetOperationDiffs(db.log, cache.value.opId).diff;
      forall it :: (it in d.insert || it in cache.value.items) && it.post !in d.remove ==>
        HasCid(written.value.items, it.cid)
  {
    if user.None? {
      response := Response(if welcomePost.Some? && welcomePost.value != "" then [welcomePost.value] else [], None);
      written := None;
      return;
    }
    if limit == 1 && cursor.None? {
      var newest := FetchFeedItems(db.rows, 1, 0, 0);
      FetchNewest(db);
      response := Response(Posts(newest), NextCursor(newest));
      written := None;
      return;
    }

    if cache.None? {
      response, written := ServeFromDatabase(db, limit, cursor);
    } else {
      var entry;
      response, entry := ServeFromCache(db, limit, cursor, cache.value);
      written := Some(entry);
    }
  }

  /** A cache miss: load from the database, and write nothing back when there is nothing to show. */
  method ServeFromDatabase(db: Database, limit: int, cursor: Option<Cursor>)
    returns (response: Response, written: Option<CacheEntry>)
    requires 1 <= limit
    ensures var rowid := if cursor.Some? then Some(cursor.value.rowid) else None;
      var fetched := FetchFeedItems(db.rows, limit + 1, rowid.GetOr(0), 0);
      && (fetched == [] ==> written.None? && response == Response([], None))
      && (fetched != [] ==>
            && written.Some?
            && written.value.items == Dedup(SortDesc(fetched, CreatedAt))
            && written.value.ranges == Appended([], fetched, rowid))
    ensures |response.feed| <= limit
    ensures response.cursor.None? <==> response.feed == []
    ensures written.Some? ==>
      var page := Page(written.value.items, cursor, limit);
      && response == Response(Posts(page), NextCursor(page))
      && written.value.opId == (if db.log == [] then 0 else db.log[0].id)
      && NonIncreasing(written.value.items, CreatedAt)
      && SortedByStart(written.value.ranges)
      && forall it :: it in written.value.items ==> it in db.rows
  {
    var range := new Range([]);
    assert SortedByStart(range.intervals);
    var feedItems, opId := LoadFromDatabase(db, range, limit, cursor);
    ghost var rowid := if cursor.Some? then Some(cursor.value.rowid) else None;
    ghost var fetched := FetchFeedItems(db.rows, limit + 1, rowid.GetOr(0), 0);
    assert |feedItems| == |fetched|;
    if feedItems == [] {
      response := Response([], None);
      written := None;
    } else {
      var entry;
      response, entry := Respond(feedItems, opId, range.intervals, cursor, limit);
      written := Some(entry);
    }
  }

  /** A cache hit: refresh the cached items, top them up and write them back. */
  method ServeFromCache(db: Database, limit: int, cursor: Option<Cursor>, cache: CacheEntry)
    returns (response: Response, written: CacheEntry)
    requires 1 <= limit
    ensures |response.feed| <= limit
    ensures response.cursor.None? <==> response.feed == []
    ensures var page := Page(written.items, cursor, limit);
      && response == Response(Posts(page), NextCursor(page))
      && written.opId == NextWatermark(db, cache)
      && NonIncreasing(written.items, CreatedAt)
      && DistinctCids(written.items)
      && (forall it :: it in written.items ==> it in db.rows || it in Carried(db, Some(cache)))
    ensures SortedByStart(cache.ranges) ==> SortedByStart(written.ranges)
    ensures |written.ranges| <= |cache.ranges| + 2
    ensures GetOperationDiffs(db.log, cache.opId).CacheTooOld? ==>
      SortedByStart(written.ranges) && |written.ranges| <= 2
    // every inserted or cached post that is not removed keeps its cid in what is written back
    ensures GetOperationDiffs(db.log, cache.opId).Diffs? ==>
      var d := GetOperationDiffs(db.log, cache.opId).diff;
      forall it :: (it in d.insert || it in cache.items) && it.post !in d.remove ==> HasCid(written.items, it.cid)
  {
    var range := new Range(cache.ranges);
    var feedItems, opId := RefreshCache(db, range, cache, limit, cursor);
    response, written := Respond(feedItems, opId, range.intervals, cursor, limit);
  }

  /** De-duplicate the items, cut the page after the cursor, and build the entry to write back. */
  method Respond(feedItems: seq<FeedItem>, opId: int, ranges: seq<Interval>, cursor: Option<Cursor>, limit: int)
    returns (response: Response, written: CacheEntry)
    requires 1 <= limit
    ensures written == CacheEntry(Dedup(feedItems), opId, ranges)
    ensures var page := Page(written.items, cursor, limit);
      response == Response(Posts(page), NextCursor(page))
    ensures |response.feed| <= limit
    ensures response.cursor.None? <==> response.feed == []
    ensures forall it :: it in written.items ==> it in feedItems
    ensures NonIncreasing(feedItems, CreatedAt) ==> NonIncreasing(written.items, CreatedAt)
  {
    var deduped := Dedup(feedItems);
    DedupProvenance(feedItems, deduped);
    if NonIncreasing(feedItems, CreatedAt) {
      DedupKeepsOrder(feedItems);
    }
    var page := Page(deduped, cursor, limit);
    response := Response(Posts(page), NextCursor(page));
    written := CacheEntry(deduped, opId, ranges);
  }

  lemma DedupProvenance(items: seq<FeedItem>, deduped: seq<FeedItem>)
    requires forall k :: 0 <= k < |deduped| ==> FirstOfCid(items, deduped[k])
    ensures forall it :: it in deduped ==> it in items
  {
    forall it | it in deduped ensures it in items {
      var k :| 0 <= k < |deduped| && deduped[k] == it;
      assert FirstOfCid(items, deduped[k]);
    }
  }
}
