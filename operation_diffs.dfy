/**
 * `getOperationDiffs` of src/xrpc/feed.ts: read the user's operation log
 * entries newer than the cache's watermark (at most 50, newest id first),
 * reject the cache as too old when the window is full, otherwise sort the
 * window by creation time (newest first, stably), fold it so that a delete
 * cancels the last folded entry with the same uri, and split the folded list
 * into rows to insert and uris to remove.
 */
module OperationDiffs {
  import opened Wrappers
  import opened FeedItems
  import opened Sorting

  datatype Opcode = Add | Delete

  /** A row of the `operations` table; `createdAt` is `Date.parse` of its timestamp, in milliseconds. */
  datatype Operation = Operation(id: int, opcode: Opcode, uri: string, cid: string, bookmarkId: int, createdAt: int)

  /** The query's `.limit(50)`. */
  const WindowSize: nat := 50

  /** The user's log as the database orders it: strictly descending `id` (ids are a primary key). */
  ghost predicate NewestFirstLog(log: seq<Operation>) {
    forall i, j :: 0 <= i < j < |log| ==> log[i].id > log[j].id
  }

  /** `WHERE id > operationId`, keeping the log's order. */
  function Newer(log: seq<Operation>, operationId: int): (r: seq<Operation>)
    ensures |r| <= |log|
    ensures forall op :: op in r <==> op in log && op.id > operationId
  {
    if log == [] then []
    else
      var rest := Newer(log[1..], operationId);
      assert forall op :: op in log <==> op == log[0] || op in log[1..];
      if log[0].id > operationId then [log[0]] + rest else rest
  }

  /** On a newest-first log the newer entries are a prefix: the first one is the log's newest. */
  lemma {:induction false} NewerIsPrefix(log: seq<Operation>, operationId: int)
    requires NewestFirstLog(log)
    ensures Newer(log, operationId) == log[..|Newer(log, operationId)|]
  {
    if log != [] {
      var tail := log[1..];
      assert NewestFirstLog(tail) by {
        forall i, j | 0 <= i < j < |tail| ensures tail[i].id > tail[j].id {
          assert tail[i] == log[i + 1] && tail[j] == log[j + 1];
        }
      }
      NewerIsPrefix(tail, operationId);
      if log[0].id <= operationId {
        forall op | op in tail ensures op.id <= operationId {
          var i :| 0 <= i < |tail| && tail[i] == op;
          assert log[i + 1] == op;
        }
        assert Newer(tail, operationId) == [];
      }
    }
  }

  /** The fetched window: the newer entries, newest id first, at most `WindowSize`. */
  function Window(log: seq<Operation>, operationId: int): (w: seq<Operation>)
    ensures |w| <= WindowSize
    ensures forall op :: op in w ==> op in log && op.id > operationId
    // `limit(50)` keeps the newest newer entries: a prefix, all of them when fewer than 50 exist
    ensures |w| <= |Newer(log, operationId)| && w == Newer(log, operationId)[..|w|]
    ensures |w| < WindowSize ==> w == Newer(log, operationId)
  {
    var newer := Newer(log, operationId);
    if |newer| <= WindowSize then newer else newer[..WindowSize]
  }

  /** `newestFirst`'s key. */
  function OpCreatedAt(op: Operation): int { op.createdAt }

  // ---------------------------------------------------------------------
  // The fold
  // ---------------------------------------------------------------------

  /** `a.map((b) => b.uri).lastIndexOf(uri)`. */
  function LastIndexOfUri(acc: seq<Operation>, uri: string): (k: int)
    ensures -1 <= k < |acc|
    ensures k >= 0 ==> acc[k].uri == uri && forall j :: k < j < |acc| ==> acc[j].uri != uri
    ensures k == -1 ==> forall j :: 0 <= j < |acc| ==> acc[j].uri != uri
  {
    if acc == [] then -1
    else if acc[|acc| - 1].uri == uri then |acc| - 1
    else LastIndexOfUri(acc[..|acc| - 1], uri)
  }

  /**
   * One step of the `reduce`: a delete whose uri was already folded in
   * removes the last folded entry with that uri (whatever its opcode) and is
   * itself dropped; every other entry is appended.
   */
  function FoldStep(acc: seq<Operation>, c: Operation): (r: seq<Operation>)
    ensures c.opcode == Delete && (exists j :: 0 <= j < |acc| && acc[j].uri == c.uri) ==>
      |r| == |acc| - 1 &&
      exists k :: 0 <= k < |acc| && acc[k].uri == c.uri && (forall j :: k < j < |acc| ==> acc[j].uri != c.uri)
        && r == acc[..k] + acc[k + 1..]
    ensures !(c.opcode == Delete && exists j :: 0 <= j < |acc| && acc[j].uri == c.uri) ==> r == acc + [c]
  {
    if c.opcode == Delete then
      var lastAdded := LastIndexOfUri(acc, c.uri);
      if lastAdded != -1 then acc[..lastAdded] + acc[lastAdded + 1..] else acc + [c]
    else acc + [c]
  }

  /** The whole `reduce`, a left fold of `FoldStep` from the empty list. */
  function Fold(ops: seq<Operation>): (r: seq<Operation>)
    ensures forall op :: op in r ==> op in ops
  {
    if ops == [] then []
    else
      var init, c := ops[..|ops| - 1], ops[|ops| - 1];
      var acc := Fold(init);
      var r := FoldStep(acc, c);
      assert forall op :: op in r ==> op in acc || op == c;
      assert forall op :: op in init ==> op in ops;
      r
  }

  /** Folding only drops entries: the result is a sub-multiset of the input, hence no longer. */
  lemma {:induction false} FoldShrinks(ops: seq<Operation>)
    ensures multiset(Fold(ops)) <= multiset(ops)
    ensures |Fold(ops)| <= |ops|
  {
    if ops != [] {
      var init, c := ops[..|ops| - 1], ops[|ops| - 1];
      FoldShrinks(init);
      assert ops == init + [c];
      FoldStepShrinks(Fold(init), c);
      assert |Fold(ops)| == |multiset(Fold(ops))|;
    }
  }

  /** One step drops an entry or appends `c`. */
  lemma FoldStepShrinks(acc: seq<Operation>, c: Operation)
    ensures multiset(FoldStep(acc, c)) <= multiset(acc) + multiset{c}
  {
    var k := LastIndexOfUri(acc, c.uri);
    if c.opcode == Delete && k != -1 {
      assert acc == acc[..k] + [acc[k]] + acc[k + 1..];
    }
  }

  // ---------------------------------------------------------------------
  // insert / remove
  // ---------------------------------------------------------------------

  /** The feed row an `add` entry stands for (milliseconds to seconds). */
  function ToItem(op: Operation): (it: FeedItem)
    ensures it.rowid == op.bookmarkId && it.post == op.uri && it.cid == op.cid
    ensures it.createdAt * 1000 <= op.createdAt < it.createdAt * 1000 + 1000
  {
    FeedItem(op.bookmarkId, op.uri, op.cid, op.createdAt / 1000)
  }

  /** `diffs.filter(add).map(...)`: the folded adds as feed rows, in fold order. */
  function Inserts(diffs: seq<Operation>): (items: seq<FeedItem>)
    ensures forall op :: op in diffs && op.opcode == Add ==> ToItem(op) in items
    ensures forall it :: it in items ==> exists op :: op in diffs && op.opcode == Add && it == ToItem(op)
  {
    if diffs == [] then []
    else
      var rest := Inserts(diffs[1..]);
      assert forall op :: op in diffs[1..] ==> op in diffs;
      if diffs[0].opcode == Add then [ToItem(diffs[0])] + rest else rest
  }

  /** `diffs.filter(delete).map(uri)`: the uris of the folded deletes, in fold order. */
  function Removes(diffs: seq<Operation>): (uris: seq<string>)
    ensures |Inserts(diffs)| + |uris| == |diffs|
    ensures forall op :: op in diffs && op.opcode == Delete ==> op.uri in uris
    ensures forall u :: u in uris ==> exists op :: op in diffs && op.opcode == Delete && op.uri == u
  {
    if diffs == [] then []
    else
      var rest := Removes(diffs[1..]);
      assert forall op :: op in diffs[1..] ==> op in diffs;
      if diffs[0].opcode == Delete then [diffs[0].uri] + rest else rest
  }

  // ---------------------------------------------------------------------
  // getOperationDiffs
  // ---------------------------------------------------------------------

  datatype Diff = Diff(insert: seq<FeedItem>, remove: seq<string>, id: Option<int>)

  /** The resolved diff, or the rejection `{ error: 'Cache too old', id }`. */
  datatype DiffResult = Diffs(diff: Diff) | CacheTooOld(id: int)

  /** The fold applied to the sorted window. */
  function FoldedWindow(log: seq<Operation>, operationId: int): seq<Operation> {
    Fold(SortDesc(Window(log, operationId), OpCreatedAt))
  }

  function GetOperationDiffs(log: seq<Operation>, operationId: int): (r: DiffResult)
    // The check `list[49].id !== operationId` always holds, because every id
    // fetched is strictly above `operationId`: any full window is rejected.
    ensures r.CacheTooOld? <==> |Window(log, operationId)| == WindowSize
    ensures NewestFirstLog(log) && r.CacheTooOld? ==> r.id == log[0].id
    ensures NewestFirstLog(log) && r.Diffs? ==>
      r.diff.id == (if exists op :: op in log && op.id > operationId then Some(log[0].id) else None)
    ensures r.Diffs? ==> Window(log, operationId) == Newer(log, operationId)
    ensures r.Diffs? ==> var d := FoldedWindow(log, operationId);
      r.diff.insert == Inserts(d) && r.diff.remove == Removes(d)
  {
    var list := Window(log, operationId);
    WatermarkIsNewest(log, operationId);
    if |list| == WindowSize && list[WindowSize - 1].id != operationId then
      CacheTooOld(list[0].id)
    else
      var diffs := Fold(SortDesc(list, OpCreatedAt));
      Diffs(Diff(Inserts(diffs), Removes(diffs), if list == [] then None else Some(list[0].id)))
  }

  /** The first entry of the window is the newest entry of the whole log. */
  lemma WatermarkIsNewest(log: seq<Operation>, operationId: int)
    ensures NewestFirstLog(log) && Window(log, operationId) != [] ==> Window(log, operationId)[0] == log[0]
    ensures Window(log, operationId) == [] <==> !exists op :: op in log && op.id > operationId
  {
    var newer := Newer(log, operationId);
    if NewestFirstLog(log) {
      NewerIsPrefix(log, operationId);
    }
    if newer != [] {
      assert newer[0] in newer;
    }
  }

  /** Every folded entry comes from the fetched window, and there are no more of them. */
  lemma FoldedWindowFromWindow(log: seq<Operation>, operationId: int)
    ensures |FoldedWindow(log, operationId)| <= |Window(log, operationId)|
    ensures forall op :: op in FoldedWindow(log, operationId) ==> op in log && op.id > operationId
  {
    var w := Window(log, operationId);
    var sorted := SortDesc(w, OpCreatedAt);
    FoldShrinks(sorted);
    forall op | op in FoldedWindow(log, operationId) ensures op in log && op.id > operationId {
      assert op in multiset(Fold(sorted));
      assert op in multiset(w);
    }
  }

  // ---------------------------------------------------------------------
  // Scenarios
  // ---------------------------------------------------------------------

  /**
   * Two new entries after watermark 5: `6: add x` and `7: delete y`. The
   * diff inserts x, removes y, and moves the watermark to 7.
   */
  lemma AddAndDeleteOfDifferentPosts()
    ensures var add6 := Operation(6, Add, "x", "cx", 60, 6000);
      var del7 := Operation(7, Delete, "y", "cy", 0, 7000);
      GetOperationDiffs([del7, add6], 5) == Diffs(Diff([FeedItem(60, "x", "cx", 6)], ["y"], Some(7)))
  {
    var add6 := Operation(6, Add, "x", "cx", 60, 6000);
    var del7 := Operation(7, Delete, "y", "cy", 0, 7000);
    DiffsOfTwo(del7, add6, 5);
    AddStepAppends([del7], add6);
    SplitOfTwo(del7, add6);
    assert ToItem(add6) == FeedItem(60, "x", "cx", 6);
  }

  /**
   * Any post added and deleted again later in one window: sorting newest
   * first puts the delete ahead of the add, so nothing cancels and the post
   * is both inserted and removed; the removal wins when the diff is applied.
   */
  lemma AddThenDeleteOfSamePost(add: Operation, del: Operation, operationId: int)
    requires add.opcode == Add && del.opcode == Delete && del.uri == add.uri
    requires del.id > add.id > operationId && del.createdAt >= add.createdAt
    ensures GetOperationDiffs([del, add], operationId) == Diffs(Diff([ToItem(add)], [add.uri], Some(del.id)))
  {
    DiffsOfTwo(del, add, operationId);
    AddStepAppends([del], add);
    SplitOfTwo(del, add);
  }

  /**
   * A post deleted (id 6) and added again (id 7) in one window: the newer
   * add comes first, the older delete cancels it, and the diff is empty.
   */
  lemma DeleteThenAddOfSamePost()
    ensures var del6 := Operation(6, Delete, "x", "cx", 0, 6000);
      var add7 := Operation(7, Add, "x", "cx", 70, 7000);
      GetOperationDiffs([add7, del6], 5) == Diffs(Diff([], [], Some(7)))
  {
    var del6 := Operation(6, Delete, "x", "cx", 0, 6000);
    var add7 := Operation(7, Add, "x", "cx", 70, 7000);
    DiffsOfTwo(add7, del6, 5);
    assert LastIndexOfUri([add7], "x") == 0;
    assert FoldStep([add7], del6) == [];
  }

  /** An add is always appended. */
  lemma AddStepAppends(acc: seq<Operation>, c: Operation)
    requires c.opcode == Add
    ensures FoldStep(acc, c) == acc + [c]
  {
  }

  /** Splitting a folded delete followed by a folded add. */
  lemma SplitOfTwo(del: Operation, add: Operation)
    requires del.opcode == Delete && add.opcode == Add
    ensures Inserts([del, add]) == [ToItem(add)] && Removes([del, add]) == [del.uri]
  {
    assert [del, add][1..] == [add];
    assert [add][1..] == [];
    assert Inserts([add]) == [ToItem(add)] + Inserts([]);
    assert Removes([add]) == Removes([]) == [];
  }

  /** A two-entry window already in time order folds its two entries in log order. */
  lemma DiffsOfTwo(a: Operation, b: Operation, operationId: int)
    requires a.id > b.id > operationId && a.createdAt >= b.createdAt
    ensures GetOperationDiffs([a, b], operationId)
      == Diffs(Diff(Inserts(FoldStep([a], b)), Removes(FoldStep([a], b)), Some(a.id)))
  {
    NewerOfTwo([a, b], operationId);
    SortedPairOfOps(a, b);
    FoldOfPair(a, b);
  }

  lemma NewerOfTwo(log: seq<Operation>, operationId: int)
    requires |log| == 2 && log[0].id > operationId && log[1].id > operationId
    ensures Window(log, operationId) == log
  {
    assert log[1..][1..] == [];
  }

  lemma SortedPairOfOps(a: Operation, b: Operation)
    requires a.createdAt >= b.createdAt
    ensures SortDesc([a, b], OpCreatedAt) == [a, b]
  {
    assert NonIncreasing([a, b], OpCreatedAt);
    SortDescSortedIsIdentity([a, b], OpCreatedAt);
  }

  lemma FoldOfPair(a: Operation, b: Operation)
    ensures Fold([a, b]) == FoldStep([a], b)
  {
    assert [a, b][..1] == [a];
    assert [a][..0] == [];
    assert Fold([a]) == FoldStep([], a) == [a];
  }
}
