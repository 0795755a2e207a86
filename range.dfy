/**
 * The row-id interval tracker of src/xrpc/range.ts. An interval `{s, e}`
 * records that a database fetch starting below row `s` was read down to row
 * `e`; `{s, s}` is the sentinel for a fetch that returned nothing (the bottom
 * of the user's bookmarks). The class keeps a list of intervals that `append`
 * pushes onto, sorts by descending `s` and folds with a merge step.
 */
module RangeTracker {
  import opened Wrappers
  import opened FeedItems
  import opened Sorting

  datatype Interval = Interval(s: int, e: int)

  predicate Degenerate(iv: Interval) { iv.s == iv.e }

  function Start(iv: Interval): int { iv.s }

  /** Intervals ordered by non-increasing start. */
  ghost predicate SortedByStart(xs: seq<Interval>) { NonIncreasing(xs, Start) }

  /** `append`'s `start` is ignored when it is falsy: undefined or 0. */
  predicate Falsy(start: Option<int>) { start.None? || start.value == 0 }

  /** The interval a fetch records: `{s: start, e: rowid of the last row}`, or `{start, start}` when empty. */
  function Recorded(result: seq<FeedItem>, start: int): (iv: Interval)
    ensures iv.s == start
    ensures result == [] ==> Degenerate(iv)
    ensures result != [] ==> iv.e == result[|result| - 1].rowid
  {
    Interval(start, if result == [] then start else result[|result| - 1].rowid)
  }

  // ---------------------------------------------------------------------
  // The merge fold of `append`
  // ---------------------------------------------------------------------

  /**
   * One step of the merge `reduce`: a non-degenerate interval whose start is
   * at or below the end of the last kept interval extends (or shrinks) that
   * interval to its own end; an exact copy of the last kept interval is
   * dropped; anything else is kept.
   */
  function MergeStep(r: seq<Interval>, iv: Interval): (m: seq<Interval>)
    ensures |r| <= |m| <= |r| + 1
    ensures |r| > 0 ==> m[..|r| - 1] == r[..|r| - 1]
    ensures Degenerate(iv) ==> m == r || m == r + [iv]
    ensures |r| > 0 && r[|r| - 1] == iv ==> m == r
    ensures |r| > 0 && !Degenerate(iv) && r[|r| - 1].e <= iv.s ==>
      m == r[..|r| - 1] + [Interval(r[|r| - 1].s, iv.e)]
    ensures |m| == |r| + 1 ==> m == r + [iv]
    // neither merged nor a duplicate: appended
    ensures !(|r| > 0 && !Degenerate(iv) && r[|r| - 1].e <= iv.s) && !(|r| > 0 && r[|r| - 1] == iv) ==>
      m == r + [iv]
  {
    if |r| > 0 && !Degenerate(iv) && r[|r| - 1].e <= iv.s then
      r[..|r| - 1] + [Interval(r[|r| - 1].s, iv.e)]
    else if |r| > 0 && r[|r| - 1] == iv then
      r
    else
      r + [iv]
  }

  /** The whole `reduce`, a left fold of `MergeStep` from the empty list. */
  function MergeAll(xs: seq<Interval>): (r: seq<Interval>)
    ensures xs != [] ==> r != [] && r[0].s == xs[0].s
  {
    if xs == [] then []
    else
      var init, x := xs[..|xs| - 1], xs[|xs| - 1];
      assert init != [] ==> init[0] == xs[0];
      assert init == [] ==> x == xs[0];
      MergeStepKeepsHead(MergeAll(init), x);
      MergeStep(MergeAll(init), x)
  }

  /** A merge step never changes the first interval's start. */
  lemma MergeStepKeepsHead(r: seq<Interval>, x: Interval)
    ensures r == [] ==> MergeStep(r, x) == [x]
    ensures r != [] ==> MergeStep(r, x) != [] && MergeStep(r, x)[0].s == r[0].s
  {
    var m := MergeStep(r, x);
    if |r| > 1 {
      assert m[..|r| - 1][0] == r[..|r| - 1][0];
    }
  }

  /** What `append(result, start)` leaves in the list. */
  function Appended(intervals: seq<Interval>, result: seq<FeedItem>, start: Option<int>): (r: seq<Interval>)
    ensures Falsy(start) ==> r == intervals
    ensures !Falsy(start) ==> 0 < |r| <= |intervals| + 1
  {
    if Falsy(start) then intervals
    else
      var sorted := SortDesc(intervals + [Recorded(result, start.value)], Start);
      MergeAllLength(sorted);
      MergeAll(sorted)
  }

  /** The merge fold never lengthens the list. */
  lemma {:induction false} MergeAllLength(xs: seq<Interval>)
    ensures |MergeAll(xs)| <= |xs|
  {
    if xs != [] {
      MergeAllLength(xs[..|xs| - 1]);
    }
  }

  /**
   * Folding a list sorted by start keeps it sorted: merging only changes
   * ends, and every kept start is at least the last input's start.
   */
  lemma {:induction false} MergeAllSorted(xs: seq<Interval>)
    requires SortedByStart(xs)
    ensures SortedByStart(MergeAll(xs))
    ensures xs != [] ==> forall y :: y in MergeAll(xs) ==> y.s >= xs[|xs| - 1].s
  {
    if xs != [] {
      var init, x := xs[..|xs| - 1], xs[|xs| - 1];
      PrefixNonIncreasing(xs, Start);
      MergeAllSorted(init);
      if init != [] {
        assert Start(xs[|xs| - 2]) >= Start(x);
      }
      MergeStepSorted(MergeAll(init), x);
    }
  }

  /** One merge step keeps a sorted list sorted when the new interval starts at or below every kept start. */
  lemma MergeStepSorted(r: seq<Interval>, x: Interval)
    requires SortedByStart(r)
    requires forall y :: y in r ==> y.s >= x.s
    ensures SortedByStart(MergeStep(r, x))
    ensures forall y :: y in MergeStep(r, x) ==> y.s >= x.s
  {
    var m := MergeStep(r, x);
    if |r| > 0 && !Degenerate(x) && r[|r| - 1].e <= x.s {
      var n := |r| - 1;
      assert m == r[..n] + [Interval(r[n].s, x.e)];
      assert r[n] in r;
      forall k | 0 <= k < |m| ensures m[k].s == r[k].s {
        if k < n { assert m[k] == r[k]; }
      }
      forall i, j | 0 <= i < j < |m| ensures Start(m[i]) >= Start(m[j]) {
        assert Start(r[i]) >= Start(r[j]);
      }
      forall y | y in m ensures y.s >= x.s {
        var k :| 0 <= k < |m| && m[k] == y;
        assert r[k] in r;
      }
    } else if |r| > 0 && r[|r| - 1] == x {
    } else {
      assert m == r + [x];
      forall i, j | 0 <= i < j < |m| ensures Start(m[i]) >= Start(m[j]) {
        if j < |r| {
          assert m[i] == r[i] && m[j] == r[j];
        } else {
          assert m[i] == r[i] && r[i] in r;
        }
      }
    }
  }

  /** After the fold, the list that `append` leaves is sorted and at most one longer. */
  lemma AppendedShape(intervals: seq<Interval>, result: seq<FeedItem>, start: int)
    requires start != 0
    ensures var a := Appended(intervals, result, Some(start));
      SortedByStart(a) && |a| <= |intervals| + 1
  {
    var sorted := SortDesc(intervals + [Recorded(result, start)], Start);
    MergeAllSorted(sorted);
    MergeAllLength(sorted);
  }

  // ---------------------------------------------------------------------
  // The end-of-feed sentinel survives the merge
  // ---------------------------------------------------------------------

  /** A degenerate interval folded last is the last kept interval. */
  lemma {:induction false} SentinelEndsFold(xs: seq<Interval>, x: Interval)
    requires Degenerate(x)
    ensures var m := MergeAll(xs + [x]); |m| > 0 && m[|m| - 1] == x
  {
    assert (xs + [x])[..|xs|] == xs;
  }

  /**
   * Once kept at position `p`, an interval is never touched again by steps
   * whose starts lie strictly below its end: only the last kept interval is
   * ever changed, and while that is the kept one nothing reaches it.
   */
  lemma {:induction false} KeptSurvives(prefix: seq<Interval>, rest: seq<Interval>, p: nat)
    requires var m := MergeAll(prefix); p == |m| - 1
    requires forall y :: y in rest ==> y.s < MergeAll(prefix)[p].e
    ensures var m := MergeAll(prefix + rest); p < |m| && m[p] == MergeAll(prefix)[p]
  {
    if rest == [] {
      assert prefix + rest == prefix;
    } else {
      var n := |rest| - 1;
      var init, y := rest[..n], rest[n];
      var kept := MergeAll(prefix)[p];
      assert forall z :: z in init ==> z.s < kept.e by {
        forall z | z in init ensures z.s < kept.e {
          var i :| 0 <= i < n && init[i] == z;
          assert rest[i] == z;
        }
      }
      assert y.s < kept.e by {
        assert rest[n] in rest;
      }
      KeptSurvives(prefix, init, p);
      assert prefix + rest == (prefix + init) + [y];
      MergeAllPush(prefix + init, y);
      StepKeeps(MergeAll(prefix + init), y, p);
    }
  }

  /** The fold of a list with one more interval is one more step. */
  lemma MergeAllPush(xs: seq<Interval>, y: Interval)
    ensures MergeAll(xs + [y]) == MergeStep(MergeAll(xs), y)
  {
    assert (xs + [y])[..|xs|] == xs;
  }

  /** In a sorted list, everything from the insertion point on starts strictly below the inserted interval. */
  lemma AfterInsertionPointIsBelow(x: Interval, ys: seq<Interval>)
    requires SortedByStart(ys)
    ensures var k := InsertionPoint(x, ys, Start);
      forall y :: y in ys[k..] ==> y.s < x.s
  {
    var k := InsertionPoint(x, ys, Start);
    forall y | y in ys[k..] ensures y.s < x.s {
      var i :| 0 <= i < |ys| - k && ys[k..][i] == y;
      assert ys[k + i] == y;
      assert Start(ys[k]) >= Start(ys[k + i]);
    }
  }

  /** One more step of the fold. */
  lemma MergeAllSnoc(xs: seq<Interval>, i: nat)
    requires i < |xs|
    ensures MergeAll(xs[..i + 1]) == MergeStep(MergeAll(xs[..i]), xs[i])
  {
    assert xs[..i + 1][..i] == xs[..i];
  }

  /** What `append` promises about the list it leaves, with a truthy start. */
  lemma AppendFacts(intervals: seq<Interval>, result: seq<FeedItem>, start: int)
    requires start != 0
    ensures var a := Appended(intervals, result, Some(start));
      && SortedByStart(a) && |a| <= |intervals| + 1
      && (result == [] ==> Interval(start, start) in a)
  {
    AppendedShape(intervals, result, start);
    if result == [] {
      EmptyFetchLeavesSentinel(intervals, start);
    }
  }

  /** A merge step leaves position `p` alone unless `p` is last and the new interval reaches its end. */
  lemma StepKeeps(r: seq<Interval>, y: Interval, p: nat)
    requires p < |r|
    requires p == |r| - 1 ==> y.s < r[p].e
    ensures var m := MergeStep(r, y); p < |m| && m[p] == r[p]
  {
    var m := MergeStep(r, y);
    if p < |r| - 1 {
      assert m[..|r| - 1][p] == r[..|r| - 1][p];
    } else {
      assert m == r || m == r + [y];
    }
  }

  /** An empty fetch from `start` leaves the sentinel `{start, start}` in the list. */
  lemma EmptyFetchLeavesSentinel(intervals: seq<Interval>, start: int)
    requires start != 0
    ensures Interval(start, start) in Appended(intervals, [], Some(start))
  {
    var x := Interval(start, start);
    var sortedOld := SortDesc(intervals, Start);
    SortDescPush(intervals, x, Start);
    var k := InsertionPoint(x, sortedOld, Start);
    var before, after := sortedOld[..k], sortedOld[k..];
    var sorted := before + [x] + after;
    assert sorted == SortDesc(intervals + [x], Start);
    AfterInsertionPointIsBelow(x, sortedOld);
    SentinelEndsFold(before, x);
    var m := MergeAll(before + [x]);
    KeptSurvives(before + [x], after, |m| - 1);
    assert before + [x] + after == (before + [x]) + after;
  }

  // ---------------------------------------------------------------------
  // The quirks of the fold, on concrete lists
  // ---------------------------------------------------------------------

  /** Merging can shrink an interval: `{10, 2}` absorbs `{8, 5}` and becomes `{10, 5}`. */
  lemma MergeCanShrink()
    ensures Appended([Interval(10, 2)], [FeedItem(5, "p", "c", 0)], Some(8)) == [Interval(10, 5)]
  {
    var a, b := Interval(10, 2), Interval(8, 5);
    AppendToSingle(a, [FeedItem(5, "p", "c", 0)], 8);
    assert MergeStep([a], b) == [Interval(10, 5)];
  }

  /** Intervals can overlap: a sentinel is never merged, even inside an interval. */
  lemma SentinelCanOverlap()
    ensures Appended([Interval(20, 5)], [], Some(15)) == [Interval(20, 5), Interval(15, 15)]
  {
    var a, b := Interval(20, 5), Interval(15, 15);
    AppendToSingle(a, [], 15);
    DegenerateStepAppends([a], b);
  }

  /** Appending below a single interval folds in one step. */
  lemma {:induction false} AppendToSingle(a: Interval, result: seq<FeedItem>, start: int)
    requires start != 0 && a.s >= start
    ensures Appended([a], result, Some(start)) == MergeStep([a], Recorded(result, start))
  {
    var b := Recorded(result, start);
    assert Appended([a], result, Some(start)) == MergeAll(SortDesc([a] + [b], Start));
    FoldOfSortedPair(a, b);
  }

  /** A degenerate interval other than the last kept one is appended as it is. */
  lemma DegenerateStepAppends(r: seq<Interval>, x: Interval)
    requires Degenerate(x) && (r == [] || r[|r| - 1] != x)
    ensures MergeStep(r, x) == r + [x]
  {
  }

  /** A two-element list already in start order sorts to itself and folds step by step. */
  lemma {:induction false} FoldOfSortedPair(a: Interval, b: Interval)
    requires a.s >= b.s
    ensures MergeAll(SortDesc([a] + [b], Start)) == MergeStep([a], b)
  {
    var xs := [a] + [b];
    assert SortedByStart(xs) by {
      forall i, j | 0 <= i < j < |xs| ensures Start(xs[i]) >= Start(xs[j]) {
        assert i == 0 && j == 1;
      }
    }
    SortDescSortedIsIdentity(xs, Start);
    MergeAllPush([a], b);
    MergeAllPush([], a);
    assert [] + [a] == [a];
  }

  // ---------------------------------------------------------------------
  // Queries
  // ---------------------------------------------------------------------

  /** `get`'s test: `e < rowid <= s`. */
  predicate Covers(iv: Interval, rowid: int) { iv.e < rowid <= iv.s }

  /** `next`'s test: a non-degenerate interval starting strictly below `rowid`. */
  predicate Below(iv: Interval, rowid: int) { iv.s < rowid && iv.s != iv.e }

  /** `isEOF`'s test: the sentinel at `rowid`. */
  predicate SentinelAt(iv: Interval, rowid: int) { iv.s == iv.e && iv.e == rowid }

  /** `Array.prototype.find`: the index of the first element passing `p`, or `|xs|`. */
  function FindIndex(xs: seq<Interval>, p: Interval -> bool): (k: nat)
    ensures k <= |xs|
    ensures k < |xs| ==> p(xs[k])
    ensures forall j :: 0 <= j < k ==> !p(xs[j])
  {
    if xs == [] then 0 else if p(xs[0]) then 0 else 1 + FindIndex(xs[1..], p)
  }

  /**
   * The `reduce` of `append` over the sorted list: each interval either
   * rewrites the last kept interval's end, is dropped as a duplicate of it,
   * or is kept.
   */
  method MergeLoop(sorted: seq<Interval>) returns (merged: seq<Interval>)
    ensures merged == MergeAll(sorted)
  {
    merged := [];
    var i := 0;
    while i < |sorted|
      invariant 0 <= i <= |sorted|
      invariant merged == MergeAll(sorted[..i])
    {
      var cur := sorted[i];
      MergeAllSnoc(sorted, i);
      if |merged| > 0 && cur.s != cur.e && merged[|merged| - 1].e <= cur.s {
        var last := merged[|merged| - 1];
        merged := merged[..|merged| - 1] + [Interval(last.s, cur.e)];
      } else if |merged| > 0 && merged[|merged| - 1] == cur {
      } else {
        merged := merged + [cur];
      }
      i := i + 1;
    }
    assert sorted[..|sorted|] == sorted;
  }

  class Range {
    var intervals: seq<Interval>

    constructor (initial: seq<Interval>)
      ensures intervals == initial
    {
      intervals := initial;
    }

    /**
     * Records a fetch of `result` that started below row `start`. The merge
     * loop is the source's `reduce`, which rewrites the last kept interval's
     * end in place.
     */
    method Append(result: seq<FeedItem>, start: Option<int>)
      modifies this
      ensures intervals == Appended(old(intervals), result, start)
      ensures Falsy(start) ==> intervals == old(intervals)
      ensures !Falsy(start) ==> SortedByStart(intervals)
      ensures SortedByStart(old(intervals)) ==> SortedByStart(intervals)
      ensures |intervals| <= |old(intervals)| + 1
      ensures !Falsy(start) && result == [] ==> IsEOF(start)
    {
      if Falsy(start) {
        return;
      }
      var s := start.value;
      var e := if result == [] then s else result[|result| - 1].rowid;
      var sorted := SortDesc(intervals + [Interval(s, e)], Start);
      var merged := MergeLoop(sorted);
      assert Interval(s, e) == Recorded(result, s);
      AppendFacts(intervals, result, s);
      intervals := merged;
    }

    method Clear()
      modifies this
      ensures intervals == []
      ensures forall rowid :: Get(Some(rowid)).None? && Next(Some(rowid)).None? && !IsEOF(Some(rowid))
    {
      intervals := [];
    }

    /** `get`: the first interval covering `row`, i.e. `e < row <= s`. */
    function Get(row: Option<int>): (found: Option<Interval>)
      reads this
      ensures found.None? <==> row.None? || forall iv :: iv in intervals ==> !Covers(iv, row.value)
      ensures found.Some? ==>
        exists k :: 0 <= k < |intervals| && intervals[k] == found.value
          && Covers(found.value, row.value) && forall j :: 0 <= j < k ==> !Covers(intervals[j], row.value)
    {
      if row.None? then None
      else
        var k := FindIndex(intervals, iv => Covers(iv, row.value));
        if k < |intervals| then Some(intervals[k]) else None
    }

    /** `next`: the first non-degenerate interval that starts below `row`. */
    function Next(row: Option<int>): (found: Option<Interval>)
      reads this
      ensures found.None? <==> row.None? || forall iv :: iv in intervals ==> !Below(iv, row.value)
      ensures found.Some? ==> !Degenerate(found.value) && found.value.s < row.value
      ensures found.Some? ==>
        exists k :: 0 <= k < |intervals| && intervals[k] == found.value
          && forall j :: 0 <= j < k ==> !Below(intervals[j], row.value)
    {
      if row.None? then None
      else
        var k := FindIndex(intervals, iv => Below(iv, row.value));
        if k < |intervals| then Some(intervals[k]) else None
    }

    /** `isEOF`: the sentinel `{row, row}` is recorded. */
    predicate IsEOF(row: Option<int>)
      reads this
      ensures IsEOF(row) <==> row.Some? && Interval(row.value, row.value) in intervals
    {
      row.Some? && FindIndex(intervals, iv => SentinelAt(iv, row.value)) < |intervals|
    }
  }
}
