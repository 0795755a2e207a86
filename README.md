# bluebookmark feed core in Dafny

This project models the core of bluebookmark, a Bluesky feed generator that serves each user's bookmarks as a custom feed:

- **Feed skeleton.** The `getFeedSkeleton` handler (src/xrpc/feed.ts) reconciles a cached copy of the user's feed with the operation log (adds and deletes since the cache's watermark). It tops up the items with bounded row fetches steered by a tracker of already-fetched rowid intervals (src/xrpc/range.ts). It then de-duplicates by content id, cuts the page after the cursor and emits the next cursor (src/xrpc/cursor.ts).
- **Bookmark endpoints.** The add and delete endpoints (src/api/bookmark.ts and the earlier src/bookmark.ts) work on a bookmarks table keyed by `(sub, uri)` with a soft-delete flag.
- **Public keys.** Public-key selection and the two-level public-key store (src/pubkey.ts).

The database is a value: the user's rows by descending rowid and the operation log by descending id. The feed cache is an optional `(items, opId, ranges)` input, and the handler returns the value it writes back. The `Range` tracker and the key stores are classes whose methods update their fields in place. The bookmarks table is a class holding a map of rows; the endpoints are methods that update that map in place.

Modules (one file each):
- `Wrappers`: `Option`.
- `FeedItems`: the feed item record.
- `Sorting`: the stable descending sort used for `Array.prototype.sort`.
- `CursorCodec`: the cursor format.
- `RangeTracker`: the `Range` class.
- `OperationDiffs`: folding the operation log.
- `FeedSkeleton`: fetching, merging, de-duplicating, paging and the handler.
- `BookmarkTable`: the table, and the upsert and soft delete.
- `ApiBookmark`: the routed endpoints.
- `LegacyBookmark`: the earlier endpoints, with path splitting and the table-then-remote lookup.
- `Pubkey`: key selection and the key stores.

## Model

| member | source | states |
|---|---|---|
| Sorting.SortDesc | src/xrpc/feed.ts:63-64 | `sort(newestFirst)`: result is a permutation (same multiset) of the input, ordered by non-increasing key |
| Sorting.SortDescSortedIsIdentity | src/xrpc/feed.ts:63-64 | sorting an already non-increasing sequence leaves it unchanged (the sort is stable) |
| Sorting.SortDescMembers | src/xrpc/feed.ts:63-64 | sorting neither adds nor drops elements: membership is preserved both ways |
| Sorting.SortDescStable | src/xrpc/feed.ts:63-64 | stability for every input: for each key, the elements carrying it leave the sort in the order they entered |
| CursorCodec.NatToString | src/xrpc/cursor.ts:6 | a number renders as a non-empty string of decimal digits with no leading zero (only 0 starts with `0`) |
| CursorCodec.DigitsValueOfNatToString | src/xrpc/cursor.ts:6 | reading back the rendered digits gives the number (`+time` inverts `${createdAt}`) |
| CursorCodec.CreateCursor | src/xrpc/cursor.ts:1-8 | undefined exactly for an undefined item; otherwise `createdAt::cid+rowid` |
| CursorCodec.IntToString | src/xrpc/cursor.ts:6 | `${n}` on an integer: non-empty, a leading `-` exactly for negatives, and for non-negatives digits that read back as the number |
| CursorCodec.DigitsValue | src/xrpc/cursor.ts:18-20 | unary `+` on a digit string: positive whenever the string does not start with `0` |
| CursorCodec.MatchCursorPattern | src/xrpc/cursor.ts:10 | `text.match(cursorPattern)`: the `^$` alternative exactly for the empty text; the other alternative's groups are digits, word characters and digits |
| CursorCodec.ParseCursor | src/xrpc/cursor.ts:12-22 | the empty text gives no cursor; a parsed cursor has non-negative time and rowid and a non-empty word-character cid |
| CursorCodec.DigitRun | src/xrpc/cursor.ts:10 | `\d+` greedy run: the prefix taken is all digits and the next character is not a digit |
| CursorCodec.WordRun | src/xrpc/cursor.ts:10 | `\w+` greedy run: the prefix taken is all word characters and the next character is not one |
| CursorCodec.MatchSound | src/xrpc/cursor.ts:10 | a match of the cursor pattern covers the whole text, and its groups are digits, word characters and digits |
| CursorCodec.MatchComplete | src/xrpc/cursor.ts:10 | every `digits::word+digits` text matches, with exactly those groups |
| CursorCodec.EmptyTextMatchesButDoesNotParse | src/xrpc/cursor.ts:10-16 | `""` matches the pattern's `^$` branch, yet `parseCursor("")` is undefined |
| CursorCodec.ParseCursorCharacterized | src/xrpc/cursor.ts:12-22 | parsing succeeds iff the text is non-empty and matches; then time and rowid are the decimal values of their groups (non-negative) and cid is the word group |
| CursorCodec.RoundTrip | src/xrpc/cursor.ts:1-22 | for non-negative createdAt and rowid and a non-empty word-character cid, `parseCursor(createCursor(x))` gives back createdAt, cid and rowid |
| CursorCodec.CreatedCursorMatchesPattern | src/xrpc/cursor.ts:6-10 | under the same conditions a created cursor passes the query validator's pattern |
| CursorCodec.NegativeTimeDoesNotParse | src/xrpc/cursor.ts:6-16 | a negative createdAt renders with `-` and the cursor no longer parses |
| RangeTracker.Recorded | src/xrpc/range.ts:19-20 | the recorded interval starts at `start` and ends at the last fetched rowid, or at `start` (a degenerate EOF sentinel) when the fetch was empty |
| RangeTracker.MergeStep | src/xrpc/range.ts:24-35 | one reduce step: a non-degenerate interval starting at or above the previous end replaces that end; an exact duplicate is dropped; a degenerate interval is never merged; otherwise it is appended; earlier intervals are untouched |
| RangeTracker.MergeAll | src/xrpc/range.ts:22-36 | the reduce over the sorted list: a non-empty list folds to a non-empty one whose first interval keeps the first start |
| RangeTracker.Appended | src/xrpc/range.ts:15-36 | a falsy start leaves the list as it was; otherwise the list is non-empty and at most one longer |
| RangeTracker.MergeLoop | src/xrpc/range.ts:22-36 | the reduce written as a loop that rewrites the last kept interval's end in place computes exactly `MergeAll` |
| RangeTracker.MergeAllLength | src/xrpc/range.ts:22-36 | the merge fold never lengthens the list |
| RangeTracker.MergeAllSorted | src/xrpc/range.ts:22-36 | the fold of a list sorted by descending start stays sorted, and every kept start is at least the last input's start |
| RangeTracker.AppendedShape | src/xrpc/range.ts:15-37 | with a truthy start the list afterwards is sorted by descending start and at most one longer |
| RangeTracker.SentinelEndsFold | src/xrpc/range.ts:24-35 | a degenerate interval that sorts last always survives as the last element |
| RangeTracker.KeptSurvives | src/xrpc/range.ts:24-35 | an interval kept by the fold stays, unchanged, when all later intervals start below its end |
| RangeTracker.EmptyFetchLeavesSentinel | src/xrpc/range.ts:15-37 | after appending an empty fetch at a truthy start, the sentinel `{start, start}` is in the list |
| RangeTracker.MergeCanShrink | src/xrpc/range.ts:27-29 | merging may shrink an interval: `{10,2}` then a fetch from 8 ending at 5 gives `{10,5}` |
| RangeTracker.SentinelCanOverlap | src/xrpc/range.ts:27-35 | a sentinel inside an existing interval is kept beside it: intervals need not be disjoint |
| RangeTracker.FindIndex | src/xrpc/range.ts:44-52 | `Array.find`: the index of the first element satisfying the test, or the length when none does |
| RangeTracker.Range.Append | src/xrpc/range.ts:15-37 | the new list is the sort-and-merge of the old one plus the recorded interval; falsy start changes nothing; an empty fetch makes `isEOF(start)` hold |
| RangeTracker.Range.Clear | src/xrpc/range.ts:39-41 | the list is empty and no query finds anything |
| RangeTracker.Range.Get | src/xrpc/range.ts:43-45 | undefined iff the row is undefined or no interval has `e < rowid <= s`; otherwise the first such interval |
| RangeTracker.Range.Next | src/xrpc/range.ts:47-49 | undefined iff the row is undefined or no non-degenerate interval starts below it; otherwise the first such, never degenerate |
| RangeTracker.Range.IsEOF | src/xrpc/range.ts:51-53 | holds iff the row is defined and the sentinel `{rowid, rowid}` is in the list |
| OperationDiffs.Newer | src/xrpc/feed.ts:23-31 | the log entries with id above the watermark, no others |
| OperationDiffs.NewerIsPrefix | src/xrpc/feed.ts:23-31 | in a log ordered by descending id those entries are a prefix of the log |
| OperationDiffs.Window | src/xrpc/feed.ts:23-31 | `limit(50)`: at most 50 entries, all newer than the watermark; a prefix of the newer entries, and all of them when fewer than 50 exist |
| OperationDiffs.LastIndexOfUri | src/xrpc/feed.ts:40 | `lastIndexOf` on the accumulated uris: the last index with that uri, or -1 when none |
| OperationDiffs.FoldStep | src/xrpc/feed.ts:38-47 | a delete whose uri is accumulated removes the last entry with that uri, whatever its opcode, and is not appended; every other operation is appended |
| OperationDiffs.Fold | src/xrpc/feed.ts:37-48 | the reduce over the newest-first window keeps only operations of its input |
| OperationDiffs.ToItem | src/xrpc/feed.ts:51-56 | an add becomes a row with rowid = bookmark id, the uri and cid, and createdAt the whole seconds of the milliseconds |
| OperationDiffs.FoldShrinks | src/xrpc/feed.ts:37-48 | the folded list is a sub-multiset of the input, so no longer than it |
| OperationDiffs.Inserts | src/xrpc/feed.ts:49-56 | exactly the folded adds, as items with rowid = bookmark id and createdAt in seconds |
| OperationDiffs.Removes | src/xrpc/feed.ts:57-59 | exactly the uris of the folded deletes; inserts and removes together account for every folded entry |
| OperationDiffs.GetOperationDiffs | src/xrpc/feed.ts:18-61 | rejected as too old exactly when the window is full (carrying the newest id); otherwise insert/remove come from folding all newer entries, and id is the newest id, absent when there is none |
| OperationDiffs.WatermarkIsNewest | src/xrpc/feed.ts:36 | the window's first entry is the log's newest; the window is empty iff nothing is newer than the watermark |
| OperationDiffs.FoldedWindowFromWindow | src/xrpc/feed.ts:37-48 | the folded window is no longer than the window and holds only newer log entries |
| OperationDiffs.AddAndDeleteOfDifferentPosts | src/xrpc/feed.ts:18-61 | a delete of one post and an add of another give one insert and one remove |
| OperationDiffs.AddThenDeleteOfSamePost | src/xrpc/feed.ts:37-59 | for any add and later delete of the same uri newer than the watermark, the newest-first fold puts the delete first, so nothing cancels: the diff inserts the added item, removes its uri, and carries the delete's id |
| OperationDiffs.DeleteThenAddOfSamePost | src/xrpc/feed.ts:37-59 | delete then add of the same post cancel out: empty insert and remove |
| FeedSkeleton.Matching | src/xrpc/feed.ts:90-95 | the `where` filter: exactly the rows of the user within the rowid bounds, no more rows than given |
| FeedSkeleton.Take | src/xrpc/feed.ts:89 | `limit(n)`: a prefix of at most `n` rows, the whole input when it is shorter |
| FeedSkeleton.FetchFeedItems | src/xrpc/feed.ts:79-95 | at most `limit` rows, all the user's and within `until <= rowid <= rowId - 1` when rowId is non-zero, strictly descending by rowid; a row in bounds is left out only when the limit is reached and it lies below every returned row |
| FeedSkeleton.FetchNewest | src/xrpc/feed.ts:98-103 | a one-row unbounded fetch returns the row with the highest rowid, or nothing for an empty table |
| FeedSkeleton.NotRemoved | src/xrpc/feed.ts:140 | keeps exactly the items whose post is not in the remove list |
| FeedSkeleton.ApplyDiff | src/xrpc/feed.ts:138-141 | the merged items are exactly the inserted and cached items whose post is not removed, newest first |
| FeedSkeleton.AddThenDeleteLeavesNothing | src/xrpc/feed.ts:138-141 | for any add and later delete of the same uri, no merged item carries that uri, whatever was cached |
| FeedSkeleton.DeleteThenAddKeepsCache | src/xrpc/feed.ts:138-141 | a delete followed by a re-add of a post leaves sorted cached items as they were |
| FeedSkeleton.DedupKeepsOrder | src/xrpc/feed.ts:180-185 | de-duplicating newest-first items leaves them newest first |
| FeedSkeleton.Dedup | src/xrpc/feed.ts:180-185 | pairwise distinct cids, a subsequence of the input, every input cid still present, and each kept item is the first of its cid |
| FeedSkeleton.CursorIndex | src/xrpc/feed.ts:187-191 | `findIndex`: the first item with `createdAt <= cursor.time` and a cid other than the cursor's, or -1 |
| FeedSkeleton.Page | src/xrpc/feed.ts:187-192 | at most `limit` items: from index 0 without a cursor, from the first item after the cursor with one, empty when no item is after it |
| FeedSkeleton.NextCursor | src/xrpc/feed.ts:193-195 | the page's cursor is absent exactly when the page is empty, and otherwise encodes its last item |
| FeedSkeleton.NextPageContinues | src/xrpc/feed.ts:187-195 | with distinct timestamps and cids, following a page's cursor yields the items right after that page |
| FeedSkeleton.TiedTimestampsRepeatThePage | src/xrpc/feed.ts:187-195 | with two items at the same time the cursor of a two-item page leads back to the same page |
| FeedSkeleton.Found | src/xrpc/feed.ts:165-167 | the items with `end <= rowid < cursor.rowid`, no others |
| FeedSkeleton.UpdateFeedItems | src/xrpc/feed.ts:106-110 | fetches `limit + 1` rows, records them in the range tracker, and returns them merged with the current items, newest first |
| FeedSkeleton.FillFromDatabase | src/xrpc/feed.ts:144-177 | the top-up ladder keeps every current item and adds only the user's rows; newest-first items stay newest first; the ranges stay sorted by start and grow by at most two (at most two fetches) |
| FeedSkeleton.LoadFromDatabase | src/xrpc/feed.ts:112-125 | on a cache miss the items are exactly the newest-first fetch of `limit + 1` rows below the cursor, that fetch is recorded in the ranges, and the watermark is the newest operation id, or 0 |
| FeedSkeleton.RefreshCache | src/xrpc/feed.ts:126-143 | on a cache hit the items come from the database or from the diff's inserts and the cache minus the removed posts, newest first; every inserted or cached item whose post is not removed survives; a too-old cache has its ranges cleared (sorted, at most two after the top-up); the watermark is the diff's newest id, the old watermark, or the newest id of a too-old cache |
| FeedSkeleton.GetFeedSkeleton | src/xrpc/feed.ts:66-202 | guest path returns the welcome post; `limit == 1` without cursor returns the newest row and skips the cache; every page has at most `limit` posts and a cursor iff it is non-empty; the page is cut from the distinct-cid, newest-first items written back, which come from the database or from the diff's inserts and the cache minus the removed posts; on a miss they are the de-duplicated sorted fetch of `limit + 1` rows and the ranges record it; on a hit every inserted or cached item the diff does not remove keeps its cid in them; written ranges stay sorted by start |
| FeedSkeleton.ServeFromDatabase | src/xrpc/feed.ts:112-125 | a miss with an empty fetch answers an empty feed and writes nothing; otherwise it writes the de-duplicated sorted fetch with sorted ranges and the newest operation id |
| FeedSkeleton.ServeFromCache | src/xrpc/feed.ts:126-198 | a hit always writes back: the new watermark; distinct-cid newest-first items, drawn from the database or from the inserts and cache minus the removed posts, in which every inserted or cached item the diff does not remove keeps its cid; ranges sorted when they were and at most two longer |
| FeedSkeleton.Respond | src/xrpc/feed.ts:180-195 | de-duplicates, cuts at most `limit` posts after the cursor, and emits a cursor exactly for a non-empty page |
| BookmarkTable.HttpStatus | src/api/bookmark.ts:119-179 | success codes (200, 201) exactly for created and deleted; 404 exactly for the two not-found answers |
| BookmarkTable.Upsert | src/api/bookmark.ts:135-144 | the row for `(sub, uri)` becomes active; an existing row keeps its repo, record key and cid; a new row holds the given ones; other rows are unchanged |
| BookmarkTable.MarkDeleted | src/api/bookmark.ts:172-178 | the `(sub, uri)` row is marked deleted and every other row is unchanged; no row is added or removed |
| BookmarkTable.FindBookmark | src/api/bookmark.ts:87-99 | a row is returned iff the bookmark is active, and it is that row |
| BookmarkTable.UpsertCount | src/api/bookmark.ts:113-144 | an upsert raises the user's row count by one exactly when the row is new; other users' counts stay |
| BookmarkTable.MarkDeletedCount | src/api/bookmark.ts:113-178 | soft deletion changes no user's row count |
| BookmarkTable.DeleteThenAddRestores | src/api/bookmark.ts:135-178 | deleting an active bookmark and adding it again restores the table exactly (apart from `updatedAt`, which is not modelled) |
| BookmarkTable.AddThenDeleteLeavesDeletedRow | src/api/bookmark.ts:135-178 | add then delete leaves the key present and deleted, with the stored (or given) record |
| ApiBookmark.PostBookmark | src/api/bookmark.ts:101-147 | more than 1000 rows gives 405, no record gives 404, an active bookmark gives 409, all without writes; otherwise the upsert and 201; the count ends at most one past the limit |
| ApiBookmark.DeleteBookmark | src/api/bookmark.ts:149-181 | no record or no active bookmark gives 404 without writes; otherwise exactly that row is soft-deleted (its `updatedAt` aside) and 200; counts never change |
| LegacyBookmark.Split | src/bookmark.ts:58 | `split('/')`: at least one piece, none holding the separator |
| LegacyBookmark.JoinSplit | src/bookmark.ts:58 | joining the pieces gives back the path |
| LegacyBookmark.SplitJoin | src/bookmark.ts:58 | splitting a join of separator-free pieces gives back the pieces |
| LegacyBookmark.Segment | src/bookmark.ts:58 | array destructuring: the element at the index, undefined past the end |
| LegacyBookmark.PostPathSegments | src/bookmark.ts:58-61 | `/profile/<handle>/post/<rkey>` passes the collection check with repo = handle and record key = rkey |
| LegacyBookmark.GetPostUriCid | src/bookmark.ts:30-51 | a stored row for the repo and record key supplies uri and cid; only when there is none does the remote answer count |
| LegacyBookmark.HandlePostBookmark | src/bookmark.ts:54-98 | a non-post path gives 400 before any lookup; a stored row for the repo and record key resolves to that row's uri and cid; no post gives 404; an active bookmark gives 409; a deleted one is reactivated and a missing one inserted, both 201 |
| LegacyBookmark.HandleDeleteBookmark | src/bookmark.ts:100-136 | a non-post path gives 400; a stored row for the repo and record key resolves to that row's uri and cid; no post gives 404; an active bookmark is soft-deleted with 200; otherwise 404 with no change |
| Pubkey.FindPubkey | src/pubkey.ts:7-14 | the key of the first `Multikey` method with a non-empty key; null iff no method qualifies |
| Pubkey.Lookup | src/pubkey.ts:32 | a store read: present iff the DID is stored, with its value |
| Pubkey.KeyStores.SavePubkey | src/pubkey.ts:16-23 | an empty DID or key changes nothing; otherwise both stores map the DID to the key; cache/store agreement is preserved |
| Pubkey.KeyStores.GetPubkey | src/pubkey.ts:25-37 | a non-empty cached key is returned with no writes; otherwise the store's value is returned and copied into the cache when non-empty; when cache and store agree, the result is the store's value |

## Left out

- HTTP plumbing (routing, middleware, JSON responses), JWT and DID authentication, registration and logging: they are transport, foreign crypto or side effects with no decision logic of the core.
- `BookmarkTable.Row`: the `updatedAt := DATETIME('now', 'localtime')` that every upsert and soft delete writes (src/api/bookmark.ts:142, :176, and src/bookmark.ts) is not modelled: it is the clock, and nothing in the core reads it.
- Query validation (src/middleware/validator.ts:10-11) is the handler's precondition: `1 <= limit <= 100` and the cursor already parsed.
- `fetchPubkey` and the remote record fetches are network calls. They are oracles passed in as parameters (`remote`, `record`).
- `getPostRecord` in src/api/bookmark.ts, including its Cache API layer: the routed handlers receive its answer as a parameter. Its table-then-remote lookup is the one modelled in `LegacyBookmark.GetPostUriCid`.
- The feed cache's storage (src/cache.ts) is not part of this model. On a miss the handler starts with watermark 0 and no intervals. Its `getFeedFromCache` (src/cache.ts:40-52) returns `{feed, opId}`, which does not match the `{feedItems, opId, range}` its caller at src/xrpc/feed.ts:105 expects.
- The fire-and-forget cache write and racing requests: the written cache entry is returned as a value.
- SQL dates: `createdAt` is an integer number of seconds, and operation-log milliseconds are divided by 1000 exactly (`/` on integers). Fractional, floating-point and very large (exponent notation) numbers are not modelled.
- Database failures and a rejection of `getOperationDiffs` other than "cache too old" are not modelled.
- `FeedSkeleton.GetFeedSkeleton`: on a cache hit the written items are stated to keep a cid for every inserted or cached item the diff does not remove, to be newest first with distinct cids, and to add only the user's rows; which database rows the top-up ladder fetches is not stated.
- `FeedSkeleton.GetFeedSkeleton`: the source keeps two cache entries per user, one for the latest page (no cursor) and one for historical pages (with a cursor), chosen by `!cursor` at src/xrpc/feed.ts:105 and :197. The model takes the one entry the caller passes in and returns the one to write back; which slot it belongs to is not modelled.
- `FeedSkeleton.FillFromDatabase`: states only that items are kept and sources are the user's rows, not the range-directed bounds of each fetch.
- `LegacyBookmark.HandlePostBookmark`: a path ending at `/post` has no record key. The source then inserts `undefined`; the model stores the empty string, and such a key matches no stored row in the lookup.
- `LegacyBookmark.GetPostUriCid`: when several rows share the repo and record key, the database returns one of them. The model picks some matching row rather than a particular one.
- `Pubkey.KeyStores.GetPubkey`: Cache API eviction is not modelled; the cache map only changes through these methods.
- The model follows the code where its behaviour is surprising:
  - the operation fold runs over the newest-first window, so an older delete cancels a newer add (src/xrpc/feed.ts:37-48);
  - a cursor is emitted for every non-empty page, full or not (src/xrpc/feed.ts:194-195);
  - an empty fetch records the sentinel `{start, start}` at the fetch's own start (src/xrpc/range.ts:19-20).
