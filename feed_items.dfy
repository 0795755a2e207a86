/**
 * The row projection the feed engine works on: a bookmark row as selected by
 * `fetchFeedItems` (rowid, post uri, content id, creation time in seconds).
 */
module FeedItems {

  datatype FeedItem = FeedItem(rowid: int, post: string, cid: string, createdAt: int)

  /** The `post` field of every item, in order (what the response's `feed` carries). */
  function Posts(items: seq<FeedItem>): (posts: seq<string>)
    ensures |posts| == |items|
    ensures forall k :: 0 <= k < |items| ==> posts[k] == items[k].post
  {
    if items == [] then [] else [items[0].post] + Posts(items[1..])
  }

  /** Key used by `newestFirst`. */
  function CreatedAt(item: FeedItem): int { item.createdAt }

  /** Key used by `ORDER BY rowid DESC`. */
  function RowId(item: FeedItem): int { item.rowid }
}
