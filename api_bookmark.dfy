/**
 * The routed bookmark endpoints of src/api/bookmark.ts: add (POST) and
 * delete (DELETE) of the post named by a URL, for the signed-in user `sub`.
 * Resolving the URL to a post record (a Cache API entry, the bookmarks table
 * by repo and record key, or the remote repository) is an oracle: the
 * handlers receive its answer.
 */
module ApiBookmark {
  import opened Wrappers
  import opened BookmarkTable

  /** The resolved post: its at-uri, content id, repository and record key. */
  datatype PostRecord = PostRecord(uri: string, cid: string, repo: string, rkey: string)

  /** A user holding more rows than this may only delete. */
  const BookmarkLimit: nat := 1000

  /** Add a bookmark: limit check, post lookup, duplicate check, then upsert. */
  method PostBookmark(t: Table, sub: string, record: Option<PostRecord>) returns (status: Status)
    modifies t
    ensures Count(old(t.rows), sub) > BookmarkLimit ==> status == LimitReached && t.rows == old(t.rows)
    ensures Count(old(t.rows), sub) <= BookmarkLimit && record.None? ==>
      status == PostNotFound && t.rows == old(t.rows)
    ensures Count(old(t.rows), sub) <= BookmarkLimit && record.Some? && Active(old(t.rows), Key(sub, record.value.uri)) ==>
      status == AlreadyBookmarked && t.rows == old(t.rows)
    ensures Count(old(t.rows), sub) <= BookmarkLimit && record.Some? && !Active(old(t.rows), Key(sub, record.value.uri)) ==>
      && status == Created
      && t.rows == Upsert(old(t.rows), Key(sub, record.value.uri), record.value.repo, record.value.rkey, record.value.cid)
    ensures status == Created ==> record.Some? && Active(t.rows, Key(sub, record.value.uri))
    // the limit is soft: an add may reach one past it, never more
    ensures Count(t.rows, sub) <= if Count(old(t.rows), sub) > BookmarkLimit then Count(old(t.rows), sub) else BookmarkLimit + 1
    ensures forall u :: u != sub ==> Count(t.rows, u) == Count(old(t.rows), u)
  {
    if Count(t.rows, sub) > BookmarkLimit {
      return LimitReached;
    }
    if record.None? {
      return PostNotFound;
    }
    var r := record.value;
    if FindBookmark(t.rows, sub, r.uri).Some? {
      return AlreadyBookmarked;
    }
    forall u | true ensures Count(Upsert(t.rows, Key(sub, r.uri), r.repo, r.rkey, r.cid), u) == Count(t.rows, u)
      + (if Key(sub, r.uri) !in t.rows && sub == u then 1 else 0)
    {
      UpsertCount(t.rows, Key(sub, r.uri), r.repo, r.rkey, r.cid, u);
    }
    t.rows := Upsert(t.rows, Key(sub, r.uri), r.repo, r.rkey, r.cid);
    status := Created;
  }

  /** Delete a bookmark: post lookup, active-row check, then soft delete of that one row. */
  method DeleteBookmark(t: Table, sub: string, record: Option<PostRecord>) returns (status: Status)
    modifies t
    ensures record.None? ==> status == PostNotFound && t.rows == old(t.rows)
    ensures record.Some? && !Active(old(t.rows), Key(sub, record.value.uri)) ==>
      status == BookmarkNotFound && t.rows == old(t.rows)
    ensures record.Some? && Active(old(t.rows), Key(sub, record.value.uri)) ==>
      status == Deleted && t.rows == MarkDeleted(old(t.rows), Key(sub, record.value.uri))
    ensures t.rows.Keys == old(t.rows).Keys
    ensures forall u :: Count(t.rows, u) == Count(old(t.rows), u)
  {
    if record.None? {
      return PostNotFound;
    }
    var uri := record.value.uri;
    if FindBookmark(t.rows, sub, uri).None? {
      return BookmarkNotFound;
    }
    forall u | true ensures Count(MarkDeleted(t.rows, Key(sub, uri)), u) == Count(t.rows, u) {
      MarkDeletedCount(t.rows, Key(sub, uri), u);
    }
    t.rows := MarkDeleted(t.rows, Key(sub, uri));
    status := Deleted;
  }
}
