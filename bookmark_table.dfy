/**
 * The bookmarks table the add/delete endpoints work on: one row per
 * `(sub, uri)` pair (the table's primary key) carrying the post's repo,
 * record key and content id, and a soft-delete flag. A bookmark is active
 * when its row exists and is not marked deleted.
 */
module BookmarkTable {
  import opened Wrappers

  datatype Key = Key(sub: string, uri: string)

  datatype Row = Row(repo: string, rkey: string, cid: string, isDeleted: bool)

  type Rows = map<Key, Row>

  /** What the endpoints answer, each with its HTTP status code. */
  datatype Status =
    | Created            // 201
    | Deleted            // 200
    | InvalidPostUrl     // 400
    | PostNotFound       // 404
    | BookmarkNotFound   // 404
    | AlreadyBookmarked  // 409
    | LimitReached       // 405

  function HttpStatus(status: Status): (code: int)
    ensures 200 <= code <= 201 <==> status == Created || status == Deleted
    ensures code == 404 <==> status == PostNotFound || status == BookmarkNotFound
    ensures 400 <= code < 500 <==> !(status == Created || status == Deleted)
  {
    match status
    case Created => 201
    case Deleted => 200
    case InvalidPostUrl => 400
    case PostNotFound => 404
    case BookmarkNotFound => 404
    case AlreadyBookmarked => 409
    case LimitReached => 405
  }

  /** A row for the key exists and is not marked deleted. */
  predicate Active(rows: Rows, key: Key) {
    key in rows && !rows[key].isDeleted
  }

  /** The user's rows, deleted ones included. */
  function KeysOf(rows: Rows, sub: string): set<Key> {
    set k | k in rows && k.sub == sub
  }

  /** `select count() from bookmarks where sub = ?`. */
  function Count(rows: Rows, sub: string): nat {
    |KeysOf(rows, sub)|
  }

  /**
   * `insert ... on conflict (uri, sub) do update set isDeleted = false`: a
   * new active row, or the existing row reactivated with its repo, record
   * key and cid kept.
   */
  function Upsert(rows: Rows, key: Key, repo: string, rkey: string, cid: string): (r: Rows)
    ensures Active(r, key)
    ensures r.Keys == rows.Keys + {key}
    ensures key in rows ==> r[key] == rows[key].(isDeleted := false)
    ensures key !in rows ==> r[key] == Row(repo, rkey, cid, false)
    ensures forall k :: k in rows && k != key ==> r[k] == rows[k]
  {
    if key in rows then rows[key := rows[key].(isDeleted := false)]
    else rows[key := Row(repo, rkey, cid, false)]
  }

  /** `update bookmarks set isDeleted = true where uri = ? and sub = ?`. */
  function MarkDeleted(rows: Rows, key: Key): (r: Rows)
    ensures r.Keys == rows.Keys
    ensures !Active(r, key)
    ensures key in rows ==> r[key] == rows[key].(isDeleted := true)
    ensures forall k :: k in rows && k != key ==> r[k] == rows[k]
  {
    if key in rows then rows[key := rows[key].(isDeleted := true)] else rows
  }

  /** The active row for `(sub, uri)`, if any. */
  function FindBookmark(rows: Rows, sub: string, uri: string): (found: Option<Row>)
    ensures found.Some? <==> Active(rows, Key(sub, uri))
    ensures found.Some? ==> found.value == rows[Key(sub, uri)] && !found.value.isDeleted
  {
    var key := Key(sub, uri);
    if key in rows && !rows[key].isDeleted then Some(rows[key]) else None
  }

  /** An upsert adds a row to the user's count exactly when the key was new; other users' counts stay. */
  lemma UpsertCount(rows: Rows, key: Key, repo: string, rkey: string, cid: string, sub: string)
    ensures var r := Upsert(rows, key, repo, rkey, cid);
      Count(r, sub) == Count(rows, sub) + (if key !in rows && key.sub == sub then 1 else 0)
  {
    var r := Upsert(rows, key, repo, rkey, cid);
    if key !in rows && key.sub == sub {
      CountOfNewKey(rows, r, key);
    } else {
      CountByDomain(rows, r, key, sub);
    }
  }

  /** Counts depend only on which keys are present. */
  lemma CountByDomain(a: Rows, b: Rows, key: Key, sub: string)
    requires b.Keys == a.Keys + {key}
    requires key in a || key.sub != sub
    ensures Count(b, sub) == Count(a, sub)
  {
    assert KeysOf(b, sub) == KeysOf(a, sub);
  }

  lemma CountOfNewKey(a: Rows, b: Rows, key: Key)
    requires b.Keys == a.Keys + {key} && key !in a
    ensures Count(b, key.sub) == Count(a, key.sub) + 1
  {
    assert KeysOf(b, key.sub) == KeysOf(a, key.sub) + {key};
  }

  /** Soft deletion never changes anyone's count. */
  lemma MarkDeletedCount(rows: Rows, key: Key, sub: string)
    ensures Count(MarkDeleted(rows, key), sub) == Count(rows, sub)
  {
    assert KeysOf(MarkDeleted(rows, key), sub) == KeysOf(rows, sub);
  }

  /** Deleting an active bookmark and adding it back restores the table exactly, whatever record the re-add carries. */
  lemma DeleteThenAddRestores(rows: Rows, key: Key, repo: string, rkey: string, cid: string)
    requires Active(rows, key)
    ensures Upsert(MarkDeleted(rows, key), key, repo, rkey, cid) == rows
  {
    var r := Upsert(MarkDeleted(rows, key), key, repo, rkey, cid);
    assert r.Keys == rows.Keys;
    assert r[key] == rows[key];
  }

  /** Adding a bookmark and deleting it leaves a deleted row holding the stored record. */
  lemma AddThenDeleteLeavesDeletedRow(rows: Rows, key: Key, repo: string, rkey: string, cid: string)
    ensures var r := MarkDeleted(Upsert(rows, key, repo, rkey, cid), key);
      && key in r && r[key].isDeleted
      && (key in rows ==> r[key] == rows[key].(isDeleted := true))
      && (key !in rows ==> r[key] == Row(repo, rkey, cid, true))
      && forall k :: k in rows && k != key ==> k in r && r[k] == rows[k]
  {
  }

  /** The bookmarks table, updated in place by the endpoints. */
  class Table {
    var rows: Rows

    constructor (initial: Rows)
      ensures rows == initial
    {
      rows := initial;
    }
  }
}
