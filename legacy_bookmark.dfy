/**
 * The earlier bookmark handlers of src/bookmark.ts. They take the repo,
 * collection and record key from the URL path, resolve the post through the
 * bookmarks table (by repo and record key) before asking the remote
 * repository, and add or soft-delete the `(sub, uri)` row. The remote answer
 * is an oracle passed in.
 */
module LegacyBookmark {
  import opened Wrappers
  import opened BookmarkTable

  // ---------------------------------------------------------------------
  // `pathname.split('/')`
  // ---------------------------------------------------------------------

  /** `s.split(sep)`: the pieces between separators, at least one. */
  function Split(s: string, sep: char): (parts: seq<string>)
    ensures |parts| >= 1
    ensures forall i :: 0 <= i < |parts| ==> sep !in parts[i]
  {
    if s == [] then [""]
    else
      var rest := Split(s[1..], sep);
      if s[0] == sep then [""] + rest
      else [[s[0]] + rest[0]] + rest[1..]
  }

  /** `parts.join(sep)`. */
  function Join(parts: seq<string>, sep: char): string
    requires |parts| >= 1
  {
    if |parts| == 1 then parts[0] else parts[0] + [sep] + Join(parts[1..], sep)
  }

  /** Splitting loses nothing: joining the pieces gives back the path. */
  lemma {:induction false} JoinSplit(s: string, sep: char)
    ensures Join(Split(s, sep), sep) == s
  {
    if s != [] {
      JoinSplit(s[1..], sep);
      var rest := Split(s[1..], sep);
      if s[0] == sep {
        assert s == [sep] + s[1..];
      } else {
        if |rest| == 1 {
          assert s == [s[0]] + rest[0];
        } else {
          assert rest == [rest[0]] + rest[1..];
          assert s == [s[0]] + (rest[0] + [sep] + Join(rest[1..], sep));
        }
      }
    }
  }

  /** Joining separator-free pieces and splitting again gives back the pieces. */
  lemma {:induction false} SplitJoin(parts: seq<string>, sep: char)
    requires |parts| >= 1
    requires forall i :: 0 <= i < |parts| ==> sep !in parts[i]
    ensures Split(Join(parts, sep), sep) == parts
  {
    if |parts| == 1 {
      SplitPiece(parts[0], sep);
    } else {
      SplitJoin(parts[1..], sep);
      SplitPrefixed(parts[0], Join(parts[1..], sep), sep);
      assert Join(parts, sep) == parts[0] + ([sep] + Join(parts[1..], sep));
      assert [parts[0]] + parts[1..] == parts;
    }
  }

  lemma {:induction false} SplitPiece(p: string, sep: char)
    requires sep !in p
    ensures Split(p, sep) == [p]
  {
    if p != [] {
      SplitPiece(p[1..], sep);
      assert [p[0]] + p[1..] == p;
    }
  }

  /** Splitting `p + sep + rest` where `p` holds no separator. */
  lemma {:induction false} SplitPrefixed(p: string, rest: string, sep: char)
    requires sep !in p
    ensures Split(p + ([sep] + rest), sep) == [p] + Split(rest, sep)
  {
    var s := p + ([sep] + rest);
    if p == [] {
      assert s == [sep] + rest;
      assert s[1..] == rest;
    } else {
      SplitPrefixed(p[1..], rest, sep);
      assert s[1..] == p[1..] + ([sep] + rest);
      assert [p[0]] + p[1..] == p;
    }
  }

  /** Array destructuring of the split path: `undefined` past the end. */
  function Segment(parts: seq<string>, i: nat): (part: Option<string>)
    ensures part.Some? <==> i < |parts|
    ensures part.Some? ==> part.value == parts[i]
  {
    if i < |parts| then Some(parts[i]) else None
  }

  // ---------------------------------------------------------------------
  // Resolving a post
  // ---------------------------------------------------------------------

  /** The post's at-uri and content id. */
  datatype PostRef = PostRef(uri: string, cid: string)

  /** A stored row for the repo and record key (a missing key matches no row). */
  ghost predicate StoredFor(rows: Rows, k: Key, repo: string, rkey: Option<string>) {
    k in rows && rows[k].repo == repo && rkey == Some(rows[k].rkey)
  }

  /**
   * `getPostUriCid`: the uri and cid of some bookmarks row for the repo and
   * record key; only when there is none, the remote repository's answer.
   */
  method GetPostUriCid(t: Table, repo: string, rkey: Option<string>, remote: Option<PostRef>)
    returns (found: Option<PostRef>)
    ensures (exists k :: StoredFor(t.rows, k, repo, rkey)) ==>
      && found.Some?
      && exists k :: StoredFor(t.rows, k, repo, rkey) && found.value == PostRef(k.uri, t.rows[k].cid)
    ensures (forall k :: !StoredFor(t.rows, k, repo, rkey)) ==> found == remote
  {
    if rkey.Some? && exists k :: k in t.rows && t.rows[k].repo == repo && t.rows[k].rkey == rkey.value {
      var k :| k in t.rows && t.rows[k].repo == repo && t.rows[k].rkey == rkey.value;
      assert StoredFor(t.rows, k, repo, rkey);
      found := Some(PostRef(k.uri, t.rows[k].cid));
    } else {
      found := remote;
    }
  }

  // ---------------------------------------------------------------------
  // The handlers
  // ---------------------------------------------------------------------

  /** The URL names a post: its fourth path segment is `post`. */
  predicate IsPostPath(path: string) {
    Segment(Split(path, '/'), 3) == Some("post")
  }

  /**
   * `handlePostBookmark`: reject a non-post path, resolve the post, then
   * reactivate a deleted row, refuse an active one, or insert a new row.
   */
  method HandlePostBookmark(t: Table, sub: string, path: string, remote: Option<PostRef>)
    returns (status: Status, resolved: Option<PostRef>)
    modifies t
    ensures !IsPostPath(path) ==> status == InvalidPostUrl && resolved.None? && t.rows == old(t.rows)
    ensures IsPostPath(path) ==>
      var parts := Split(path, '/');
      (exists k :: StoredFor(old(t.rows), k, parts[2], Segment(parts, 4))) ==>
        && resolved.Some?
        && exists k :: StoredFor(old(t.rows), k, parts[2], Segment(parts, 4)) && resolved.value == PostRef(k.uri, old(t.rows)[k].cid)
    ensures IsPostPath(path) && (forall k :: !StoredFor(old(t.rows), k, Split(path, '/')[2], Segment(Split(path, '/'), 4))) ==>
      resolved == remote
    ensures IsPostPath(path) && resolved.None? ==> status == PostNotFound && t.rows == old(t.rows)
    ensures resolved.Some? && Active(old(t.rows), Key(sub, resolved.value.uri)) ==>
      status == AlreadyBookmarked && t.rows == old(t.rows)
    ensures resolved.Some? && !Active(old(t.rows), Key(sub, resolved.value.uri)) ==>
      var parts := Split(path, '/');
      && status == Created
      && t.rows == Upsert(old(t.rows), Key(sub, resolved.value.uri), parts[2], Segment(parts, 4).GetOr(""), resolved.value.cid)
  {
    var parts := Split(path, '/');
    resolved := None;
    if Segment(parts, 3) != Some("post") {
      return InvalidPostUrl, None;
    }
    var repo, rkey := parts[2], Segment(parts, 4);
    resolved := GetPostUriCid(t, repo, rkey, remote);
    if resolved.None? {
      return PostNotFound, None;
    }
    var uri, cid := resolved.value.uri, resolved.value.cid;
    var key := Key(sub, uri);
    if key in t.rows {
      if t.rows[key].isDeleted {
        t.rows := t.rows[key := t.rows[key].(isDeleted := false)];
        return Created, resolved;
      }
      return AlreadyBookmarked, resolved;
    }
    t.rows := t.rows[key := Row(repo, rkey.GetOr(""), cid, false)];
    status := Created;
  }

  /** `handleDeleteBookmark`: reject a non-post path, resolve the post, soft-delete an active row. */
  method HandleDeleteBookmark(t: Table, sub: string, path: string, remote: Option<PostRef>)
    returns (status: Status, resolved: Option<PostRef>)
    modifies t
    ensures !IsPostPath(path) ==> status == InvalidPostUrl && resolved.None? && t.rows == old(t.rows)
    ensures IsPostPath(path) ==>
      var parts := Split(path, '/');
      (exists k :: StoredFor(old(t.rows), k, parts[2], Segment(parts, 4))) ==>
        && resolved.Some?
        && exists k :: StoredFor(old(t.rows), k, parts[2], Segment(parts, 4)) && resolved.value == PostRef(k.uri, old(t.rows)[k].cid)
    ensures IsPostPath(path) && (forall k :: !StoredFor(old(t.rows), k, Split(path, '/')[2], Segment(Split(path, '/'), 4))) ==>
      resolved == remote
    ensures IsPostPath(path) && resolved.None? ==> status == PostNotFound && t.rows == old(t.rows)
    ensures resolved.Some? && Active(old(t.rows), Key(sub, resolved.value.uri)) ==>
      status == Deleted && t.rows == MarkDeleted(old(t.rows), Key(sub, resolved.value.uri))
    ensures resolved.Some? && !Active(old(t.rows), Key(sub, resolved.value.uri)) ==>
      status == BookmarkNotFound && t.rows == old(t.rows)
  {
    var parts := Split(path, '/');
    resolved := None;
    if Segment(parts, 3) != Some("post") {
      return InvalidPostUrl, None;
    }
    resolved := GetPostUriCid(t, parts[2], Segment(parts, 4), remote);
    if resolved.None? {
      return PostNotFound, None;
    }
    var key := Key(sub, resolved.value.uri);
    if key in t.rows && !t.rows[key].isDeleted {
      t.rows := t.rows[key := t.rows[key].(isDeleted := true)];
      return Deleted, resolved;
    }
    status := BookmarkNotFound;
  }

  /** The path of a post URL is recognised, and its repo and record key are the named segments. */
  lemma PostPathSegments(handle: string, rkey: string)
    requires '/' !in handle && '/' !in rkey
    ensures var path := "/profile/" + handle + "/post/" + rkey;
      && IsPostPath(path)
      && Split(path, '/')[2] == handle
      && Segment(Split(path, '/'), 4) == Some(rkey)
  {
    var parts := ["", "profile", handle, "post", rkey];
    forall i | 0 <= i < |parts| ensures '/' !in parts[i] {}
    SplitJoin(parts, '/');
    assert Join(parts[4..], '/') == rkey;
    assert Join(parts[3..], '/') == "post/" + rkey by { assert parts[3..][1..] == parts[4..]; }
    assert Join(parts[2..], '/') == handle + "/post/" + rkey by { assert parts[2..][1..] == parts[3..]; }
    assert Join(parts[1..], '/') == "profile/" + handle + "/post/" + rkey by { assert parts[1..][1..] == parts[2..]; }
    assert Join(parts, '/') == "/profile/" + handle + "/post/" + rkey;
  }
}
