/**
 * The records that cross the core: decoded firehose operations on posts, the
 * `post` row, and the `post` table as a map keyed by its unique `uri` column.
 * The table operations are the two SQL statements the core issues:
 * `DELETE ... WHERE uri IN (...)` and `INSERT ... ON CONFLICT DO NOTHING`.
 */
module Posts {
  import opened Wrappers

  type Uri = string

  /** The `reply` of a post record: the URIs of the parent and of the thread root. */
  datatype ReplyRef = ReplyRef(parent: Uri, root: Uri)

  /** The part of an `app.bsky.feed.post` record the core reads. */
  datatype PostRecord = PostRecord(text: string, reply: Option<ReplyRef>)

  /** A decoded create operation on a post. */
  datatype CreateOp = CreateOp(uri: Uri, cid: string, author: string, record: PostRecord)

  /** A decoded delete operation on a post. */
  datatype DeleteOp = DeleteOp(uri: Uri)

  /** A row of the `post` table; `indexedAt` is a timestamp in milliseconds since the epoch. */
  datatype Post = Post(
    uri: Uri,
    cid: string,
    feed: string,
    replyParent: Option<Uri>,
    replyRoot: Option<Uri>,
    indexedAt: int
  )

  /** The `post` table: at most one row per `uri`, the primary key. */
  type Table = map<Uri, Post>

  /** Every row is stored under its own `uri`. */
  predicate WellKeyed(t: Table)
  {
    forall u | u in t :: t[u].uri == u
  }

  /** Two tables with the same row under every key are the same table. */
  lemma TableExtensionality(a: Table, b: Table)
    requires forall u :: Get(a, u) == Get(b, u)
    ensures a == b
  {
    assert a.Keys == b.Keys by {
      forall u ensures u in a <==> u in b {
        assert Get(a, u).Some? == Get(b, u).Some?;
      }
    }
    forall u | u in a ensures a[u] == b[u] {
      assert Get(a, u) == Get(b, u);
    }
  }

  /** `DELETE FROM post WHERE uri IN uris`. */
  function DeleteWhereUriIn(t: Table, uris: seq<Uri>): (r: Table)
    ensures forall u :: Get(r, u) == if u in uris then None else Get(t, u)
  {
    map u | u in t && u !in uris :: t[u]
  }

  /** `INSERT INTO post VALUES (p) ON CONFLICT DO NOTHING`: first write wins. */
  function InsertIfAbsent(t: Table, p: Post): (r: Table)
    ensures forall u :: Get(r, u) == (if u in t then Get(t, u) else if u == p.uri then Some(p) else None)
  {
    if p.uri in t then t else t[p.uri := p]
  }

  /** The first row of `ps` whose `uri` is `u`. */
  function FirstWithUri(ps: seq<Post>, u: Uri): (r: Option<Post>)
    ensures r.Some? ==> r.value in ps && r.value.uri == u
    ensures r.None? ==> forall i | 0 <= i < |ps| :: ps[i].uri != u
  {
    if |ps| == 0 then None
    else if ps[0].uri == u then Some(ps[0])
    else FirstWithUri(ps[1..], u)
  }

  /** The row `FirstWithUri` finds comes before every other row of `ps` with that `uri`. */
  lemma {:induction false} FirstWithUriIsFirst(ps: seq<Post>, u: Uri)
    requires FirstWithUri(ps, u).Some?
    ensures exists i | 0 <= i < |ps| ::
      ps[i] == FirstWithUri(ps, u).value && forall j | 0 <= j < i :: ps[j].uri != u
  {
    if ps[0].uri != u {
      var tail := ps[1..];
      FirstWithUriIsFirst(tail, u);
      var i :| 0 <= i < |tail| && tail[i] == FirstWithUri(tail, u).value && forall j | 0 <= j < i :: tail[j].uri != u;
      assert ps[i + 1] == tail[i];
      forall j | 0 <= j < i + 1 ensures ps[j].uri != u {
        if j > 0 {
          assert ps[j] == tail[j - 1];
        }
      }
    }
  }

  /**
   * A multi-row `INSERT ... ON CONFLICT DO NOTHING`: rows are inserted in
   * order, so a row already in the table and the first of several rows with
   * one `uri` win.
   */
  function InsertAllIfAbsent(t: Table, ps: seq<Post>): (r: Table)
    ensures forall u :: Get(r, u) == if u in t then Get(t, u) else FirstWithUri(ps, u)
    decreases |ps|
  {
    if |ps| == 0 then t else InsertAllIfAbsent(InsertIfAbsent(t, ps[0]), ps[1..])
  }

  /** Both statements keep every row under its own key. */
  lemma WellKeyedPreserved(t: Table, uris: seq<Uri>, ps: seq<Post>)
    requires WellKeyed(t)
    ensures WellKeyed(DeleteWhereUriIn(t, uris))
    ensures WellKeyed(InsertAllIfAbsent(t, ps))
  {
    var r := InsertAllIfAbsent(t, ps);
    forall u | u in r ensures r[u].uri == u {
      assert Get(r, u).Some?;
    }
  }
}
