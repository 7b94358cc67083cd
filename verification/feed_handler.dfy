/**
 * The feed's `handler`: cursor-paginated retrieval from the `post` table in
 * the order `indexedAt desc, cid desc`.
 */
module FeedHandler {
  import opened Wrappers
  import opened JsText
  import opened JsNumber
  import opened Posts
  import opened AlphabeticalWords

  /** The largest magnitude of a valid JavaScript Date time value: 8.64e15 ms. */
  const MaxTimeValue: int := 8_640_000_000_000_000

  /** The separator between the two parts of a cursor. */
  const CursorSeparator: string := "::"

  /** How a request fails. */
  datatype HandlerError =
    | MalformedCursor   // the `InvalidRequestError('malformed cursor')` the handler throws
    | InvalidTimeValue  // the `RangeError` that `toISOString` throws on an invalid Date

  /** A position in the feed order, decoded from a cursor. */
  datatype Position = Position(indexedAt: int, cid: string)

  /** One entry of the returned skeleton: `{ post: row.uri }`. */
  datatype FeedItem = FeedItem(post: Uri)

  /** The handler's response: an optional next cursor and the page of post URIs. */
  datatype Skeleton = Skeleton(cursor: Option<string>, feed: seq<FeedItem>)

  // ---------------------------------------------------------------------------
  // Cursors
  // ---------------------------------------------------------------------------

  /**
   * Decodes `params.cursor`. An absent or empty cursor selects the start of
   * the feed. Otherwise the text is split on `::`; an empty or missing first
   * or second part is a malformed cursor; a first part `parseInt` cannot read,
   * or one outside the Date range, makes `new Date(...).toISOString()` throw.
   */
  function ParseCursor(cursor: Option<string>): (r: Result<Option<Position>, HandlerError>)
    ensures (cursor.None? || cursor.value == "") ==> r == Ok(None)
    ensures r.Ok? && r.value.Some? ==>
      && -MaxTimeValue <= r.value.value.indexedAt <= MaxTimeValue
      && |r.value.value.cid| > 0
      && Free(r.value.value.cid, CursorSeparator)
  {
    if cursor.None? || cursor.value == "" then Ok(None)
    else
      var parts := Split(cursor.value, CursorSeparator);
      var indexedAt := parts[0];
      if indexedAt == "" || |parts| < 2 || parts[1] == "" then Err(MalformedCursor)
      else
        SplitPiecesFree(cursor.value, CursorSeparator);
        match ParseInt(indexedAt)
        case None => Err(InvalidTimeValue)
        case Some(time) =>
          if -MaxTimeValue <= time <= MaxTimeValue then Ok(Some(Position(time, parts[1])))
          else Err(InvalidTimeValue)
  }

  /**
   * The cursor that points just past `p`: `${indexedAt in ms}::${cid}`. The
   * rendered time holds no `:`, so splitting the cursor on `::` gives that
   * time and then the pieces of the `cid`.
   */
  function RenderCursor(p: Post): (c: string)
    ensures Split(c, CursorSeparator) == [ToDecimal(p.indexedAt)] + Split(p.cid, CursorSeparator)
  {
    SplitAfterColonFree(ToDecimal(p.indexedAt), p.cid);
    ToDecimal(p.indexedAt) + CursorSeparator + p.cid
  }

  /**
   * A non-empty cursor is malformed exactly when it has no `::`, starts with
   * `::`, or has nothing but another `::` (or nothing at all) after its first `::`.
   */
  lemma MalformedCursorIff(c: string)
    requires c != ""
    ensures ParseCursor(Some(c)) == Err(MalformedCursor) <==>
      match IndexOf(c, CursorSeparator)
      case None => true
      case Some(i) =>
        var rest := c[i + |CursorSeparator|..];
        i == 0 || rest == "" || OccursAt(rest, CursorSeparator, 0)
  {
    match IndexOf(c, CursorSeparator)
    case None =>
    case Some(i) =>
      var rest := c[i + |CursorSeparator|..];
      assert Split(c, CursorSeparator) == [c[..i]] + Split(rest, CursorSeparator);
      if OccursAt(rest, CursorSeparator, 0) {
        IndexOfLeftmost(rest, CursorSeparator, 0);
      }
  }

  /** Text free of `:` followed by `::` is split right after that text. */
  lemma SplitAfterColonFree(d: string, rest: string)
    requires ':' !in d
    ensures Split(d + CursorSeparator + rest, CursorSeparator) == [d] + Split(rest, CursorSeparator)
  {
    var s := d + CursorSeparator + rest;
    var n := |d|;
    assert s[n..n + 2] == CursorSeparator;
    forall j | 0 <= j < n ensures !OccursAt(s, CursorSeparator, j) {
      assert s[j] == d[j];
      if j + 2 <= |s| {
        assert s[j..j + 2][0] == s[j];
      }
    }
    SplitAtFirst(s, CursorSeparator, n);
    assert s[..n] == d;
    assert s[n + 2..] == rest;
  }

  /**
   * The cursor of a row decodes to that row's position, provided the row's
   * time is a valid Date and its `cid` is non-empty and free of `::`.
   */
  lemma CursorRoundTrip(p: Post)
    requires -MaxTimeValue <= p.indexedAt <= MaxTimeValue
    requires p.cid != "" && Free(p.cid, CursorSeparator)
    ensures ParseCursor(Some(RenderCursor(p))) == Ok(Some(Position(p.indexedAt, p.cid)))
  {
    var d := ToDecimal(p.indexedAt);
    SplitAfterColonFree(d, p.cid);
    SplitSingleIff(p.cid, CursorSeparator);
    var parts := Split(RenderCursor(p), CursorSeparator);
    assert parts == [d, p.cid];
    DecodesToRenderedTime(RenderCursor(p), p.indexedAt, p.cid);
  }

  /**
   * A cursor whose first two `::`-separated parts are a rendered in-range
   * time and a non-empty `cid` decodes to that position.
   */
  lemma DecodesToRenderedTime(cursor: string, time: int, cid: string)
    requires -MaxTimeValue <= time <= MaxTimeValue && cid != ""
    requires |Split(cursor, CursorSeparator)| >= 2
    requires Split(cursor, CursorSeparator)[0] == ToDecimal(time)
    requires Split(cursor, CursorSeparator)[1] == cid
    ensures ParseCursor(Some(cursor)) == Ok(Some(Position(time, cid)))
  {
    var parts := Split(cursor, CursorSeparator);
    var d := parts[0];
    assert d == ToDecimal(time) && d != "";
    assert !(d == "" || |parts| < 2 || parts[1] == "");
    ParseIntToDecimal(time);
    assert ParseInt(d) == Some(time);
  }


  // ---------------------------------------------------------------------------
  // Row selection and order
  // ---------------------------------------------------------------------------

  /**
   * The WHERE clause. Without a cursor: `feed = shortname`. With one, the
   * chained `where / orWhere / where` reads under SQL precedence as
   * `(feed = shortname AND indexedAt < t) OR (indexedAt = t AND cid < c)`:
   * the feed test does not guard the tie-breaking disjunct, so a row of
   * another feed gets through only with a cursor whose time it ties.
   */
  predicate RowSelected(row: Post, pos: Option<Position>)
    ensures RowSelected(row, pos) && row.feed != Shortname ==>
      pos.Some? && row.indexedAt == pos.value.indexedAt
  {
    match pos
    case None => row.feed == Shortname
    case Some(Position(time, cid)) =>
      || (row.feed == Shortname && row.indexedAt < time)
      || (row.indexedAt == time && Below(row.cid, cid))
  }

  /** `a` comes strictly before `b` in `ORDER BY indexedAt DESC, cid DESC`. */
  predicate Ahead(a: Post, b: Post)
  {
    After(b, PositionOf(a))
  }

  /** `b` does not come strictly before `a`. */
  predicate NotBehind(a: Post, b: Post)
  {
    !Ahead(b, a)
  }

  lemma NotBehindTotal(a: Post, b: Post)
    ensures NotBehind(a, b) || NotBehind(b, a)
  {
    if Ahead(a, b) && a.indexedAt == b.indexedAt {
      BelowAsymmetric(b.cid, a.cid);
    }
  }

  lemma NotBehindTransitive(a: Post, b: Post, c: Post)
    requires NotBehind(a, b) && NotBehind(b, c)
    ensures NotBehind(a, c)
  {
    if a.indexedAt == b.indexedAt && b.indexedAt == c.indexedAt {
      LeTransitive(c.cid, b.cid, a.cid);
    }
  }

  /** The keys of the rows the WHERE clause selects. */
  function Matching(t: Table, pos: Option<Position>): (s: set<Uri>)
    ensures forall u :: u in s <==> u in t && RowSelected(t[u], pos)
  {
    set u | u in t && RowSelected(t[u], pos)
  }

  /** No key repeats. */
  predicate Distinct(keys: seq<Uri>)
  {
    forall i, j | 0 <= i < j < |keys| :: keys[i] != keys[j]
  }

  /** The rows under `keys` follow the feed order. */
  predicate InFeedOrder(t: Table, keys: seq<Uri>)
    requires forall i | 0 <= i < |keys| :: keys[i] in t
  {
    forall i, j | 0 <= i < j < |keys| :: NotBehind(t[keys[i]], t[keys[j]])
  }

  /**
   * `keys` is a correct answer to the query with `.limit(limit)`: distinct
   * selected rows, in feed order, as many as the limit and the table allow,
   * and no selected row left out comes before one that was returned. Rows
   * tying on both `indexedAt` and `cid` may come in either order, as in SQL.
   */
  predicate IsPage(t: Table, pos: Option<Position>, limit: nat, keys: seq<Uri>)
    ensures IsPage(t, pos, limit, keys) ==> |keys| <= limit
    ensures IsPage(t, pos, limit, keys) ==> forall i | 0 <= i < |keys| :: keys[i] in t
    ensures IsPage(t, pos, limit, keys) && limit > 0 && |Matching(t, pos)| > 0 ==> |keys| > 0
  {
    var m := Matching(t, pos);
    && (forall i | 0 <= i < |keys| :: keys[i] in m)
    && Distinct(keys)
    && InFeedOrder(t, keys)
    && |keys| == (if limit < |m| then limit else |m|)
    && (forall u, i | u in m && u !in keys && 0 <= i < |keys| :: NotBehind(t[keys[i]], t[u]))
  }

  /** Every non-empty set of rows has a row that no other row comes before. */
  lemma {:induction false} FirstRowExists(t: Table, s: set<Uri>)
    requires s != {} && s <= t.Keys
    ensures exists m :: m in s && forall u | u in s :: NotBehind(t[m], t[u])
    decreases |s|
  {
    var x :| x in s;
    var rest := s - {x};
    if rest == {} {
      assert s == {x};
      assert forall u | u in s :: NotBehind(t[x], t[u]) by {
        forall u | u in s ensures NotBehind(t[x], t[u]) {
          assert u == x;
          BelowIrreflexive(t[x].cid);
        }
      }
    } else {
      FirstRowExists(t, rest);
      var m :| m in rest && forall u | u in rest :: NotBehind(t[m], t[u]);
      NotBehindTotal(t[m], t[x]);
      if NotBehind(t[m], t[x]) {
        assert forall u | u in s :: NotBehind(t[m], t[u]);
      } else {
        forall u | u in s ensures NotBehind(t[x], t[u]) {
          if u == x {
            BelowIrreflexive(t[x].cid);
          } else {
            NotBehindTransitive(t[x], t[m], t[u]);
          }
        }
      }
    }
  }

  /**
   * The state of the query part way: `keys` are the first rows of `m` in feed
   * order, and `remaining` the rows of `m` not taken yet, none of them before
   * a taken one.
   */
  predicate PageSoFar(t: Table, m: set<Uri>, remaining: set<Uri>, keys: seq<Uri>)
  {
    && m <= t.Keys
    && remaining <= m
    && |keys| + |remaining| == |m|
    && (forall i | 0 <= i < |keys| :: keys[i] in m && keys[i] !in remaining)
    && (forall u | u in m && u !in remaining :: u in keys)
    && Distinct(keys)
    && InFeedOrder(t, keys)
    && (forall u, i | u in remaining && 0 <= i < |keys| :: NotBehind(t[keys[i]], t[u]))
  }

  /** Taking a first remaining row keeps the query's state consistent. */
  lemma PageSoFarStep(t: Table, m: set<Uri>, remaining: set<Uri>, keys: seq<Uri>, first: Uri)
    requires PageSoFar(t, m, remaining, keys)
    requires first in remaining && forall u | u in remaining :: NotBehind(t[first], t[u])
    ensures PageSoFar(t, m, remaining - {first}, keys + [first])
  {
  }

  /** Once the limit is reached or no row remains, the rows taken are the page. */
  lemma PageSoFarDone(t: Table, pos: Option<Position>, limit: nat, remaining: set<Uri>, keys: seq<Uri>)
    requires PageSoFar(t, Matching(t, pos), remaining, keys)
    requires |keys| <= limit && (|keys| == limit || remaining == {})
    ensures IsPage(t, pos, limit, keys)
  {
  }

  /** The query: select, order and limit, one first row at a time. */
  method SelectPage(t: Table, pos: Option<Position>, limit: nat) returns (keys: seq<Uri>)
    ensures IsPage(t, pos, limit, keys)
  {
    var m := Matching(t, pos);
    var remaining := m;
    keys := [];
    while |keys| < limit && remaining != {}
      invariant |keys| <= limit
      invariant PageSoFar(t, m, remaining, keys)
      decreases remaining
    {
      FirstRowExists(t, remaining);
      var first :| first in remaining && forall u | u in remaining :: NotBehind(t[first], t[u]);
      PageSoFarStep(t, m, remaining, keys, first);
      keys := keys + [first];
      remaining := remaining - {first};
    }
    PageSoFarDone(t, pos, limit, remaining, keys);
  }

  /** The response for the selected rows: each row's `uri`, and the cursor of the last row. */
  function Respond(t: Table, keys: seq<Uri>): (s: Skeleton)
    requires forall i | 0 <= i < |keys| :: keys[i] in t
    ensures |s.feed| == |keys|
    ensures forall i | 0 <= i < |keys| :: s.feed[i].post == t[keys[i]].uri
    ensures s.cursor.None? <==> |keys| == 0
    ensures |keys| > 0 ==> s.cursor == Some(RenderCursor(t[keys[|keys| - 1]]))
  {
    Skeleton(
      if |keys| == 0 then None else Some(RenderCursor(t[keys[|keys| - 1]])),
      seq(|keys|, i requires 0 <= i < |keys| => FeedItem(t[keys[i]].uri))
    )
  }

  /** The URIs of a skeleton's entries. */
  function PostsOf(s: Skeleton): (keys: seq<Uri>)
    ensures |keys| == |s.feed|
    ensures forall i | 0 <= i < |keys| :: keys[i] == s.feed[i].post
  {
    seq(|s.feed|, i requires 0 <= i < |s.feed| => s.feed[i].post)
  }

  /** In a table keyed by `uri`, the skeleton built for some rows lists exactly those rows. */
  lemma RespondListsKeys(t: Table, keys: seq<Uri>)
    requires WellKeyed(t)
    requires forall i | 0 <= i < |keys| :: keys[i] in t
    ensures PostsOf(Respond(t, keys)) == keys
  {
  }

  /**
   * `handler`: fails exactly as the cursor decoding does; otherwise returns at
   * most `limit` selected rows in feed order, and the cursor of the last one
   * (none when the page is empty). The table holds each row under its `uri`,
   * the column the `post` table is keyed by.
   */
  method Handler(t: Table, limit: nat, cursor: Option<string>) returns (r: Result<Skeleton, HandlerError>)
    requires WellKeyed(t)
    ensures r.Err? <==> ParseCursor(cursor).Err?
    ensures r.Err? ==> r.error == ParseCursor(cursor).error
    ensures r.Ok? ==> |r.value.feed| <= limit
    ensures r.Ok? ==> IsPage(t, ParseCursor(cursor).value, limit, PostsOf(r.value))
    ensures r.Ok? ==> (r.value.cursor.None? <==> |r.value.feed| == 0)
    ensures r.Ok? && |r.value.feed| > 0 ==>
      var last := r.value.feed[|r.value.feed| - 1].post;
      last in t && r.value.cursor == Some(RenderCursor(t[last]))
  {
    var parsed := ParseCursor(cursor);
    if parsed.Err? {
      return Err(parsed.error);
    }
    var keys := SelectPage(t, parsed.value, limit);
    var skeleton := Respond(t, keys);
    RespondListsKeys(t, keys);
    r := Ok(skeleton);
  }

  // ---------------------------------------------------------------------------
  // Continuing from a cursor
  // ---------------------------------------------------------------------------

  /** No two rows share both `indexedAt` and `cid`. */
  predicate DistinctPositions(t: Table)
  {
    forall u, v | u in t && v in t && u != v ::
      t[u].indexedAt != t[v].indexedAt || t[u].cid != t[v].cid
  }

  /** Every row has an in-range time and a non-empty `cid` free of `::`, so its cursor can decode. */
  predicate CursorsDecodable(t: Table)
  {
    forall u | u in t ::
      -MaxTimeValue <= t[u].indexedAt <= MaxTimeValue && t[u].cid != "" && Free(t[u].cid, CursorSeparator)
  }

  /** The position a row's cursor encodes. */
  function PositionOf(p: Post): (pos: Position)
    ensures After(p, pos) == false
  {
    BelowIrreflexive(p.cid);
    Position(p.indexedAt, p.cid)
  }

  /** `row` comes strictly after the position `pos` in feed order. */
  predicate After(row: Post, pos: Position)
  {
    row.indexedAt < pos.indexedAt || (row.indexedAt == pos.indexedAt && Below(row.cid, pos.cid))
  }

  lemma AfterTransitive(x: Post, y: Post, q: Position)
    ensures After(x, PositionOf(y)) && After(y, q) ==> After(x, q)
  {
    if After(x, PositionOf(y)) && After(y, q) && x.indexedAt == q.indexedAt {
      BelowTransitive(x.cid, y.cid, q.cid);
    }
  }

  /**
   * On a row of this feed the cursor predicate is exactly "strictly after the
   * cursor's position in feed order".
   */
  lemma CursorSelectsRowsAfter(row: Post, pos: Position)
    requires row.feed == Shortname
    ensures RowSelected(row, Some(pos)) <==> After(row, pos)
  {
  }

  /**
   * The precedence of the cursor clause lets a row of another feed through
   * whenever it ties with the cursor's time and has a smaller `cid`.
   */
  lemma CursorAdmitsOtherFeedOnTie(row: Post, pos: Position)
    requires row.feed != Shortname && row.indexedAt == pos.indexedAt && Below(row.cid, pos.cid)
    ensures RowSelected(row, Some(pos))
    ensures !RowSelected(row, None)
  {
  }

  /**
   * Pagination: in a table of this feed's rows with distinct positions and
   * well-formed cids, the cursor returned with a page decodes, and the rows
   * it selects are exactly the selected rows not yet returned. Repeating the
   * request with each returned cursor therefore visits every row once.
   */
  lemma {:induction false} NextPageContinues(t: Table, pos: Option<Position>, limit: nat, keys: seq<Uri>)
    requires OnlyThisFeed(t) && DistinctPositions(t) && CursorsDecodable(t)
    requires IsPage(t, pos, limit, keys) && |keys| > 0
    ensures var last := t[keys[|keys| - 1]];
      && ParseCursor(Some(RenderCursor(last))) == Ok(Some(PositionOf(last)))
      && Matching(t, Some(PositionOf(last))) == Matching(t, pos) - set u | u in keys
  {
    var lastKey := keys[|keys| - 1];
    var last := t[lastKey];
    CursorRoundTrip(last);
    var next := Some(PositionOf(last));
    forall u | u in t ensures u in Matching(t, next) <==> u in Matching(t, pos) && u !in keys {
      CursorSelectsRowsAfter(t[u], PositionOf(last));
      if u in keys {
        var i :| 0 <= i < |keys| && keys[i] == u;
        if i < |keys| - 1 {
          assert NotBehind(t[u], last);
        }
      } else if u in Matching(t, pos) {
        assert NotBehind(last, t[u]);
        BelowTrichotomy(t[u].cid, last.cid);
      } else {
        match pos
        case Some(q) =>
          CursorSelectsRowsAfter(t[u], q);
          CursorSelectsRowsAfter(last, q);
          AfterTransitive(t[u], last, q);
      }
    }
  }
}
