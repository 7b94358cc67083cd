/**
 * `FirehoseSubscription.handleEvent`: one firehose event as a transition of
 * the `post` table.
 */
module Subscription {
  import opened Wrappers
  import opened Posts
  import opened AlphabeticalWords

  /** The post operations `getOpsByType` extracts from a commit. */
  datatype PostOps = PostOps(creates: seq<CreateOp>, deletes: seq<DeleteOp>)

  /**
   * A firehose event. A commit carries the outcome of extracting its
   * operations: `None` when `getOpsByType` fails, whose error is logged and
   * swallowed. Every other kind of event is `OtherEvent`.
   */
  datatype RepoEvent = Commit(ops: Option<PostOps>) | OtherEvent

  /** `deletes.map((del) => del.uri)`. */
  function DeleteUris(deletes: seq<DeleteOp>): (uris: seq<Uri>)
    ensures |uris| == |deletes|
    ensures forall i | 0 <= i < |deletes| :: uris[i] == deletes[i].uri
  {
    seq(|deletes|, i requires 0 <= i < |deletes| => deletes[i].uri)
  }

  /** `xs.filter(keep)`: the elements `keep` accepts, in order, repetitions kept. */
  function Filter<T>(xs: seq<T>, keep: T -> bool): (r: seq<T>)
    ensures |r| <= |xs|
    ensures forall x | x in r :: x in xs && keep(x)
    ensures forall x | x in xs && keep(x) :: x in r
  {
    if |xs| == 0 then []
    else if keep(xs[0]) then [xs[0]] + Filter(xs[1..], keep)
    else Filter(xs[1..], keep)
  }

  /**
   * `filter` keeps the order and the repetitions of what it accepts: filtering
   * a concatenation concatenates the filtered parts.
   */
  lemma {:induction false} FilterAppend<T>(a: seq<T>, b: seq<T>, keep: T -> bool)
    ensures Filter(a + b, keep) == Filter(a, keep) + Filter(b, keep)
    decreases |a|
  {
    if |a| == 0 {
      assert a + b == b;
    } else {
      assert (a + b)[0] == a[0] && (a + b)[1..] == a[1..] + b;
      FilterAppend(a[1..], b, keep);
    }
  }

  /** `creates.filter(subscriptionFilter)`: the accepted creates, in order. */
  function AcceptedCreates(creates: seq<CreateOp>): (accepted: seq<CreateOp>)
    ensures |accepted| <= |creates|
    ensures forall c | c in accepted :: c in creates && SubscriptionFilter(c)
    ensures forall c | c in creates && SubscriptionFilter(c) :: c in accepted
  {
    Filter(creates, SubscriptionFilter)
  }

  /** `.map(mapToPost)`, every row stamped with the time `now`. */
  function MapToPosts(creates: seq<CreateOp>, now: int): (rows: seq<Post>)
    ensures |rows| == |creates|
    ensures forall i | 0 <= i < |creates| :: rows[i] == MapToPost(creates[i], now)
  {
    seq(|creates|, i requires 0 <= i < |creates| => MapToPost(creates[i], now))
  }

  /**
   * The row the first accepted create for `u` becomes, if any: the reference
   * for what the event may add under `u`.
   */
  function FirstAccepted(creates: seq<CreateOp>, now: int, u: Uri): (r: Option<Post>)
  {
    if |creates| == 0 then None
    else if SubscriptionFilter(creates[0]) && creates[0].uri == u then Some(MapToPost(creates[0], now))
    else
      var rest := FirstAccepted(creates[1..], now, u);
      assert forall c | c in creates[1..] :: c in creates;
      rest
  }

  /** `u` is the URI of a create the filter accepts. */
  predicate AcceptedFor(c: CreateOp, u: Uri)
  {
    c.uri == u && SubscriptionFilter(c)
  }

  /** `FirstAccepted` finds nothing exactly when no create for `u` is accepted. */
  lemma {:induction false} FirstAcceptedNoneIff(creates: seq<CreateOp>, now: int, u: Uri)
    ensures FirstAccepted(creates, now, u).None? <==> forall i | 0 <= i < |creates| :: !AcceptedFor(creates[i], u)
  {
    if |creates| > 0 {
      var tail := creates[1..];
      FirstAcceptedNoneIff(tail, now, u);
      if !AcceptedFor(creates[0], u) {
        assert FirstAccepted(creates, now, u) == FirstAccepted(tail, now, u);
        assert (forall i | 0 <= i < |tail| :: !AcceptedFor(tail[i], u)) ==> forall i | 0 <= i < |creates| :: !AcceptedFor(creates[i], u) by {
          if forall i | 0 <= i < |tail| :: !AcceptedFor(tail[i], u) {
            forall i | 0 <= i < |creates| ensures !AcceptedFor(creates[i], u) {
              if i > 0 {
                assert creates[i] == tail[i - 1];
              }
            }
          }
        }
      }
    }
  }

  /** What `FirstAccepted` finds is the row of the earliest accepted create for `u`. */
  lemma {:induction false} FirstAcceptedIsEarliest(creates: seq<CreateOp>, now: int, u: Uri)
    requires FirstAccepted(creates, now, u).Some?
    ensures exists i | 0 <= i < |creates| ::
        && AcceptedFor(creates[i], u)
        && FirstAccepted(creates, now, u) == Some(MapToPost(creates[i], now))
        && forall j | 0 <= j < i :: !AcceptedFor(creates[j], u)
  {
    if AcceptedFor(creates[0], u) {
      assert FirstAccepted(creates, now, u) == Some(MapToPost(creates[0], now));
    } else {
      var tail := creates[1..];
      assert FirstAccepted(creates, now, u) == FirstAccepted(tail, now, u);
      FirstAcceptedIsEarliest(tail, now, u);
      var i :| 0 <= i < |tail| && AcceptedFor(tail[i], u)
        && FirstAccepted(tail, now, u) == Some(MapToPost(tail[i], now))
        && forall j | 0 <= j < i :: !AcceptedFor(tail[j], u);
      assert creates[i + 1] == tail[i];
      forall j | 0 <= j < i + 1 ensures !AcceptedFor(creates[j], u) {
        if j > 0 {
          assert creates[j] == tail[j - 1];
        }
      }
    }
  }

  /** Inserting the mapped accepted creates adds, under each new `uri`, the row of its first accepted create. */
  lemma {:induction false} FirstInsertedIsFirstAccepted(creates: seq<CreateOp>, now: int, u: Uri)
    ensures FirstWithUri(MapToPosts(AcceptedCreates(creates), now), u) == FirstAccepted(creates, now, u)
  {
    if |creates| > 0 {
      var head := creates[0];
      var tail := creates[1..];
      FirstInsertedIsFirstAccepted(tail, now, u);
      var tailRows := MapToPosts(AcceptedCreates(tail), now);
      var rows := MapToPosts(AcceptedCreates(creates), now);
      if SubscriptionFilter(head) {
        assert AcceptedCreates(creates) == [head] + AcceptedCreates(tail);
        assert rows[0] == MapToPost(head, now);
        assert rows[1..] == tailRows;
        assert FirstWithUri(rows, u) == if head.uri == u then Some(MapToPost(head, now)) else FirstWithUri(tailRows, u);
      } else {
        assert AcceptedCreates(creates) == AcceptedCreates(tail);
        assert rows == tailRows;
      }
    }
  }

  /**
   * `handleEvent`. Events that are not commits, and commits whose operations
   * cannot be extracted, leave the table alone. Otherwise every deleted URI
   * is removed, then the accepted creates are inserted, a row already present
   * and the first of several creates for one URI winning.
   */
  function HandleEvent(t: Table, evt: RepoEvent, now: int): (r: Table)
    ensures evt.OtherEvent? ==> r == t
    ensures evt.Commit? && evt.ops.None? ==> r == t
    ensures evt.Commit? && evt.ops.Some? ==>
      forall u :: Get(r, u) ==
        if u in t && u !in DeleteUris(evt.ops.value.deletes) then Get(t, u)
        else FirstAccepted(evt.ops.value.creates, now, u)
  {
    match evt
    case OtherEvent => t
    case Commit(None) => t
    case Commit(Some(ops)) =>
      var postsToDelete := DeleteUris(ops.deletes);
      var postsToCreate := MapToPosts(AcceptedCreates(ops.creates), now);
      var afterDeletes := if |postsToDelete| > 0 then DeleteWhereUriIn(t, postsToDelete) else t;
      var r := if |postsToCreate| > 0 then InsertAllIfAbsent(afterDeletes, postsToCreate) else afterDeletes;
      assert forall u :: FirstWithUri(postsToCreate, u) == FirstAccepted(ops.creates, now, u) by {
        forall u ensures FirstWithUri(postsToCreate, u) == FirstAccepted(ops.creates, now, u) {
          FirstInsertedIsFirstAccepted(ops.creates, now, u);
        }
      }
      r
  }

  /** After a commit, a deleted URI is gone unless an accepted create of the same event re-inserts it. */
  lemma DeletedUnlessRecreated(t: Table, ops: PostOps, now: int, u: Uri)
    requires u in DeleteUris(ops.deletes)
    ensures var r := HandleEvent(t, Commit(Some(ops)), now);
      (u in r <==> exists i | 0 <= i < |ops.creates| :: AcceptedFor(ops.creates[i], u))
  {
    var r := HandleEvent(t, Commit(Some(ops)), now);
    assert Get(r, u) == FirstAccepted(ops.creates, now, u);
    FirstAcceptedNoneIff(ops.creates, now, u);
  }

  /** A row whose URI the event does not delete is kept as it was, even when the event creates that URI again. */
  lemma FirstWriteWins(t: Table, ops: PostOps, now: int, u: Uri)
    requires u in t && u !in DeleteUris(ops.deletes)
    ensures var r := HandleEvent(t, Commit(Some(ops)), now);
      u in r && r[u] == t[u]
  {
    var r := HandleEvent(t, Commit(Some(ops)), now);
    assert Get(r, u) == Get(t, u);
  }

  /** Rows the event adds or replaces are exactly `mapToPost` of an accepted create. */
  lemma OnlyAcceptedInserted(t: Table, ops: PostOps, now: int, u: Uri)
    requires var r := HandleEvent(t, Commit(Some(ops)), now);
      u in r && (u !in t || t[u] != r[u])
    ensures var r := HandleEvent(t, Commit(Some(ops)), now);
      exists i | 0 <= i < |ops.creates| :: AcceptedFor(ops.creates[i], u) && r[u] == MapToPost(ops.creates[i], now)
  {
    var r := HandleEvent(t, Commit(Some(ops)), now);
    assert Get(r, u) == FirstAccepted(ops.creates, now, u);
    FirstAcceptedIsEarliest(ops.creates, now, u);
  }

  /** Handling the same event twice, at the same time, gives the table handling it once gives. */
  lemma HandleEventIdempotent(t: Table, evt: RepoEvent, now: int)
    ensures HandleEvent(HandleEvent(t, evt, now), evt, now) == HandleEvent(t, evt, now)
  {
    if evt.Commit? && evt.ops.Some? {
      var once := HandleEvent(t, evt, now);
      var twice := HandleEvent(once, evt, now);
      forall u ensures Get(twice, u) == Get(once, u) {
      }
      TableExtensionality(twice, once);
    }
  }

  /** Handling an event keeps every row under its own URI and inside this feed. */
  lemma HandleEventKeepsInvariants(t: Table, evt: RepoEvent, now: int)
    requires WellKeyed(t) && OnlyThisFeed(t)
    ensures WellKeyed(HandleEvent(t, evt, now)) && OnlyThisFeed(HandleEvent(t, evt, now))
  {
    var r := HandleEvent(t, evt, now);
    if evt.Commit? && evt.ops.Some? {
      forall u | u in r ensures r[u].uri == u && r[u].feed == Shortname {
        assert Get(r, u).Some?;
      }
    }
  }
}
