/**
 * The queue workers: one job is one atomic transition of the `post` table.
 * A job may be delivered more than once, so each transition must be safe to
 * repeat.
 */
module Workers {
  import opened Wrappers
  import opened Posts
  import opened AlphabeticalWords
  import opened Subscription

  /**
   * The `creates` worker: re-runs the filter on the job's create and, when it
   * accepts, inserts `mapToPost` of it unless a row with that URI exists.
   */
  function RunCreateJob(t: Table, create: CreateOp, now: int): (r: Table)
    ensures !SubscriptionFilter(create) ==> r == t
    ensures |r| == |t| + (if SubscriptionFilter(create) && create.uri !in t then 1 else 0)
    ensures forall u :: Get(r, u) ==
                        (if u in t || !AcceptedFor(create, u) then Get(t, u) else Some(MapToPost(create, now)))
  {
    if SubscriptionFilter(create) then InsertIfAbsent(t, MapToPost(create, now)) else t
  }

  /** The `deletes` worker: `DELETE FROM post WHERE uri IN [job.uri]`. */
  function RunDeleteJob(t: Table, job: DeleteOp): (r: Table)
    ensures forall u :: Get(r, u) == if u == job.uri then None else Get(t, u)
  {
    DeleteWhereUriIn(t, [job.uri])
  }

  /** Deleting a URI that has no row is a no-op, not an error. */
  lemma DeleteAbsentIsNoop(t: Table, job: DeleteOp)
    requires job.uri !in t
    ensures RunDeleteJob(t, job) == t
  {
    var r := RunDeleteJob(t, job);
    forall u ensures Get(r, u) == Get(t, u) {
    }
    TableExtensionality(r, t);
  }

  /** Redelivering a create job, at any later time, changes nothing. */
  lemma CreateJobIdempotent(t: Table, create: CreateOp, now: int, later: int)
    ensures RunCreateJob(RunCreateJob(t, create, now), create, later) == RunCreateJob(t, create, now)
  {
    var once := RunCreateJob(t, create, now);
    var twice := RunCreateJob(once, create, later);
    forall u ensures Get(twice, u) == Get(once, u) {
    }
    TableExtensionality(twice, once);
  }

  /** Redelivering a delete job changes nothing. */
  lemma DeleteJobIdempotent(t: Table, job: DeleteOp)
    ensures RunDeleteJob(RunDeleteJob(t, job), job) == RunDeleteJob(t, job)
  {
    var once := RunDeleteJob(t, job);
    var twice := RunDeleteJob(once, job);
    forall u ensures Get(twice, u) == Get(once, u) {
    }
    TableExtensionality(twice, once);
  }

  /**
   * Two workers racing on the same accepted create leave exactly one row for
   * its URI: the row already there, or else the row of whichever ran first.
   */
  lemma RacingCreatesLeaveOneRow(t: Table, create: CreateOp, first: int, second: int)
    requires SubscriptionFilter(create)
    ensures var r := RunCreateJob(RunCreateJob(t, create, first), create, second);
      && create.uri in r
      && r[create.uri] == (if create.uri in t then t[create.uri] else MapToPost(create, first))
  {
    CreateJobIdempotent(t, create, first, second);
    var r := RunCreateJob(t, create, first);
    assert Get(r, create.uri).Some?;
  }

  /** Jobs for different URIs commute, so the two queues need no ordering between them. */
  lemma JobsOnDifferentUrisCommute(t: Table, create: CreateOp, job: DeleteOp, now: int)
    requires create.uri != job.uri
    ensures RunDeleteJob(RunCreateJob(t, create, now), job) == RunCreateJob(RunDeleteJob(t, job), create, now)
  {
    var a := RunDeleteJob(RunCreateJob(t, create, now), job);
    var b := RunCreateJob(RunDeleteJob(t, job), create, now);
    forall u ensures Get(a, u) == Get(b, u) {
    }
    TableExtensionality(a, b);
  }

  /** Running delete jobs one after another. */
  function RunDeleteJobs(t: Table, jobs: seq<DeleteOp>): (r: Table)
    ensures forall u :: Get(r, u) == if u in DeleteUris(jobs) then None else Get(t, u)
    decreases |jobs|
  {
    if |jobs| == 0 then t
    else
      var r := RunDeleteJobs(RunDeleteJob(t, jobs[0]), jobs[1..]);
      assert DeleteUris(jobs) == [jobs[0].uri] + DeleteUris(jobs[1..]);
      r
  }

  /** Running create jobs one after another, all at the time `now`. */
  function RunCreateJobs(t: Table, creates: seq<CreateOp>, now: int): (r: Table)
    ensures forall u :: Get(r, u) == if u in t then Get(t, u) else FirstAccepted(creates, now, u)
    decreases |creates|
  {
    if |creates| == 0 then t
    else RunCreateJobs(RunCreateJob(t, creates[0], now), creates[1..], now)
  }

  /**
   * Queueing a commit's deletes and then its creates, one job each, and
   * running the jobs in that order gives the table that handling the event
   * directly gives.
   */
  lemma QueuedJobsMatchHandleEvent(t: Table, ops: PostOps, now: int)
    ensures RunCreateJobs(RunDeleteJobs(t, ops.deletes), ops.creates, now) == HandleEvent(t, Commit(Some(ops)), now)
  {
    var viaQueues := RunCreateJobs(RunDeleteJobs(t, ops.deletes), ops.creates, now);
    var direct := HandleEvent(t, Commit(Some(ops)), now);
    forall u ensures Get(viaQueues, u) == Get(direct, u) {
    }
    TableExtensionality(viaQueues, direct);
  }

  /** Both workers keep every row under its own URI and inside this feed. */
  lemma JobsKeepInvariants(t: Table, create: CreateOp, job: DeleteOp, now: int)
    requires WellKeyed(t) && OnlyThisFeed(t)
    ensures WellKeyed(RunCreateJob(t, create, now)) && OnlyThisFeed(RunCreateJob(t, create, now))
    ensures WellKeyed(RunDeleteJob(t, job)) && OnlyThisFeed(RunDeleteJob(t, job))
  {
    var c := RunCreateJob(t, create, now);
    forall u | u in c ensures c[u].uri == u && c[u].feed == Shortname {
      assert Get(c, u).Some?;
    }
    var d := RunDeleteJob(t, job);
    forall u | u in d ensures d[u] == t[u] {
      assert Get(d, u).Some?;
    }
  }
}
