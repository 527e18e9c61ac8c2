/**
 * The operator commands over the RFQ queue (scripts/queue-ops.ts): the replay loop with its
 * three-way accounting, the dead-letter re-drive, and the selection that feeds the replay.
 */
module QueueOps {
  import opened Prelude
  import opened Pieces
  import opened Delivery
  import opened DeliveryRecovery

  /** One BullMQ job record: the lead its payload names, and its lifecycle. */
  datatype Record = Record(leadId: string, job: Job)

  type Jobs = map<string, Record>

  /** Which call of one loop turn throws, if any. */
  datatype Fault = NoFault | GetJobFails | RemoveFails | AddFails

  datatype Outcome = Enqueued | AlreadyQueued | NotEnqueued

  predicate IsFinished(job: Job) {
    job.state.Completed? || job.state.Failed?
  }

  /** `queue.add(name, {leadId}, {jobId: leadId})`: nothing happens when the record exists. */
  function AddTo(jobs: Jobs, id: string): Jobs {
    if id in jobs then jobs else jobs[id := Record(id, Job(0, Waiting))]
  }

  /** One turn of the replay loop. */
  function ReplayOne(jobs: Jobs, id: string, fault: Fault): (r: (Jobs, Outcome)) {
    if fault == GetJobFails then (jobs, NotEnqueued)
    else if id in jobs && !IsFinished(jobs[id].job) then (jobs, AlreadyQueued)
    else if id in jobs && fault == RemoveFails then (jobs, NotEnqueued)
    else
      var cleared := jobs - {id};
      if fault == AddFails then (cleared, NotEnqueued) else (AddTo(cleared, id), Enqueued)
  }

  /** The whole loop: the records it leaves and the outcome of every turn, in order. */
  function ReplayAll(jobs: Jobs, ids: seq<string>, faults: seq<Fault>): (r: (Jobs, seq<Outcome>))
    requires |faults| == |ids|
    ensures |r.1| == |ids|
  {
    if ids == [] then (jobs, [])
    else
      var before := ReplayAll(jobs, ids[..|ids| - 1], faults[..|ids| - 1]);
      var last := ReplayOne(before.0, ids[|ids| - 1], faults[|ids| - 1]);
      (last.0, before.1 + [last.1])
  }

  function Count(outcomes: seq<Outcome>, o: Outcome): (n: nat)
    ensures n <= |outcomes|
  {
    if outcomes == [] then 0
    else Count(outcomes[..|outcomes| - 1], o) + (if outcomes[|outcomes| - 1] == o then 1 else 0)
  }

  /** Every job runs under the id of the lead it is for, so no lead has two jobs. */
  ghost predicate KeyedByLead(jobs: Jobs) {
    forall k | k in jobs :: jobs[k].leadId == k
  }

  function At(jobs: Jobs, id: string): Option<Record> {
    if id in jobs then Some(jobs[id]) else None
  }

  predicate Unfinished(record: Option<Record>) {
    && record.Some?
    && var state := record.value.job.state; state.Waiting? || state.Delayed? || state.Active?
  }

  /**
   * What an outcome means for its lead. It was already queued exactly when its job could be read and
   * is unfinished, and then that job stays; it was enqueued exactly when no call failed that was made,
   * and then a fresh job waits in place of none or a finished one; otherwise it failed, and only an add
   * that failed took a finished record with it.
   */
  predicate Honest(id: string, fault: Fault, before: Option<Record>, after: Option<Record>, outcome: Outcome) {
    && (outcome == AlreadyQueued <==> fault != GetJobFails && Unfinished(before))
    && (outcome == Enqueued <==>
          !Unfinished(before) && (fault == NoFault || (fault == RemoveFails && before.None?)))
    && after == match outcome
                case Enqueued => Some(Record(id, Job(0, Waiting)))
                case AlreadyQueued => before
                case NotEnqueued => if fault == AddFails then None else before
  }

  /** Every turn is honest about its own lead and touches nobody else's record. */
  lemma ReplayOneHonest(jobs: Jobs, id: string, fault: Fault)
    requires KeyedByLead(jobs)
    ensures var (after, outcome) := ReplayOne(jobs, id, fault);
            && KeyedByLead(after)
            && Honest(id, fault, At(jobs, id), At(after, id), outcome)
            && forall k | k != id :: At(after, k) == At(jobs, k)
  {
  }

  /** So is every turn of a whole replay over distinct leads, between the records it found and those it leaves. */
  lemma {:induction false} ReplayAllHonest(jobs: Jobs, ids: seq<string>, faults: seq<Fault>)
    requires KeyedByLead(jobs) && |faults| == |ids|
    requires forall i, j | 0 <= i < j < |ids| :: ids[i] != ids[j]
    ensures var (after, outcomes) := ReplayAll(jobs, ids, faults);
            && KeyedByLead(after)
            && (forall i | 0 <= i < |ids| ::
                  Honest(ids[i], faults[i], At(jobs, ids[i]), At(after, ids[i]), outcomes[i]))
            && forall k | k !in ids :: At(after, k) == At(jobs, k)
  {
    if ids != [] {
      var n := |ids| - 1;
      ReplayAllHonest(jobs, ids[..n], faults[..n]);
      var before := ReplayAll(jobs, ids[..n], faults[..n]).0;
      ReplayOneHonest(before, ids[n], faults[n]);
      assert ids == ids[..n] + [ids[n]] && ids[n] !in ids[..n];
    }
  }

  lemma {:induction false} CountsAddUp(outcomes: seq<Outcome>)
    ensures Count(outcomes, Enqueued) + Count(outcomes, AlreadyQueued) + Count(outcomes, NotEnqueued) == |outcomes|
  {
    if outcomes != [] { CountsAddUp(outcomes[..|outcomes| - 1]); }
  }

  /** The steps of the delivery protocol that one loop turn amounts to for a picked lead. */
  function ReplayActs(job: Option<Job>, fault: Fault): seq<Act> {
    if fault == GetJobFails then [Abandon]
    else match job
      case Some(j) =>
        if !IsFinished(j) then [Abandon]
        else if fault == RemoveFails then [Inspect, Abandon]
        else if fault == AddFails then [Inspect, Remove, Abandon]
        else [Inspect, Remove, ReAdd]
      case None => if fault == AddFails then [Abandon] else [ReAdd]
  }

  /** A loop turn that nothing interleaves with is a run of the protocol's own replay steps. */
  lemma ReplayOneIsProtocol(lane: Lane, jobs: Jobs, id: string, fault: Fault, now: int)
    requires lane.picked
    requires lane.job == if id in jobs then Some(jobs[id].job) else None
    ensures var end := RunLane(lane, ReplayActs(lane.job, fault), now);
            var after := ReplayOne(jobs, id, fault).0;
            end.Some? && !end.value.picked && end.value.lead == lane.lead
            && end.value.job == if id in after then Some(after[id].job) else None
  {
    var acts := ReplayActs(lane.job, fault);
    if |acts| >= 1 { Unfold(lane, acts, now); }
    if |acts| >= 2 { Unfold(lane.(cleared := true), acts[1..], now); }
    if |acts| == 3 { Unfold(lane.(cleared := true, job := None), acts[2..], now); }
  }

  class RfqQueue {
    var jobs: Jobs

    constructor ()
      ensures jobs == map[]
    {
      jobs := map[];
    }

    method Add(id: string)
      modifies this
      ensures jobs == AddTo(old(jobs), id)
      ensures id in jobs && jobs.Keys == old(jobs).Keys + {id}
      ensures forall k | k in old(jobs) :: jobs[k] == old(jobs)[k]
    {
      if id !in jobs { jobs := jobs[id := Record(id, Job(0, Waiting))]; }
    }

    /** The loop of `replayUnnotified`, over the leads its query and its age ceiling left. */
    method ReplayUnnotified(ids: seq<string>, faults: seq<Fault>)
      returns (enqueued: nat, alreadyQueued: nat, failed: nat)
      requires |faults| == |ids|
      modifies this
      ensures jobs == ReplayAll(old(jobs), ids, faults).0
      ensures var outcomes := ReplayAll(old(jobs), ids, faults).1;
              enqueued == Count(outcomes, Enqueued) && alreadyQueued == Count(outcomes, AlreadyQueued)
              && failed == Count(outcomes, NotEnqueued)
      ensures enqueued + alreadyQueued + failed == |ids|
    {
      enqueued, alreadyQueued, failed := 0, 0, 0;
      ghost var outcomes: seq<Outcome> := [];
      for i := 0 to |ids|
        invariant (jobs, outcomes) == ReplayAll(old(jobs), ids[..i], faults[..i])
        invariant enqueued == Count(outcomes, Enqueued)
        invariant alreadyQueued == Count(outcomes, AlreadyQueued)
        invariant failed == Count(outcomes, NotEnqueued)
      {
        var id, fault := ids[i], faults[i];
        ghost var turn := ReplayOne(jobs, id, fault);
        assert ids[..i + 1][..i] == ids[..i] && faults[..i + 1][..i] == faults[..i];
        assert ReplayAll(old(jobs), ids[..i + 1], faults[..i + 1]) == (turn.0, outcomes + [turn.1]);
        assert (outcomes + [turn.1])[..|outcomes|] == outcomes;
        outcomes := outcomes + [turn.1];
        if fault == GetJobFails {
          failed := failed + 1;
        } else if id in jobs && !IsFinished(jobs[id].job) {
          alreadyQueued := alreadyQueued + 1;
        } else if id in jobs && fault == RemoveFails {
          failed := failed + 1;
        } else {
          jobs := jobs - {id};
          if fault == AddFails {
            failed := failed + 1;
          } else {
            Add(id);
            enqueued := enqueued + 1;
          }
        }
      }
      assert ids[..|ids|] == ids && faults[..|ids|] == faults;
      CountsAddUp(outcomes);
    }

    /** The loop of `retryFailed`, over the failed jobs BullMQ listed; a job may refuse. */
    method RetryFailed(batch: seq<string>, refuses: set<string>) returns (retried: nat)
      requires forall i, j | 0 <= i < j < |batch| :: batch[i] != batch[j]
      requires forall id <- batch :: id in jobs && jobs[id].job.state.Failed?
      modifies this
      ensures jobs.Keys == old(jobs).Keys
      ensures forall id | id in jobs ::
                jobs[id] == if id in batch && id !in refuses
                            then old(jobs)[id].(job := old(jobs)[id].job.(state := Waiting)) else old(jobs)[id]
      ensures retried == |set id <- batch | id !in refuses|
    {
      retried := 0;
      ghost var done: set<string> := {};
      for i := 0 to |batch|
        invariant jobs.Keys == old(jobs).Keys
        invariant forall id | id in jobs ::
                    jobs[id] == if id in batch[..i] && id !in refuses
                                then old(jobs)[id].(job := old(jobs)[id].job.(state := Waiting)) else old(jobs)[id]
        invariant done == set id <- batch[..i] | id !in refuses
        invariant retried == |done|
      {
        var id := batch[i];
        assert id !in batch[..i];
        assert batch[..i + 1] == batch[..i] + [id];
        if id !in refuses {
          jobs := jobs[id := jobs[id].(job := jobs[id].job.(state := Waiting))];
          done := done + {id};
          retried := retried + 1;
        }
      }
      assert batch[..|batch|] == batch;
    }
  }

  // ---------------------------------------------------------------- which leads are replayed

  const REPLAY_TAKE: nat := 100

  datatype Awaiting = Awaiting(id: string, createdAt: int)

  /** `orderBy: { createdAt: "asc" }`. */
  ghost predicate OldestFirst(rows: seq<Awaiting>) {
    forall i, j | 0 <= i < j < |rows| :: rows[i].createdAt <= rows[j].createdAt
  }

  /** What is left when the leads past the ceiling are set aside. */
  function Young(rows: seq<Awaiting>, floor: int): seq<Awaiting> {
    Filter((x: Awaiting) => x.createdAt >= floor, rows)
  }

  /** `take: 100`. */
  function Taken(matching: seq<Awaiting>): (r: seq<Awaiting>)
    ensures r <= matching && |r| <= REPLAY_TAKE
    ensures |r| == if |matching| <= REPLAY_TAKE then |matching| else REPLAY_TAKE
  {
    if |matching| <= REPLAY_TAKE then matching else matching[..REPLAY_TAKE]
  }

  /** The leads the replay loop is given, from all the leads the query's `where` matches. */
  function Replayed(matching: seq<Awaiting>, now: int): seq<Awaiting> {
    Young(Taken(matching), now - REPLAY_MAX_AGE_MS)
  }

  /**
   * The replay reaches a matching lead exactly when it is inside the ceiling and fewer than 100
   * matching leads come before it: the query takes its 100 oldest rows first and the ceiling is
   * applied to those afterwards.
   */
  lemma ReplayedIff(matching: seq<Awaiting>, now: int, i: nat)
    requires i < |matching| && OldestFirst(matching)
    requires forall k, l | 0 <= k < l < |matching| :: matching[k] != matching[l]
    ensures matching[i] in Replayed(matching, now)
            <==> i < 100 && now - matching[i].createdAt <= 2_592_000_000
  {
    var floor := now - REPLAY_MAX_AGE_MS;
    FilterIn((x: Awaiting) => x.createdAt >= floor, Taken(matching), matching[i]);
    if matching[i] in Taken(matching) {
      var k :| 0 <= k < |Taken(matching)| && Taken(matching)[k] == matching[i];
      assert matching[k] == matching[i];
    }
    if i < REPLAY_TAKE { assert Taken(matching)[i] == matching[i]; }
  }

  /**
   * A hundred leads past the ceiling starve every younger one, now and at every later time, however
   * many new leads have joined them behind.
   */
  lemma OldLeadsStarveTheRest(matching: seq<Awaiting>, now: int, joined: seq<Awaiting>, later: int)
    requires OldestFirst(matching) && |matching| >= REPLAY_TAKE
    requires OldestFirst(joined) && matching <= joined && now <= later
    ensures Replayed(matching, now) == [] <==> matching[REPLAY_TAKE - 1].createdAt < now - REPLAY_MAX_AGE_MS
    ensures Replayed(matching, now) == [] ==> Replayed(joined, later) == []
  {
    EmptyIffLastIsOld(matching, now - REPLAY_MAX_AGE_MS);
    EmptyIffLastIsOld(joined, later - REPLAY_MAX_AGE_MS);
  }

  lemma EmptyIffLastIsOld(matching: seq<Awaiting>, floor: int)
    requires OldestFirst(matching) && |matching| >= REPLAY_TAKE
    ensures Young(Taken(matching), floor) == [] <==> matching[REPLAY_TAKE - 1].createdAt < floor
  {
    var taken := Taken(matching);
    FilterNoneIff((x: Awaiting) => x.createdAt >= floor, taken);
    assert taken[REPLAY_TAKE - 1] == matching[REPLAY_TAKE - 1] && taken[REPLAY_TAKE - 1] in taken;
    forall x | x in taken ensures x.createdAt <= matching[REPLAY_TAKE - 1].createdAt {
      var i :| 0 <= i < |taken| && taken[i] == x;
      assert taken[i] == matching[i];
    }
  }
}
