/**
 * What the two operator commands can and cannot bring back, and the two concrete runs that show
 * where the delivery protocol's promises end.
 */
module DeliveryRecovery {
  import opened Prelude
  import opened FailureColumn
  import opened Delivery
  import opened DeliverySafety

  /** A sequence of steps of one lane while the clock stands still. */
  function RunLane(lane: Lane, acts: seq<Act>, now: int): Option<Lane>
    decreases |acts|
  {
    if acts == [] then Some(lane)
    else match LaneStep(lane, acts[0], now)
      case None => None
      case Some(next) => RunLane(next, acts[1..], now)
  }

  lemma {:induction false} RunLaneConcat(lane: Lane, first: seq<Act>, then_: seq<Act>, now: int)
    requires RunLane(lane, first, now).Some?
    ensures RunLane(lane, first + then_, now) == RunLane(RunLane(lane, first, now).value, then_, now)
    decreases |first|
  {
    if first == [] {
      assert first + then_ == then_;
    } else {
      assert (first + then_)[1..] == first[1..] + then_;
      RunLaneConcat(LaneStep(lane, first[0], now).value, first[1..], then_, now);
    }
  }

  /** The same steps as events of a run. */
  function OnLane(id: string, acts: seq<Act>): seq<Event> {
    seq(|acts|, i requires 0 <= i < |acts| => On(id, acts[i]))
  }

  lemma {:induction false} RunLaneIsRun(w: World, id: string, acts: seq<Act>)
    requires id in w.lanes && RunLane(w.lanes[id], acts, w.now).Some?
    ensures Run(w, OnLane(id, acts)) == Some(w.(lanes := w.lanes[id := RunLane(w.lanes[id], acts, w.now).value]))
    decreases |acts|
  {
    if acts == [] {
      assert w.lanes[id := w.lanes[id]] == w.lanes;
    } else {
      var lane := LaneStep(w.lanes[id], acts[0], w.now).value;
      var next := w.(lanes := w.lanes[id := lane]);
      assert OnLane(id, acts)[1..] == OnLane(id, acts[1..]);
      RunLaneIsRun(next, id, acts[1..]);
      var final := RunLane(lane, acts[1..], w.now).value;
      assert next.lanes[id := final] == w.lanes[id := final];
    }
  }

  lemma {:induction false} RunConcat(w: World, first: seq<Event>, then_: seq<Event>)
    requires Run(w, first).Some?
    ensures Run(w, first + then_) == Run(Run(w, first).value, then_)
    decreases |first|
  {
    if first == [] {
      assert first + then_ == then_;
    } else {
      assert (first + then_)[1..] == first[1..] + then_;
      RunConcat(Step(w, first[0]).value, first[1..], then_);
    }
  }

  // ---------------------------------------------------------------- what recovery can do

  /** Steps of the worker, the queue and the two operator commands while nothing fails and nobody crashes. */
  predicate IsRecoveryAct(act: Act) {
    act in {Promote, Start, Load, Skip, Send(Accept), Stamp, Return, Retry, Pick, Inspect, Remove, ReAdd}
  }

  predicate Owed(lane: Lane) {
    lane.lead.Some? && Notify !in lane.lead.value.sent
  }

  predicate Notified(lane: Lane) {
    lane.lead.Some? && Notify in lane.lead.value.sent
  }

  /**
   * Neither the worker nor `queue:retry` will try the notification again: the job is gone or has
   * completed, or its attempt is past the notification and will complete it.
   */
  predicate NeedsReplay(lane: Lane) {
    match lane.job
    case None => true
    case Some(Job(_, Completed)) => true
    case Some(Job(_, Active(Before(Confirm, _, retry)))) => !retry
    case Some(Job(_, Active(Accepted(Confirm, _, retry)))) => !retry
    case Some(Job(_, Active(Finished(retry)))) => !retry
    case _ => false
  }

  /** A lead that needs a replay must be in a replay's hands, or returned by its query and inside its ceiling. */
  predicate InReach(lane: Lane, now: int)
    requires lane.lead.Some?
  {
    NeedsReplay(lane) ==>
      lane.picked || (Replayable(lane.lead.value) && lane.lead.value.createdAt >= now - REPLAY_MAX_AGE_MS)
  }

  predicate PastFloor(lane: Lane, now: int)
    requires lane.lead.Some?
  {
    lane.lead.value.createdAt < now - REPLAY_MIN_AGE_MS
  }

  /** The step that brings an owed notification closer. */
  function NextAct(lane: Lane): Act {
    match lane.job
    case None => if lane.picked then ReAdd else Pick
    case Some(job) =>
      match job.state
      case Waiting => Start
      case Delayed => Promote
      case Failed => Retry
      case Completed => if !lane.picked then Pick else if !lane.cleared then Inspect else Remove
      case Active(Started) => Load
      case Active(Before(kind, done, _)) => if kind in done then Skip else Send(Accept)
      case Active(Accepted(_, _, _)) => Stamp
      case Active(Finished(_)) => Return
  }

  /** How many such steps are left at most. */
  function Distance(lane: Lane): nat {
    match lane.job
    case None => if lane.picked then 5 else 6
    case Some(job) =>
      match job.state
      case Active(Accepted(Notify, _, _)) => 1
      case Active(Before(Notify, _, _)) => 2
      case Active(Started) => 3
      case Waiting => 4
      case Delayed | Failed => 5
      case Completed => if !lane.picked then 8 else if !lane.cleared then 7 else 6
      case Active(Finished(_)) => 9
      case Active(Accepted(Confirm, _, _)) => 10
      case Active(Before(Confirm, _, _)) => 11
  }

  /** What the next step leaves: the stamp, or a lane that is closer to it. */
  predicate Closer(lane: Lane, next: Lane, now: int) {
    Notified(next) || (Owed(next) && InReach(next, now) && PastFloor(next, now) && Distance(next) < Distance(lane))
  }

  lemma AttemptCloser(lane: Lane, now: int)
    requires LaneOk(lane) && Owed(lane) && InReach(lane, now) && PastFloor(lane, now) && ActivePhase(lane).Some?
    ensures var act := NextAct(lane);
            && IsRecoveryAct(act) && IsAttemptAct(act)
            && AttemptStep(lane, act).Some? && Closer(lane, AttemptStep(lane, act).value, now)
  {
  }

  lemma QueueCloser(lane: Lane, now: int)
    requires LaneOk(lane) && Owed(lane) && InReach(lane, now) && PastFloor(lane, now) && ActivePhase(lane).None?
    ensures var act := NextAct(lane);
            && IsRecoveryAct(act) && !IsAttemptAct(act)
            && QueueStep(lane, act, now).Some? && Closer(lane, QueueStep(lane, act, now).value, now)
  {
  }

  lemma OneStepCloser(lane: Lane, now: int)
    requires LaneOk(lane) && Owed(lane) && InReach(lane, now) && PastFloor(lane, now)
    ensures IsRecoveryAct(NextAct(lane)) && LaneStep(lane, NextAct(lane), now).Some?
    ensures var next := LaneStep(lane, NextAct(lane), now).value;
            LaneOk(next) && Closer(lane, next, now)
  {
    var act := NextAct(lane);
    if ActivePhase(lane).Some? {
      AttemptCloser(lane, now);
      AttemptStepKeeps(lane, act, AttemptStep(lane, act).value);
    } else {
      QueueCloser(lane, now);
      QueueStepKeeps(lane, act, now, QueueStep(lane, act, now).value);
    }
  }

  lemma StepsToNotified(lane: Lane, now: int) returns (acts: seq<Act>)
    requires LaneOk(lane) && Owed(lane) && InReach(lane, now) && PastFloor(lane, now)
    ensures forall act <- acts :: IsRecoveryAct(act)
    ensures RunLane(lane, acts, now).Some? && Notified(RunLane(lane, acts, now).value)
    decreases Distance(lane)
  {
    OneStepCloser(lane, now);
    var next := LaneStep(lane, NextAct(lane), now).value;
    var rest := [];
    if Notified(next) {
      assert RunLane(next, rest, now) == Some(next);
    } else {
      rest := StepsToNotified(next, now);
    }
    acts := [NextAct(lane)] + rest;
    assert acts[1..] == rest;
  }

  /** A run in which only time passes and only this lead's recovery steps happen, ending with the stamp. */
  ghost predicate Recovers(w: World, events: seq<Event>, id: string) {
    && (forall e <- events :: e.Tick? || (e.On? && e.id == id && IsRecoveryAct(e.act)))
    && Run(w, events).Some?
    && id in Run(w, events).value.lanes && Notified(Run(w, events).value.lanes[id])
  }

  /** Out of reach, no recovery step brings the notification closer. */
  lemma StaysOutOfReach(lane: Lane, act: Act, now: int, next: Lane)
    requires LaneOk(lane) && Owed(lane) && !InReach(lane, now)
    requires IsRecoveryAct(act) && LaneStep(lane, act, now) == Some(next)
    ensures LaneOk(next) && Owed(next) && !InReach(next, now)
  {
    if IsAttemptAct(act) { AttemptStepKeeps(lane, act, next); } else { QueueStepKeeps(lane, act, now, next); }
  }

  lemma {:induction false} OutOfReachForGood(w: World, events: seq<Event>, id: string)
    requires id in w.lanes && LaneOk(w.lanes[id]) && Owed(w.lanes[id]) && !InReach(w.lanes[id], w.now)
    ensures !Recovers(w, events, id)
    decreases |events|
  {
    if events != [] && Recovers(w, events, id) {
      var next := Step(w, events[0]).value;
      assert events[0] in events;
      if events[0].On? { StaysOutOfReach(w.lanes[id], events[0].act, w.now, next.lanes[id]); }
      OutOfReachForGood(next, events[1..], id);
      assert Recovers(next, events[1..], id);
    }
  }

  /**
   * Exactly which owed leads can still be notified when nothing more fails: those the worker or
   * `queue:retry` gets to, and of the others - no job, a completed one, or an attempt that has
   * recorded `notify:unconfigured` and will complete - those a replay holds already, or whose
   * reason its query returns before the 30-day ceiling.
   */
  lemma RecoverableIff(w: World, id: string)
    requires id in w.lanes && LaneOk(w.lanes[id]) && Owed(w.lanes[id])
    ensures (exists events :: Recovers(w, events, id)) <==> InReach(w.lanes[id], w.now)
  {
    var lane := w.lanes[id];
    if InReach(lane, w.now) {
      var floor := lane.lead.value.createdAt + REPLAY_MIN_AGE_MS + 1;
      var wait := if floor > w.now then floor - w.now else 0;
      var later := w.(now := w.now + wait);
      var acts := StepsToNotified(lane, later.now);
      RunLaneIsRun(later, id, acts);
      var events := [Tick(wait)] + OnLane(id, acts);
      assert events[1..] == OnLane(id, acts);
      assert Recovers(w, events, id);
    } else {
      forall events ensures !Recovers(w, events, id) { OutOfReachForGood(w, events, id); }
    }
  }

  /** A lead that is not stranded is out of reach only past the ceiling. */
  lemma VisibleMeansInReach(lane: Lane, now: int)
    requires LaneOk(lane) && Owed(lane) && !Stranded(lane)
    requires lane.lead.value.createdAt >= now - REPLAY_MAX_AGE_MS
    ensures InReach(lane, now)
  {
  }

  /**
   * After every run in which no replay removed a record it may no longer replay, every owed lead inside
   * the ceiling can still be notified by the worker and the two operator commands.
   */
  lemma GuardedRunsRecover(events: seq<Event>, w: World, id: string)
    requires Run(GENESIS, events) == Some(w) && Guarded(GENESIS, events)
    requires id in w.lanes && Owed(w.lanes[id])
    requires w.lanes[id].lead.value.createdAt >= w.now - REPLAY_MAX_AGE_MS
    ensures exists more :: Recovers(w, more, id)
  {
    VisibleIffGuarded(GENESIS, events);
    NeverStrandedAtEnd(GENESIS, events);
    VisibleMeansInReach(w.lanes[id], w.now);
    RecoverableIff(w, id);
  }

  // ---------------------------------------------------------------- what recovery cannot do

  lemma {:induction false} StrandedForever(w: World, events: seq<Event>, id: string)
    requires id in w.lanes && Stranded(w.lanes[id]) && !w.lanes[id].picked
    requires On(id, Enqueue) !in events && On(id, Delete) !in events
    requires Run(w, events).Some?
    ensures var end := Run(w, events).value;
            id in end.lanes && Stranded(end.lanes[id]) && !end.lanes[id].picked
    decreases |events|
  {
    if events != [] {
      var next := Step(w, events[0]).value;
      if events[0].On? && events[0].id == id {
        assert events[0] in events;
      }
      StrandedForever(next, events[1..], id);
    }
  }

  // ---------------------------------------------------------------- two concrete runs

  /** One attempt in which the provider answers non-2xx to both sends. */
  const REFUSED_ATTEMPT: seq<Act> :=
    [Start, Load, Send(Refuse(Provider, false)), Send(Refuse(Provider, false)), Return]

  /** `RFQ_JOB_OPTIONS.backoff`: exponential, from five seconds. */
  function Backoff(made: nat): nat {
    if made <= 1 then 5000 else 2 * Backoff(made - 1)
  }

  function TriedLane(attempts: nat, state: JobState, reasons: map<DeliveryKind, FailureCode>, picked: bool): Lane {
    Lane(Some(Lead(0, {}, reasons)), Some(Job(attempts, state)), picked, false, NO_TALLY, NO_TALLY)
  }

  lemma Unfold(lane: Lane, acts: seq<Act>, now: int)
    requires acts != []
    ensures RunLane(lane, acts, now) == match LaneStep(lane, acts[0], now)
                                        case None => None
                                        case Some(next) => RunLane(next, acts[1..], now)
  {
  }

  lemma RefusedAttemptRuns(attempts: nat, picked: bool, now: int)
    requires attempts < ATTEMPTS
    ensures var final := attempts + 1 >= ATTEMPTS;
            RunLane(TriedLane(attempts, Waiting, map[], picked), REFUSED_ATTEMPT, now)
            == Some(TriedLane(attempts + 1, if final then Failed else Delayed,
                              if final then BOTH_REFUSED else map[], picked))
  {
    var refuse := Send(Refuse(Provider, false));
    var final := attempts + 1 >= ATTEMPTS;
    var l0 := TriedLane(attempts, Waiting, map[], picked);
    var l1 := TriedLane(attempts, Active(Started), map[], picked);
    var l2 := TriedLane(attempts, Active(Before(Notify, {}, false)), map[], picked);
    var one: map<DeliveryKind, FailureCode> := if final then map[Notify := Provider] else map[];
    var two: map<DeliveryKind, FailureCode> := if final then BOTH_REFUSED else map[];
    var l3 := TriedLane(attempts, Active(Before(Confirm, {}, true)), one, picked);
    var l4 := TriedLane(attempts, Active(Finished(true)), two, picked);
    Unfold(l0, REFUSED_ATTEMPT, now);
    Unfold(l1, [Load, refuse, refuse, Return], now);
    Unfold(l2, [refuse, refuse, Return], now);
    Unfold(l3, [refuse, Return], now);
    Unfold(l4, [Return], now);
    assert LaneStep(l3, refuse, now) == Some(l4);
  }

  const FRESH: Lane := Lane(Some(Lead(0, {}, map[])), None, false, false, NO_TALLY, NO_TALLY)

  const BOTH_REFUSED: map<DeliveryKind, FailureCode> := map[Notify := Provider, Confirm := Provider]

  function Only(now: int, lane: Lane): World {
    World(now, map["lead" := lane])
  }

  /** Steps of the one lane are a run of the system that has no other. */
  lemma OnlyLaneRuns(now: int, lane: Lane, acts: seq<Act>)
    requires RunLane(lane, acts, now).Some?
    ensures Run(Only(now, lane), OnLane("lead", acts)) == Some(Only(now, RunLane(lane, acts, now).value))
  {
    RunLaneIsRun(Only(now, lane), "lead", acts);
    var end := RunLane(lane, acts, now).value;
    assert Only(now, lane).lanes["lead" := end] == Only(now, end).lanes;
  }

  lemma TickRuns(now: int, lane: Lane, elapsed: nat)
    ensures Run(Only(now, lane), [Tick(elapsed)]) == Some(Only(now + elapsed, lane))
  {
    assert [Tick(elapsed)][1..] == [] && Run(Only(now + elapsed, lane), []) == Some(Only(now + elapsed, lane));
  }

  lemma CommitRuns()
    ensures Run(GENESIS, [Commit("lead")]) == Some(Only(0, FRESH))
  {
    assert GENESIS.lanes["lead" := FRESH] == Only(0, FRESH).lanes;
    assert [Commit("lead")][1..] == [] && Run(Only(0, FRESH), []) == Some(Only(0, FRESH));
  }

  /** A refused attempt, its back-off, and the delayed job coming due. */
  function OneRefusal(made: nat): seq<Event> {
    OnLane("lead", REFUSED_ATTEMPT) + [Tick(Backoff(made + 1))] + OnLane("lead", [Promote])
  }

  function Refusals(n: nat, made: nat): seq<Event> {
    if n == 0 then [] else OneRefusal(made) + Refusals(n - 1, made + 1)
  }

  lemma RunThree(w: World, a: seq<Event>, b: seq<Event>, c: seq<Event>, w1: World, w2: World, w3: World)
    requires Run(w, a) == Some(w1) && Run(w1, b) == Some(w2) && Run(w2, c) == Some(w3)
    ensures Run(w, a + b + c) == Some(w3)
  {
    RunConcat(w, a, b);
    RunConcat(w, a + b, c);
  }

  lemma AttemptRefused(made: nat, now: int)
    requires made + 1 < ATTEMPTS
    ensures Run(Only(now, TriedLane(made, Waiting, map[], false)), OnLane("lead", REFUSED_ATTEMPT))
            == Some(Only(now, TriedLane(made + 1, Delayed, map[], false)))
  {
    RefusedAttemptRuns(made, false, now);
    OnlyLaneRuns(now, TriedLane(made, Waiting, map[], false), REFUSED_ATTEMPT);
  }

  lemma DueRuns(made: nat, now: int)
    ensures Run(Only(now, TriedLane(made, Delayed, map[], false)), OnLane("lead", [Promote]))
            == Some(Only(now, TriedLane(made, Waiting, map[], false)))
  {
    Unfold(TriedLane(made, Delayed, map[], false), [Promote], now);
    OnlyLaneRuns(now, TriedLane(made, Delayed, map[], false), [Promote]);
  }

  lemma OneRefusalRuns(made: nat, now: int)
    requires made + 1 < ATTEMPTS
    ensures Run(Only(now, TriedLane(made, Waiting, map[], false)), OneRefusal(made))
            == Some(Only(now + Backoff(made + 1), TriedLane(made + 1, Waiting, map[], false)))
  {
    var wait := Backoff(made + 1);
    var waiting, delayed := TriedLane(made, Waiting, map[], false), TriedLane(made + 1, Delayed, map[], false);
    AttemptRefused(made, now);
    TickRuns(now, delayed, wait);
    DueRuns(made + 1, now + wait);
    RunThree(Only(now, waiting), OnLane("lead", REFUSED_ATTEMPT), [Tick(wait)], OnLane("lead", [Promote]),
             Only(now, delayed), Only(now + wait, delayed),
             Only(now + wait, TriedLane(made + 1, Waiting, map[], false)));
  }

  lemma BackoffBound(made: nat)
    requires made < ATTEMPTS
    ensures Backoff(made) <= 40000
  {
    assert Backoff(2) == 2 * Backoff(1) && Backoff(3) == 2 * Backoff(2) && Backoff(4) == 2 * Backoff(3);
  }

  lemma {:induction false} RefusalsRun(n: nat, made: nat, now: int) returns (later: int)
    requires made + n < ATTEMPTS
    ensures now <= later <= now + 40000 * n
    ensures Run(Only(now, TriedLane(made, Waiting, map[], false)), Refusals(n, made))
            == Some(Only(later, TriedLane(made + n, Waiting, map[], false)))
  {
    later := now;
    if n > 0 {
      var start := Only(now, TriedLane(made, Waiting, map[], false));
      BackoffBound(made + 1);
      OneRefusalRuns(made, now);
      later := RefusalsRun(n - 1, made + 1, now + Backoff(made + 1));
      RunConcat(start, OneRefusal(made), Refusals(n - 1, made + 1));
    }
  }

  lemma PickRuns(now: int)
    requires REPLAY_MIN_AGE_MS < now <= REPLAY_MAX_AGE_MS
    ensures RunLane(TriedLane(ATTEMPTS - 1, Waiting, map[], false), [Pick], now)
            == Some(TriedLane(ATTEMPTS - 1, Waiting, map[], true))
  {
    Unfold(TriedLane(ATTEMPTS - 1, Waiting, map[], false), [Pick], now);
  }

  lemma RemovedNotAdded(now: int)
    ensures var failed := TriedLane(ATTEMPTS, Failed, BOTH_REFUSED, true);
            RunLane(failed, [Inspect, Remove, Abandon], now)
            == Some(failed.(job := None, cleared := true, picked := false))
  {
    var failed := TriedLane(ATTEMPTS, Failed, BOTH_REFUSED, true);
    Unfold(failed, [Inspect, Remove, Abandon], now);
    Unfold(failed.(cleared := true), [Remove, Abandon], now);
    Unfold(failed.(job := None, cleared := true), [Abandon], now);
  }

  /** What the replay and the worker do to a lead whose last attempt is still to come. */
  const PICK_REFUSE_REMOVE: seq<Act> := [Pick] + REFUSED_ATTEMPT + [Inspect, Remove, Abandon]

  lemma PickRefuseRemove(now: int)
    requires REPLAY_MIN_AGE_MS < now <= REPLAY_MAX_AGE_MS
    ensures RunLane(TriedLane(ATTEMPTS - 1, Waiting, map[], false), PICK_REFUSE_REMOVE, now)
            == Some(TriedLane(ATTEMPTS, Failed, BOTH_REFUSED, false).(job := None, cleared := true))
  {
    var last := TriedLane(ATTEMPTS - 1, Waiting, map[], false);
    PickRuns(now);
    RefusedAttemptRuns(ATTEMPTS - 1, true, now);
    RunLaneConcat(last, [Pick], REFUSED_ATTEMPT, now);
    RemovedNotAdded(now);
    RunLaneConcat(last, [Pick] + REFUSED_ATTEMPT, [Inspect, Remove, Abandon], now);
  }

  /** A new lead whose job has been refused four times and waits for its last attempt. */
  lemma RefusedFourTimes() returns (events: seq<Event>, now: int)
    ensures 0 <= now <= 160000
    ensures Run(GENESIS, events) == Some(Only(now, TriedLane(ATTEMPTS - 1, Waiting, map[], false)))
  {
    var queued := TriedLane(0, Waiting, map[], false);
    CommitRuns();
    Unfold(FRESH, [Enqueue], 0);
    OnlyLaneRuns(0, FRESH, [Enqueue]);
    now := RefusalsRun(ATTEMPTS - 1, 0, 0);
    events := [Commit("lead")] + OnLane("lead", [Enqueue]) + Refusals(ATTEMPTS - 1, 0);
    RunThree(GENESIS, [Commit("lead")], OnLane("lead", [Enqueue]), Refusals(ATTEMPTS - 1, 0), Only(0, FRESH),
             Only(0, queued), Only(now, TriedLane(ATTEMPTS - 1, Waiting, map[], false)));
  }

  /**
   * Running the replay is not always safe. Four attempts are refused, each followed by its back-off;
   * the worker is away until the lead is past the age floor; the query picks the lead while its job
   * waits; the last attempt then records `notify:provider` and the job moves to the failed set; the
   * replay sees a failed record and removes it; the add does not happen. The lead is owed its
   * notification, has no job, and its reason is one the query never returns.
   */
  lemma ReplayCanStrand() returns (events: seq<Event>, w: World)
    ensures Run(GENESIS, events) == Some(w)
    ensures "lead" in w.lanes && Stranded(w.lanes["lead"]) && !w.lanes["lead"].picked
    ensures !Guarded(GENESIS, events)
  {
    var refused, last := RefusedFourTimes();
    var now := last + REPLAY_MIN_AGE_MS + 1;
    var waiting, wait := TriedLane(ATTEMPTS - 1, Waiting, map[], false), [Tick(REPLAY_MIN_AGE_MS + 1)];
    TickRuns(last, waiting, REPLAY_MIN_AGE_MS + 1);
    PickRefuseRemove(now);
    OnlyLaneRuns(now, waiting, PICK_REFUSE_REMOVE);
    var lane := TriedLane(ATTEMPTS, Failed, BOTH_REFUSED, false).(job := None, cleared := true);
    w := Only(now, lane);
    events := refused + wait + OnLane("lead", PICK_REFUSE_REMOVE);
    RunThree(GENESIS, refused, wait, OnLane("lead", PICK_REFUSE_REMOVE), Only(last, waiting), Only(now, waiting), w);
    assert Notify in BOTH_REFUSED && BOTH_REFUSED[Notify] == Provider;
    StrandedIsUnguarded(events, w, "lead");
  }

  lemma StrandedIsUnguarded(events: seq<Event>, w: World, id: string)
    requires Run(GENESIS, events) == Some(w) && id in w.lanes && Stranded(w.lanes[id])
    ensures !Guarded(GENESIS, events)
  {
    if Guarded(GENESIS, events) {
      VisibleIffGuarded(GENESIS, events);
      NeverStrandedAtEnd(GENESIS, events);
    }
  }

  /** The provider accepts the notification, but its answer does not arrive; the confirmation goes out. */
  const NOTIFY_UNHEARD: seq<Act> := [Enqueue, Start, Load, Send(Refuse(Transport, true))]
  const CONFIRM_SENT: seq<Act> := [Send(Accept), Stamp, Return]
  const RETRY: seq<Act> := [Promote, Start, Load, Send(Accept), Stamp]

  const UNHEARD: Lane :=
    FRESH.(notify := Tally(1, 0, 0, 1), job := Some(Job(0, Active(Before(Confirm, {}, true)))))

  lemma NotifyUnheardRuns(now: int)
    ensures RunLane(FRESH, NOTIFY_UNHEARD, now) == Some(UNHEARD)
  {
    var l1 := FRESH.(job := Some(Job(0, Waiting)));
    var l2 := FRESH.(job := Some(Job(0, Active(Started))));
    var l3 := FRESH.(job := Some(Job(0, Active(Before(Notify, {}, false)))));
    Unfold(FRESH, NOTIFY_UNHEARD, now);
    Unfold(l1, [Start, Load, Send(Refuse(Transport, true))], now);
    Unfold(l2, [Load, Send(Refuse(Transport, true))], now);
    Unfold(l3, [Send(Refuse(Transport, true))], now);
  }

  lemma ConfirmSentRuns(now: int)
    ensures RunLane(UNHEARD, CONFIRM_SENT, now)
            == Some(Lane(Some(Lead(0, {Confirm}, map[])), Some(Job(1, Delayed)), false, false,
                         Tally(1, 0, 0, 1), Tally(1, 1, 0, 0)))
  {
    var window := UNHEARD.(job := Some(Job(0, Active(Accepted(Confirm, {}, true)))), confirm := Tally(1, 0, 0, 0));
    var done := window.(job := Some(Job(0, Active(Finished(true)))), confirm := Tally(1, 1, 0, 0),
                        lead := Some(Lead(0, {Confirm}, map[])));
    var none: map<DeliveryKind, FailureCode> := map[];
    assert none - {Confirm} == none && {} + {Confirm} == {Confirm};
    assert LaneStep(window, Stamp, now) == Some(done);
    Unfold(UNHEARD, CONFIRM_SENT, now);
    Unfold(window, [Stamp, Return], now);
    Unfold(done, [Return], now);
  }

  lemma FirstAttempt() returns (events: seq<Event>, lane: Lane)
    ensures Run(GENESIS, events) == Some(Only(0, lane)) && lane.notify == Tally(1, 0, 0, 1)
    ensures Owed(lane) && lane.job == Some(Job(1, Delayed))
  {
    CommitRuns();
    NotifyUnheardRuns(0);
    ConfirmSentRuns(0);
    RunLaneConcat(FRESH, NOTIFY_UNHEARD, CONFIRM_SENT, 0);
    OnlyLaneRuns(0, FRESH, NOTIFY_UNHEARD + CONFIRM_SENT);
    RunConcat(GENESIS, [Commit("lead")], OnLane("lead", NOTIFY_UNHEARD + CONFIRM_SENT));
    lane := RunLane(FRESH, NOTIFY_UNHEARD + CONFIRM_SENT, 0).value;
    events := [Commit("lead")] + OnLane("lead", NOTIFY_UNHEARD + CONFIRM_SENT);
  }

  lemma RetryDelivers(lane: Lane, now: int) returns (end: Lane)
    requires Owed(lane) && lane.job.Some? && lane.job.value.state.Delayed?
    ensures Run(Only(now, lane), OnLane("lead", RETRY)) == Some(Only(now, end))
    ensures end.notify.accepted == lane.notify.accepted + 1 && end.notify.lost == lane.notify.lost
  {
    var waiting := LaneStep(lane, Promote, now).value;
    var started := LaneStep(waiting, Start, now).value;
    var loaded := LaneStep(started, Load, now).value;
    var accepted := LaneStep(loaded, Send(Accept), now).value;
    end := LaneStep(accepted, Stamp, now).value;
    Unfold(lane, RETRY, now);
    Unfold(waiting, [Start, Load, Send(Accept), Stamp], now);
    Unfold(started, [Load, Send(Accept), Stamp], now);
    Unfold(loaded, [Send(Accept), Stamp], now);
    Unfold(accepted, [Stamp], now);
    OnlyLaneRuns(now, lane, RETRY);
  }

  /**
   * No crash and no exception is needed for a second accepted send: a provider that accepts but answers too late is
   * recorded as `transport`, and the retry sends again.
   */
  lemma UnheardAcceptSendsTwice() returns (events: seq<Event>, w: World)
    ensures Run(GENESIS, events) == Some(w) && "lead" in w.lanes
    ensures CountSteps(GENESIS, events, "lead", (l, a) => LosesStamp(l, a, Notify)) == 0
    ensures CountSteps(GENESIS, events, "lead", (l, a) => Accepts(l, a, Notify)) == 2
  {
    var first, delayed := FirstAttempt();
    TickRuns(0, delayed, Backoff(1));
    var end := RetryDelivers(delayed, Backoff(1));
    w := Only(Backoff(1), end);
    RunThree(GENESIS, first, [Tick(Backoff(1))], OnLane("lead", RETRY), Only(0, delayed), Only(Backoff(1), delayed), w);
    events := first + [Tick(Backoff(1))] + OnLane("lead", RETRY);
    TalliesCount(GENESIS, events, "lead", Notify);
  }
}
