/**
 * The RFQ delivery protocol: a lead is committed first, an enqueue may or may not follow, a worker
 * sends two emails with one stamp each, and two operator commands recover what was left behind
 * (src/server/rfq/notify.ts, src/lib/queue.ts, src/server/queue/worker-runtime.ts,
 * scripts/queue-ops.ts, src/server/repositories/lead.ts).
 *
 * Everything about one lead - its row, the one job record BullMQ keeps under its id, what a
 * running replay knows about it - is a `Lane`. A run is any interleaving of single steps on any
 * lanes; a crash is one of the steps and may fall between any other two.
 */
module Delivery {
  import opened Prelude
  import opened FailureColumn

  const REPLAY_MIN_AGE_MS: int := 5 * 60 * 1000
  const REPLAY_MAX_AGE_MS: int := 30 * 24 * 60 * 60 * 1000
  /** `RFQ_JOB_OPTIONS.attempts`. */
  const ATTEMPTS: nat := 5

  // ---------------------------------------------------------------- state

  /** The delivery columns of one row; `reasons` is the failure column read as a map. */
  datatype Lead = Lead(createdAt: int, sent: set<DeliveryKind>, reasons: map<DeliveryKind, FailureCode>)

  /** Where a running attempt is. `done` is the stamps as the attempt read them when it began. */
  datatype Phase =
    | Started
    | Before(kind: DeliveryKind, done: set<DeliveryKind>, retry: bool)
    | Accepted(kind: DeliveryKind, done: set<DeliveryKind>, retry: bool)
    | Finished(retry: bool)

  datatype JobState = Waiting | Delayed | Active(phase: Phase) | Completed | Failed
  datatype Job = Job(attemptsMade: nat, state: JobState)

  /**
   * What has happened to one kind of email so far: how many the provider accepted, how many
   * stamps were written, how many attempts ended between an accept and its stamp, and how many
   * accepts the worker never heard of because the answer did not arrive.
   */
  datatype Tally = Tally(accepted: nat, stamped: nat, lost: nat, silent: nat)

  datatype Lane = Lane(
    lead: Option<Lead>, job: Option<Job>,
    picked: bool, cleared: bool,
    notify: Tally, confirm: Tally)

  const NO_TALLY := Tally(0, 0, 0, 0)

  function TallyOf(lane: Lane, kind: DeliveryKind): Tally {
    match kind case Notify => lane.notify case Confirm => lane.confirm
  }

  function SetTally(lane: Lane, kind: DeliveryKind, t: Tally): Lane {
    match kind case Notify => lane.(notify := t) case Confirm => lane.(confirm := t)
  }

  // ---------------------------------------------------------------- steps

  /** `silent` is a send the provider accepted although the worker saw no answer (`transport`). */
  datatype SendResult = Accept | Refuse(code: FailureCode, silent: bool)

  datatype Act =
    | Enqueue                       // the request path, or a late-landing timed-out enqueue
    | Promote                       // BullMQ: a delayed job is due
    | Start                         // the worker takes a waiting job
    | Load                          // findLead
    | Skip                          // this kind is already stamped
    | LackConfig                    // no recipient, or the transport is not configured
    | Send(result: SendResult)
    | Stamp                         // markDeliverySent
    | Return                        // the flow returned; BullMQ completes or fails the attempt
    | Throw                         // an exception inside the attempt (a database error, a gone row)
    | Crash(stalledOut: bool)       // the worker died; BullMQ re-queues the job or gives up on it
    | Evict                         // BullMQ: removeOnComplete
    | Retry                         // queue:retry
    | Pick                          // queue:replay: the query returned this lead
    | Inspect                       // queue:replay: getState answered completed or failed
    | Remove                        // queue:replay: existing.remove()
    | ReAdd                         // queue:replay: queue.add
    | Abandon                       // queue:replay: this lead's turn ended without an add
    | Delete                        // deleteLeadWithAttachment

  /** `isFinalAttempt`. */
  predicate IsFinalAttempt(job: Job) {
    job.attemptsMade + 1 >= ATTEMPTS
  }

  /** BullMQ's side of the same count: a failed attempt is retried while attempts remain. */
  function FailAttempt(job: Job): Job {
    var made := job.attemptsMade + 1;
    Job(made, if made < ATTEMPTS then Delayed else Failed)
  }

  /** BullMQ `add` with `jobId`: an existing record under that id makes it a silent no-op. */
  function Add(job: Option<Job>): Option<Job> {
    if job.Some? then job else Some(Job(0, Waiting))
  }

  function After(kind: DeliveryKind, done: set<DeliveryKind>, retry: bool): Phase {
    match kind case Notify => Before(Confirm, done, retry) case Confirm => Finished(retry)
  }

  function SetPhase(lane: Lane, phase: Phase): Lane
    requires lane.job.Some?
  {
    lane.(job := Some(lane.job.value.(state := Active(phase))))
  }

  function Record(lane: Lane, kind: DeliveryKind, code: FailureCode): Lane
    requires lane.lead.Some?
  {
    lane.(lead := Some(lane.lead.value.(reasons := lane.lead.value.reasons[kind := code])))
  }

  /** The replay query's `where` without its age test. */
  predicate Replayable(lead: Lead) {
    Notify !in lead.sent
    && (lead.reasons == map[] || (Notify in lead.reasons && lead.reasons[Notify] == Unconfigured))
  }

  /** `findLeadsAwaitingNotification`. */
  predicate AwaitingNotification(lead: Lead, olderThan: int) {
    Replayable(lead) && lead.createdAt < olderThan
  }

  function ActivePhase(lane: Lane): Option<Phase> {
    if lane.job.Some? && lane.job.value.state.Active? then Some(lane.job.value.state.phase) else None
  }

  /** An attempt that ends between an accept and its stamp leaves a delivered, unstamped email. */
  function LoseWindow(lane: Lane): Lane {
    match ActivePhase(lane)
    case Some(Accepted(kind, _, _)) =>
      var t := TallyOf(lane, kind);
      SetTally(lane, kind, t.(lost := t.lost + 1))
    case _ => lane
  }

  /** One send of `kind`, with everything the flow does on its answer up to (not including) the stamp. */
  function SendStep(lane: Lane, kind: DeliveryKind, done: set<DeliveryKind>, retry: bool, result: SendResult)
    : Option<Lane>
    requires lane.job.Some?
  {
    var t := TallyOf(lane, kind);
    match result
    case Accept =>
      Some(SetPhase(SetTally(lane, kind, t.(accepted := t.accepted + 1)), Accepted(kind, done, retry)))
    case Refuse(code, silent) =>
      if code == Unconfigured || (silent && code != Transport) then None
      else
        var heard := if silent
                     then SetTally(lane, kind, t.(accepted := t.accepted + 1, silent := t.silent + 1))
                     else lane;
        if !IsFinalAttempt(lane.job.value) then Some(SetPhase(heard, After(kind, done, true)))
        else if heard.lead.Some? then Some(SetPhase(Record(heard, kind, code), After(kind, done, true)))
        else Some(heard.(job := Some(FailAttempt(lane.job.value))))  // the update of a gone row throws
  }

  /** The steps of one attempt of `processRfqSubmitted`. */
  function AttemptStep(lane: Lane, act: Act): Option<Lane> {
    match ActivePhase(lane)
    case None => None
    case Some(phase) =>
      match act
      case Load =>
        if !phase.Started? then None
        else if lane.lead.None? then Some(SetPhase(lane, Finished(false)))
        else Some(SetPhase(lane, Before(Notify, lane.lead.value.sent, false)))
      case Skip =>
        if phase.Before? && phase.kind in phase.done
        then Some(SetPhase(lane, After(phase.kind, phase.done, phase.retry))) else None
      case LackConfig =>
        if phase.Before? && phase.kind !in phase.done && lane.lead.Some?
        then Some(SetPhase(Record(lane, phase.kind, Unconfigured), After(phase.kind, phase.done, phase.retry)))
        else None
      case Send(result) =>
        if phase.Before? && phase.kind !in phase.done
        then SendStep(lane, phase.kind, phase.done, phase.retry, result) else None
      case Stamp =>
        if phase.Accepted? && lane.lead.Some? then
          var lead := lane.lead.value;
          var t := TallyOf(lane, phase.kind);
          var stamped := SetTally(lane, phase.kind, t.(stamped := t.stamped + 1));
          Some(SetPhase(stamped.(lead := Some(lead.(sent := lead.sent + {phase.kind},
                                                    reasons := lead.reasons - {phase.kind}))),
                        After(phase.kind, phase.done, phase.retry)))
        else None
      case Return =>
        if !phase.Finished? then None
        else if phase.retry then Some(lane.(job := Some(FailAttempt(lane.job.value))))
        else Some(lane.(job := Some(lane.job.value.(state := Completed))))
      case Throw =>
        Some(LoseWindow(lane).(job := Some(FailAttempt(lane.job.value))))
      case Crash(stalledOut) =>
        Some(LoseWindow(lane).(job := Some(lane.job.value.(state := if stalledOut then Failed else Waiting))))
      case _ => None
  }

  /** The steps BullMQ, the operator commands and the admin take on a job that is not running. */
  function QueueStep(lane: Lane, act: Act, now: int): Option<Lane> {
    match act
    case Enqueue => Some(lane.(job := Add(lane.job)))
    case Promote =>
      if lane.job.Some? && lane.job.value.state.Delayed?
      then Some(lane.(job := Some(lane.job.value.(state := Waiting)))) else None
    case Start =>
      if lane.job.Some? && lane.job.value.state.Waiting?
      then Some(lane.(job := Some(lane.job.value.(state := Active(Started))))) else None
    case Evict =>
      if lane.job.Some? && lane.job.value.state.Completed? then Some(lane.(job := None)) else None
    case Retry =>
      if lane.job.Some? && lane.job.value.state.Failed?
      then Some(lane.(job := Some(lane.job.value.(state := Waiting)))) else None
    case Pick =>
      if lane.lead.Some? && AwaitingNotification(lane.lead.value, now - REPLAY_MIN_AGE_MS)
         && lane.lead.value.createdAt >= now - REPLAY_MAX_AGE_MS
      then Some(lane.(picked := true, cleared := false)) else None
    case Inspect =>
      if lane.picked && lane.job.Some? && (lane.job.value.state.Completed? || lane.job.value.state.Failed?)
      then Some(lane.(cleared := true)) else None
    case Remove =>  // BullMQ refuses to remove a job a worker holds
      if lane.picked && lane.cleared && lane.job.Some? && !lane.job.value.state.Active?
      then Some(lane.(job := None)) else None
    case ReAdd => if lane.picked then Some(lane.(picked := false, job := Add(lane.job))) else None
    case Abandon => if lane.picked then Some(lane.(picked := false)) else None
    case Delete => Some(lane.(lead := None))
    case _ => None
  }

  predicate IsAttemptAct(act: Act) {
    act.Load? || act.Skip? || act.LackConfig? || act.Send? || act.Stamp? || act.Return? || act.Throw? || act.Crash?
  }

  function LaneStep(lane: Lane, act: Act, now: int): Option<Lane> {
    if IsAttemptAct(act) then AttemptStep(lane, act) else QueueStep(lane, act, now)
  }

  // ---------------------------------------------------------------- runs

  datatype World = World(now: int, lanes: map<string, Lane>)

  datatype Event = Tick(elapsed: nat) | Commit(id: string) | On(id: string, act: Act)

  const GENESIS := World(0, map[])

  function Step(w: World, e: Event): Option<World> {
    match e
    case Tick(elapsed) => Some(w.(now := w.now + elapsed))
    case Commit(id) =>
      if id in w.lanes then None
      else Some(w.(lanes := w.lanes[id := Lane(Some(Lead(w.now, {}, map[])), None, false, false, NO_TALLY, NO_TALLY)]))
    case On(id, act) =>
      if id !in w.lanes then None
      else match LaneStep(w.lanes[id], act, w.now)
        case None => None
        case Some(lane) => Some(w.(lanes := w.lanes[id := lane]))
  }

  /** The world a run ends in, or None when some event of the run is not possible where it stands. */
  function Run(w: World, events: seq<Event>): Option<World>
    decreases |events|
  {
    if events == [] then Some(w)
    else match Step(w, events[0])
      case None => None
      case Some(next) => Run(next, events[1..])
  }

  // ---------------------------------------------------------------- what holds

  predicate Live(lane: Lane) {
    lane.job.Some? && (lane.job.value.state.Waiting? || lane.job.value.state.Delayed? || lane.job.value.state.Active?)
  }

  predicate DeadLettered(lane: Lane) {
    lane.job.Some? && lane.job.value.state.Failed?
  }

  /** A lead still owed its notification that no worker and neither operator command would find. */
  predicate Stranded(lane: Lane) {
    lane.lead.Some? && Notify !in lane.lead.value.sent
    && !Live(lane) && !DeadLettered(lane) && !Replayable(lane.lead.value)
  }

  /** One kind of one lead needs no further attempt: stamped, or recorded as never attempted. */
  predicate Settled(lead: Lead, kind: DeliveryKind) {
    kind in lead.sent || (kind in lead.reasons && lead.reasons[kind] == Unconfigured)
  }

  predicate InWindow(lane: Lane, kind: DeliveryKind) {
    match ActivePhase(lane) case Some(Accepted(k, _, _)) => k == kind case _ => false
  }

  /** The conservation law of one kind of email. */
  predicate Accounted(lane: Lane, kind: DeliveryKind) {
    var t := TallyOf(lane, kind);
    && t.accepted == t.stamped + t.lost + t.silent + (if InWindow(lane, kind) then 1 else 0)
    && t.stamped <= 1
    && (lane.lead.Some? ==> (kind in lane.lead.value.sent <==> t.stamped == 1))
  }

  /** What an attempt read when it began is still what the columns say about the kinds ahead of it. */
  predicate Current(lane: Lane, kind: DeliveryKind, done: set<DeliveryKind>) {
    kind in done <==> TallyOf(lane, kind).stamped == 1
  }

  predicate SettledIfPresent(lane: Lane, kind: DeliveryKind) {
    lane.lead.Some? ==> Settled(lane.lead.value, kind)
  }

  predicate PhaseOk(lane: Lane) {
    match ActivePhase(lane)
    case None => true
    case Some(Started) => true
    case Some(Before(Notify, done, retry)) => !retry && Current(lane, Notify, done) && Current(lane, Confirm, done)
    case Some(Before(Confirm, done, retry)) => Current(lane, Confirm, done) && (retry || SettledIfPresent(lane, Notify))
    case Some(Accepted(Notify, done, retry)) =>
      !retry && lane.notify.stamped == 0 && Current(lane, Confirm, done)
    case Some(Accepted(Confirm, done, retry)) =>
      lane.confirm.stamped == 0 && (retry || SettledIfPresent(lane, Notify))
    case Some(Finished(retry)) => retry || (SettledIfPresent(lane, Notify) && SettledIfPresent(lane, Confirm))
  }

  predicate LaneOk(lane: Lane) {
    && PhaseOk(lane)
    && Accounted(lane, Notify) && Accounted(lane, Confirm)
    && (lane.job.Some? && lane.job.value.state.Completed? ==>
          SettledIfPresent(lane, Notify) && SettledIfPresent(lane, Confirm))
  }

  /** The one step that can strand a lead: a replay removes the record of a lead it may no longer replay. */
  predicate Strands(lane: Lane, act: Act) {
    act == Remove && lane.lead.Some? && Notify !in lane.lead.value.sent && !Replayable(lane.lead.value)
  }
}
