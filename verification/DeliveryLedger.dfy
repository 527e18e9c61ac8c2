/**
 * What the rows and jobs of the delivery protocol say about their own past: which code a failure
 * column holds, how often a job has been tried, and when it completes. The past is read off the
 * events of a run; nothing here looks at how the steps compute.
 */
module DeliveryLedger {
  import opened Prelude
  import opened FailureColumn
  import opened Delivery
  import opened DeliverySafety

  // ---------------------------------------------------------------- the reason of a failure

  function ReasonOf(lane: Lane, kind: DeliveryKind): Option<FailureCode> {
    if lane.lead.Some? && kind in lane.lead.value.reasons then Some(lane.lead.value.reasons[kind]) else None
  }

  /** What one step adds to the reason of one kind of email, from what it was before. */
  function Noted(lane: Lane, act: Act, kind: DeliveryKind, before: Option<FailureCode>): Option<FailureCode> {
    match ActivePhase(lane)
    case Some(Before(k, _, _)) =>
      if k != kind then before
      else if act == LackConfig then Some(Unconfigured)
      else if act.Send? && act.result.Refuse? && lane.job.value.attemptsMade >= 4 then Some(act.result.code)
      else before
    case Some(Accepted(k, _, _)) => if k == kind && act == Stamp then None else before
    case _ => before
  }

  /** The reason after a run: the last one noted and not stamped away since. */
  function ReasonAfter(w: World, events: seq<Event>, id: string, kind: DeliveryKind, before: Option<FailureCode>)
    : Option<FailureCode>
    decreases |events|
  {
    if events == [] then before
    else match Step(w, events[0])
      case None => before
      case Some(next) =>
        var mine := events[0].On? && events[0].id == id && id in w.lanes;
        var noted := if mine then Noted(w.lanes[id], events[0].act, kind, before) else before;
        ReasonAfter(next, events[1..], id, kind, noted)
  }

  lemma StepNotes(lane: Lane, act: Act, now: int, next: Lane, kind: DeliveryKind)
    requires LaneStep(lane, act, now) == Some(next) && next.lead.Some?
    ensures ReasonOf(next, kind) == Noted(lane, act, kind, ReasonOf(lane, kind))
  {
    if act.Send? {
      SendNotes(lane, act.result, next, kind);
    }
  }

  lemma SendNotes(lane: Lane, result: SendResult, next: Lane, kind: DeliveryKind)
    requires AttemptStep(lane, Send(result)) == Some(next) && next.lead.Some?
    ensures ReasonOf(next, kind) == Noted(lane, Send(result), kind, ReasonOf(lane, kind))
  {
  }

  lemma {:induction false} GoneStaysGone(w: World, events: seq<Event>, id: string)
    requires id in w.lanes && w.lanes[id].lead.None? && Run(w, events).Some?
    ensures id in Run(w, events).value.lanes && Run(w, events).value.lanes[id].lead.None?
    decreases |events|
  {
    if events != [] { GoneStaysGone(Step(w, events[0]).value, events[1..], id); }
  }

  lemma {:induction false} ReasonsAreNoted(w: World, events: seq<Event>, id: string, kind: DeliveryKind)
    requires Run(w, events).Some? && id in w.lanes
    requires id in Run(w, events).value.lanes && Run(w, events).value.lanes[id].lead.Some?
    ensures ReasonOf(Run(w, events).value.lanes[id], kind)
            == ReasonAfter(w, events, id, kind, ReasonOf(w.lanes[id], kind))
    decreases |events|
  {
    if events != [] {
      var next := Step(w, events[0]).value;
      if next.lanes[id].lead.None? { GoneStaysGone(next, events[1..], id); }
      if events[0].On? && events[0].id == id { StepNotes(w.lanes[id], events[0].act, w.now, next.lanes[id], kind); }
      ReasonsAreNoted(next, events[1..], id, kind);
    }
  }

  /**
   * Over every run, what a row says about one kind of email is the code of the last final refusal of
   * it, or `unconfigured` if the last word was that it could not be tried, and nothing once it was
   * stamped.
   */
  lemma {:induction false} ReasonIsLastNoted(w: World, events: seq<Event>, id: string, kind: DeliveryKind)
    requires id !in w.lanes && Run(w, events).Some?
    requires id in Run(w, events).value.lanes && Run(w, events).value.lanes[id].lead.Some?
    ensures ReasonOf(Run(w, events).value.lanes[id], kind) == ReasonAfter(w, events, id, kind, None)
    decreases |events|
  {
    var next := Step(w, events[0]).value;
    if id in next.lanes {
      ReasonsAreNoted(next, events[1..], id, kind);
    } else {
      ReasonIsLastNoted(next, events[1..], id, kind);
    }
  }

  // ---------------------------------------------------------------- what a step may do to a lead

  /**
   * A replay picks a lead exactly when it is owed its notification, was never tried or could not be,
   * and is older than five minutes but not older than thirty days.
   */
  lemma PickedIff(lane: Lane, now: int)
    ensures LaneStep(lane, Pick, now).Some? <==>
            && lane.lead.Some? && Notify !in lane.lead.value.sent
            && (lane.lead.value.reasons == map[]
                || (Notify in lane.lead.value.reasons && lane.lead.value.reasons[Notify] == Unconfigured))
            && 300_000 < now - lane.lead.value.createdAt <= 2_592_000_000
  {
  }

  /** The email stamped by a step, if it stamps one. */
  function StampedBy(lane: Lane, act: Act): set<DeliveryKind> {
    match ActivePhase(lane)
    case Some(Accepted(kind, _, _)) => if act == Stamp then {kind} else {}
    case _ => {}
  }

  /**
   * Only a deletion takes a lead away, and it always does; only a stamp marks an email as sent, and
   * exactly the one in the window; nothing changes when the lead was made.
   */
  lemma LeadChanges(lane: Lane, act: Act, now: int, next: Lane)
    requires LaneStep(lane, act, now) == Some(next)
    ensures next.lead.Some? <==> lane.lead.Some? && act != Delete
    ensures next.lead.Some? ==> next.lead.value.createdAt == lane.lead.value.createdAt
    ensures next.lead.Some? ==> next.lead.value.sent == lane.lead.value.sent + StampedBy(lane, act)
  {
    if act.Send? { SendKeepsLead(lane, act.result, next); }
  }

  lemma SendKeepsLead(lane: Lane, result: SendResult, next: Lane)
    requires AttemptStep(lane, Send(result)) == Some(next)
    ensures next.lead.Some? == lane.lead.Some?
    ensures next.lead.Some? ==>
              next.lead.value.createdAt == lane.lead.value.createdAt && next.lead.value.sent == lane.lead.value.sent
  {
  }

  /** When a lead was committed, by the clock of the run. */
  function CommitTime(w: World, events: seq<Event>, id: string): Option<int>
    decreases |events|
  {
    if events == [] then None
    else match Step(w, events[0])
      case None => None
      case Some(next) =>
        if events[0] == Commit(id) then Some(w.now) else CommitTime(next, events[1..], id)
  }

  lemma {:induction false} CreatedStays(w: World, events: seq<Event>, id: string)
    requires Run(w, events).Some? && id in w.lanes && w.lanes[id].lead.Some?
    ensures var end := Run(w, events).value;
            id in end.lanes
            && (end.lanes[id].lead.Some? ==> end.lanes[id].lead.value.createdAt == w.lanes[id].lead.value.createdAt)
    decreases |events|
  {
    if events != [] {
      var next := Step(w, events[0]).value;
      if events[0].On? && events[0].id == id { LeadChanges(w.lanes[id], events[0].act, w.now, next.lanes[id]); }
      if next.lanes[id].lead.Some? {
        CreatedStays(next, events[1..], id);
      } else {
        GoneStaysGone(next, events[1..], id);
      }
    }
  }

  /** A lead's age counts from its commit, whatever happened to it since. */
  lemma {:induction false} AgeIsSinceCommit(w: World, events: seq<Event>, id: string)
    requires Run(w, events).Some? && id !in w.lanes
    requires id in Run(w, events).value.lanes && Run(w, events).value.lanes[id].lead.Some?
    ensures CommitTime(w, events, id) == Some(Run(w, events).value.lanes[id].lead.value.createdAt)
    decreases |events|
  {
    var next := Step(w, events[0]).value;
    if events[0] == Commit(id) {
      CreatedStays(next, events[1..], id);
    } else {
      AgeIsSinceCommit(next, events[1..], id);
    }
  }

  /**
   * What may happen to a job at any time, whatever else is true: a running attempt may throw or lose
   * its worker; a finished record of a completed job may be evicted; a dead-lettered one may be
   * retried; and a lead may be deleted.
   */
  lemma AlwaysPossible(lane: Lane, now: int, stalledOut: bool)
    ensures LaneStep(lane, Throw, now).Some? <==> ActivePhase(lane).Some?
    ensures LaneStep(lane, Crash(stalledOut), now).Some? <==> ActivePhase(lane).Some?
    ensures LaneStep(lane, Evict, now).Some? <==> lane.job.Some? && lane.job.value.state.Completed?
    ensures LaneStep(lane, Retry, now).Some? <==> lane.job.Some? && lane.job.value.state.Failed?
    ensures LaneStep(lane, Enqueue, now).Some? && LaneStep(lane, Delete, now).Some?
    ensures LaneStep(lane, Remove, now).Some? ==> ActivePhase(lane).None?
    ensures ActivePhase(lane).Some? ==>
              LaneStep(lane, Crash(stalledOut), now).value.job
              == Some(lane.job.value.(state := if stalledOut then Failed else Waiting))
    ensures LaneStep(lane, Evict, now).Some? ==> LaneStep(lane, Evict, now).value.job == None
  {
  }

  // ---------------------------------------------------------------- attempts

  /**
   * Of the running attempt: whether it found its lead, which emails it is done with - already stamped,
   * stamped now, refused, or not configured - and whether a send was refused. Of its job: how many
   * attempts have failed since it was added.
   */
  datatype Ledger = Ledger(found: bool, handled: set<DeliveryKind>, refused: bool, failures: nat)

  const NO_LEDGER := Ledger(false, {}, false, 0)

  /** The email a step is the last word on in this attempt. */
  function HandledBy(lane: Lane, act: Act): set<DeliveryKind> {
    match ActivePhase(lane)
    case Some(Before(kind, _, _)) =>
      if act.Skip? || act.LackConfig? || (act.Send? && act.result.Refuse?) then {kind} else {}
    case Some(Accepted(kind, _, _)) => if act.Stamp? then {kind} else {}
    case _ => {}
  }

  predicate FailsAttempt(lane: Lane, act: Act, b: Ledger) {
    match ActivePhase(lane)
    case None => false
    case Some(phase) =>
      || act.Throw?
      || (act.Return? && b.refused)
      || (act.Send? && act.result.Refuse? && b.failures >= 4 && lane.lead.None?)
  }

  function Booked(lane: Lane, act: Act, b: Ledger): Ledger {
    var refused :=
      if act.Load? then false
      else if ActivePhase(lane).Some? && act.Send? && act.result.Refuse? then true
      else b.refused;
    var failures :=
      if (act.Enqueue? || act.ReAdd?) && lane.job.None? then 0
      else if FailsAttempt(lane, act, b) then b.failures + 1
      else b.failures;
    var found := if act.Load? then lane.lead.Some? else b.found;
    var handled := if act.Load? then {} else b.handled + HandledBy(lane, act);
    Ledger(found, handled, refused, failures)
  }

  function LedgerAfter(w: World, events: seq<Event>, id: string, b: Ledger): Ledger
    decreases |events|
  {
    if events == [] then b
    else match Step(w, events[0])
      case None => b
      case Some(next) =>
        var mine := events[0].On? && events[0].id == id && id in w.lanes;
        LedgerAfter(next, events[1..], id, if mine then Booked(w.lanes[id], events[0].act, b) else b)
  }

  /** The emails an attempt is done with before it turns to this one. */
  function Ahead(kind: DeliveryKind): set<DeliveryKind> {
    match kind case Notify => {} case Confirm => {Notify}
  }

  /** The ledger is right about the attempt that is running and the job it belongs to. */
  predicate Agrees(lane: Lane, b: Ledger) {
    && (lane.job.Some? ==> lane.job.value.attemptsMade == b.failures)
    && match ActivePhase(lane)
       case Some(Before(kind, _, retry)) => retry == b.refused && b.found && b.handled == Ahead(kind)
       case Some(Accepted(kind, _, retry)) => retry == b.refused && b.found && b.handled == Ahead(kind)
       case Some(Finished(retry)) => retry == b.refused && b.handled == if b.found then {Notify, Confirm} else {}
       case _ => true
  }

  lemma AttemptBooks(lane: Lane, act: Act, next: Lane, b: Ledger)
    requires LaneOk(lane) && Agrees(lane, b) && AttemptStep(lane, act) == Some(next)
    ensures Agrees(next, Booked(lane, act, b))
  {
  }

  lemma QueueBooks(lane: Lane, act: Act, now: int, next: Lane, b: Ledger)
    requires Agrees(lane, b) && QueueStep(lane, act, now) == Some(next)
    ensures Agrees(next, Booked(lane, act, b))
  {
  }

  lemma {:induction false} LedgerHolds(w: World, events: seq<Event>, id: string, b: Ledger)
    requires WorldOk(w) && Run(w, events).Some? && (id in w.lanes ==> Agrees(w.lanes[id], b))
    ensures id in Run(w, events).value.lanes ==> Agrees(Run(w, events).value.lanes[id], LedgerAfter(w, events, id, b))
    decreases |events|
  {
    if events != [] {
      var next := Step(w, events[0]).value;
      StepKeeps(w, events[0], next);
      var booked := b;
      if events[0].On? && events[0].id == id {
        var lane, act := w.lanes[id], events[0].act;
        if IsAttemptAct(act) {
          AttemptBooks(lane, act, next.lanes[id], b);
        } else {
          QueueBooks(lane, act, w.now, next.lanes[id], b);
        }
        booked := Booked(lane, act, b);
      }
      LedgerHolds(next, events[1..], id, booked);
    }
  }

  /** What becomes of a job after one more failed attempt: it is due again until five have failed. */
  function AfterFailure(failures: nat): JobState {
    if failures < 4 then Delayed else Failed
  }

  /**
   * Over every run: an attempt that found its lead returns only when it is done with both emails,
   * whatever became of the first. It completes its job exactly when none of its sends was refused - an
   * email already stamped, sent, or not configured is no reason to try again - and otherwise counts as
   * failed, as one that throws always does; the fifth failure is the last.
   */
  lemma AttemptEnds(events: seq<Event>, w: World, id: string, act: Act, next: Lane)
    requires Run(GENESIS, events) == Some(w) && id in w.lanes
    requires act in {Return, Throw} && LaneStep(w.lanes[id], act, w.now) == Some(next)
    ensures var b := LedgerAfter(GENESIS, events, id, NO_LEDGER);
            && (act == Return && b.found ==> b.handled == {Notify, Confirm})
            && next.job.Some?
            && next.job.value.state == (if act == Return && !b.refused then Completed else AfterFailure(b.failures))
            && next.job.value.attemptsMade == b.failures + if act == Return && !b.refused then 0 else 1
  {
    LedgerHolds(GENESIS, events, id, NO_LEDGER);
  }
}
