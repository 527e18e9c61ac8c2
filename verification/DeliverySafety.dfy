/** What every step and every run of the delivery protocol keeps: recovery completeness and exact counts. */
module DeliverySafety {
  import opened Prelude
  import opened FailureColumn
  import opened Delivery

  lemma AcceptKeeps(lane: Lane, kind: DeliveryKind, done: set<DeliveryKind>, retry: bool, next: Lane)
    requires LaneOk(lane) && ActivePhase(lane) == Some(Before(kind, done, retry)) && kind !in done
    requires SendStep(lane, kind, done, retry, Accept) == Some(next)
    ensures LaneOk(next)
  {
  }

  lemma RefuseKeepsNotify(lane: Lane, done: set<DeliveryKind>, retry: bool,
                          code: FailureCode, silent: bool, next: Lane)
    requires LaneOk(lane) && ActivePhase(lane) == Some(Before(Notify, done, retry)) && Notify !in done
    requires SendStep(lane, Notify, done, retry, Refuse(code, silent)) == Some(next)
    ensures LaneOk(next) && next.job.Some? && !next.job.value.state.Completed?
  {
  }

  lemma RefuseKeepsConfirm(lane: Lane, done: set<DeliveryKind>, retry: bool,
                           code: FailureCode, silent: bool, next: Lane)
    requires LaneOk(lane) && ActivePhase(lane) == Some(Before(Confirm, done, retry)) && Confirm !in done
    requires SendStep(lane, Confirm, done, retry, Refuse(code, silent)) == Some(next)
    ensures LaneOk(next) && next.job.Some? && !next.job.value.state.Completed?
  {
  }

  lemma RefuseKeeps(lane: Lane, kind: DeliveryKind, done: set<DeliveryKind>, retry: bool,
                    code: FailureCode, silent: bool, next: Lane)
    requires LaneOk(lane) && ActivePhase(lane) == Some(Before(kind, done, retry)) && kind !in done
    requires SendStep(lane, kind, done, retry, Refuse(code, silent)) == Some(next)
    ensures LaneOk(next) && next.job.Some? && !next.job.value.state.Completed?
  {
    match kind
    case Notify => RefuseKeepsNotify(lane, done, retry, code, silent, next);
    case Confirm => RefuseKeepsConfirm(lane, done, retry, code, silent, next);
  }

  lemma StampKeeps(lane: Lane, next: Lane)
    requires LaneOk(lane) && AttemptStep(lane, Stamp) == Some(next)
    ensures LaneOk(next)
  {
    match ActivePhase(lane).value.kind case Notify => case Confirm =>
  }

  lemma LoadKeeps(lane: Lane, next: Lane)
    requires LaneOk(lane) && AttemptStep(lane, Load) == Some(next)
    ensures LaneOk(next) && !Stranded(next)
  {
  }

  lemma PassKeeps(lane: Lane, act: Act, next: Lane)
    requires LaneOk(lane) && AttemptStep(lane, act) == Some(next) && (act.Skip? || act.LackConfig?)
    ensures LaneOk(next) && !Stranded(next)
  {
    match ActivePhase(lane).value.kind case Notify => case Confirm =>
  }

  lemma ReturnKeeps(lane: Lane, next: Lane)
    requires LaneOk(lane) && AttemptStep(lane, Return) == Some(next)
    ensures LaneOk(next) && !Stranded(next)
  {
  }

  /** An attempt that is cut short leaves its window, if it stood in one, among the losses. */
  lemma CutShortKeeps(lane: Lane, act: Act, next: Lane)
    requires LaneOk(lane) && AttemptStep(lane, act) == Some(next) && (act.Throw? || act.Crash?)
    ensures LaneOk(next) && !Stranded(next)
  {
  }

  lemma AttemptStepKeeps(lane: Lane, act: Act, next: Lane)
    requires LaneOk(lane) && AttemptStep(lane, act) == Some(next)
    ensures LaneOk(next) && !Stranded(next)
  {
    match act
    case Load => LoadKeeps(lane, next);
    case Skip => PassKeeps(lane, act, next);
    case LackConfig => PassKeeps(lane, act, next);
    case Send(result) => SendKeeps(lane, result, next);
    case Stamp => StampKeeps(lane, next);
    case Return => ReturnKeeps(lane, next);
    case Throw => CutShortKeeps(lane, act, next);
    case Crash(_) => CutShortKeeps(lane, act, next);
  }

  lemma SendKeeps(lane: Lane, result: SendResult, next: Lane)
    requires LaneOk(lane) && AttemptStep(lane, Send(result)) == Some(next)
    ensures LaneOk(next) && !Stranded(next)
  {
    var phase := ActivePhase(lane).value;
    match result
    case Accept => AcceptKeeps(lane, phase.kind, phase.done, phase.retry, next);
    case Refuse(code, silent) => RefuseKeeps(lane, phase.kind, phase.done, phase.retry, code, silent, next);
  }

  lemma QueueStepKeeps(lane: Lane, act: Act, now: int, next: Lane)
    requires LaneOk(lane) && QueueStep(lane, act, now) == Some(next)
    ensures LaneOk(next)
    ensures !Stranded(lane) ==> (Stranded(next) <==> Strands(lane, act))
  {
  }

  // ---------------------------------------------------------------- over whole runs

  ghost predicate WorldOk(w: World) {
    forall id | id in w.lanes :: LaneOk(w.lanes[id])
  }

  ghost predicate NoneStranded(w: World) {
    forall id | id in w.lanes :: !Stranded(w.lanes[id])
  }

  predicate StrandsIn(w: World, e: Event) {
    e.On? && e.id in w.lanes && Strands(w.lanes[e.id], e.act)
  }

  /** No event of the run is a removal, by a replay, of the record of a lead it may no longer replay. */
  predicate Guarded(w: World, events: seq<Event>)
    decreases |events|
  {
    events == [] || (!StrandsIn(w, events[0]) && match Step(w, events[0])
                                                 case None => true
                                                 case Some(next) => Guarded(next, events[1..]))
  }

  /** No world the run passes through has a stranded lead. */
  ghost predicate NeverStranded(w: World, events: seq<Event>)
    decreases |events|
  {
    NoneStranded(w) && (events == [] || match Step(w, events[0])
                                        case None => true
                                        case Some(next) => NeverStranded(next, events[1..]))
  }

  lemma StepKeeps(w: World, e: Event, next: World)
    requires WorldOk(w) && Step(w, e) == Some(next)
    ensures WorldOk(next)
    ensures NoneStranded(w) ==> (NoneStranded(next) <==> !StrandsIn(w, e))
  {
    match e
    case Tick(_) =>
    case Commit(id) =>
    case On(id, act) =>
      var lane := w.lanes[id];
      var after := LaneStep(lane, act, w.now).value;
      assert next.lanes[id] == after;
      if IsAttemptAct(act) {
        AttemptStepKeeps(lane, act, after);
      } else {
        QueueStepKeeps(lane, act, w.now, after);
      }
      forall other | other in next.lanes && other != id ensures next.lanes[other] == w.lanes[other] {}
  }

  /**
   * Recovery is complete exactly under the guard: along a run no lead is ever left invisible to
   * both operator commands, if and only if no replay removes a job record of a lead that its own
   * query would no longer return.
   */
  lemma {:induction false} VisibleIffGuarded(w: World, events: seq<Event>)
    requires WorldOk(w) && NoneStranded(w)
    requires Run(w, events).Some?
    ensures WorldOk(Run(w, events).value)
    ensures NeverStranded(w, events) <==> Guarded(w, events)
    decreases |events|
  {
    if events != [] {
      var next := Step(w, events[0]).value;
      StepKeeps(w, events[0], next);
      if !StrandsIn(w, events[0]) {
        VisibleIffGuarded(next, events[1..]);
      } else {
        RunKeepsBookkeeping(next, events[1..]);
      }
    }
  }

  lemma {:induction false} RunKeepsBookkeeping(w: World, events: seq<Event>)
    requires WorldOk(w) && Run(w, events).Some?
    ensures WorldOk(Run(w, events).value)
    decreases |events|
  {
    if events != [] {
      StepKeeps(w, events[0], Step(w, events[0]).value);
      RunKeepsBookkeeping(Step(w, events[0]).value, events[1..]);
    }
  }

  lemma {:induction false} NeverStrandedAtEnd(w: World, events: seq<Event>)
    requires Run(w, events).Some? && NeverStranded(w, events)
    ensures NoneStranded(Run(w, events).value)
    decreases |events|
  {
    if events != [] { NeverStrandedAtEnd(Step(w, events[0]).value, events[1..]); }
  }

  /**
   * Recovery completeness, as the operator sees it: after any guarded run, a committed lead still
   * owed its notification and past the age floor has a live job, a job in the failed set, or is
   * returned by the replay query.
   */
  lemma RecoveryComplete(events: seq<Event>, w: World, id: string)
    requires Run(GENESIS, events) == Some(w) && Guarded(GENESIS, events)
    requires id in w.lanes && w.lanes[id].lead.Some?
    requires Notify !in w.lanes[id].lead.value.sent
    requires w.lanes[id].lead.value.createdAt < w.now - REPLAY_MIN_AGE_MS
    ensures Live(w.lanes[id]) || DeadLettered(w.lanes[id])
            || AwaitingNotification(w.lanes[id].lead.value, w.now - REPLAY_MIN_AGE_MS)
  {
    VisibleIffGuarded(GENESIS, events);
    NeverStrandedAtEnd(GENESIS, events);
  }

  /** A job that completed settled both emails: each was stamped or recorded as never attempted. */
  lemma CompletedMeansSettled(events: seq<Event>, w: World, id: string)
    requires Run(GENESIS, events) == Some(w) && id in w.lanes
    requires w.lanes[id].job.Some? && w.lanes[id].job.value.state.Completed? && w.lanes[id].lead.Some?
    ensures forall kind :: Settled(w.lanes[id].lead.value, kind)
  {
    RunKeepsBookkeeping(GENESIS, events);
    forall kind ensures Settled(w.lanes[id].lead.value, kind)
    {
      match kind case Notify => case Confirm =>
    }
  }

  // ---------------------------------------------------------------- how many emails

  /** This step is a send of `kind` that the provider accepts, whether or not the worker hears of it. */
  predicate Accepts(lane: Lane, act: Act, kind: DeliveryKind) {
    match ActivePhase(lane)
    case Some(Before(k, _, _)) =>
      k == kind && (act == Send(Accept) || (act.Send? && act.result.Refuse? && act.result.silent))
    case _ => false
  }

  predicate AcceptsUnheard(lane: Lane, act: Act, kind: DeliveryKind) {
    Accepts(lane, act, kind) && act != Send(Accept)
  }

  /** This step ends an attempt between the provider's accept and the stamp. */
  predicate LosesStamp(lane: Lane, act: Act, kind: DeliveryKind) {
    InWindow(lane, kind) && (act.Throw? || act.Crash?)
  }

  /** How many events of a run are steps of lane `id` that satisfy `p` where they happen. */
  function CountSteps(w: World, events: seq<Event>, id: string, p: (Lane, Act) -> bool): nat
    decreases |events|
  {
    if events == [] then 0
    else
      var hit := if events[0].On? && events[0].id == id && id in w.lanes && p(w.lanes[id], events[0].act) then 1 else 0;
      match Step(w, events[0])
      case None => 0
      case Some(next) => hit + CountSteps(next, events[1..], id, p)
  }

  function Bit(b: bool): nat { if b then 1 else 0 }

  lemma TallyStep(lane: Lane, act: Act, now: int, next: Lane, kind: DeliveryKind)
    requires LaneStep(lane, act, now) == Some(next)
    ensures TallyOf(next, kind).accepted == TallyOf(lane, kind).accepted + Bit(Accepts(lane, act, kind))
    ensures TallyOf(next, kind).silent == TallyOf(lane, kind).silent + Bit(AcceptsUnheard(lane, act, kind))
    ensures TallyOf(next, kind).lost == TallyOf(lane, kind).lost + Bit(LosesStamp(lane, act, kind))
  {
  }

  function TallyAt(w: World, id: string, kind: DeliveryKind): Tally {
    if id in w.lanes then TallyOf(w.lanes[id], kind) else NO_TALLY
  }

  lemma {:induction false} TalliesCount(w: World, events: seq<Event>, id: string, kind: DeliveryKind)
    requires Run(w, events).Some?
    ensures var t, t0 := TallyAt(Run(w, events).value, id, kind), TallyAt(w, id, kind);
            && t.accepted == t0.accepted + CountSteps(w, events, id, (l, a) => Accepts(l, a, kind))
            && t.silent == t0.silent + CountSteps(w, events, id, (l, a) => AcceptsUnheard(l, a, kind))
            && t.lost == t0.lost + CountSteps(w, events, id, (l, a) => LosesStamp(l, a, kind))
    decreases |events|
  {
    if events != [] {
      var next := Step(w, events[0]).value;
      if events[0].On? && events[0].id == id {
        TallyStep(w.lanes[id], events[0].act, w.now, next.lanes[id], kind);
      } else {
        assert TallyAt(next, id, kind) == TallyAt(w, id, kind);
      }
      TalliesCount(next, events[1..], id, kind);
    }
  }

  /**
   * At least once, with the exact excess. Over every run, the emails of one kind the provider
   * accepted for one lead are: the one stamped, plus those whose attempt ended before the stamp,
   * plus those whose accept was never heard, plus the one standing in the window right now.
   */
  lemma AcceptedExactly(events: seq<Event>, w: World, id: string, kind: DeliveryKind)
    requires Run(GENESIS, events) == Some(w) && id in w.lanes
    ensures var accepted := CountSteps(GENESIS, events, id, (l, a) => Accepts(l, a, kind));
            var unstamped := CountSteps(GENESIS, events, id, (l, a) => LosesStamp(l, a, kind));
            var unheard := CountSteps(GENESIS, events, id, (l, a) => AcceptsUnheard(l, a, kind));
            var stamped := TallyOf(w.lanes[id], kind).stamped;
            && accepted == stamped + unstamped + unheard + Bit(InWindow(w.lanes[id], kind))
            && stamped <= 1
            && (w.lanes[id].lead.Some? ==> (stamped == 1 <==> kind in w.lanes[id].lead.value.sent))
            && accepted <= 1 + unstamped + unheard
  {
    TalliesCount(GENESIS, events, id, kind);
    RunKeepsBookkeeping(GENESIS, events);
    match kind case Notify => case Confirm =>
  }

}
