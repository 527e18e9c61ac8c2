/**
 * The leads table as src/server/repositories/lead.ts changes and reads it, and the view of an
 * attachment that src/lib/lead-attachment.ts derives from a row.
 */
module LeadTable {
  import opened Prelude
  import opened FailureColumn
  import Delivery

  datatype ScanStatus = Pending | Clean | Infected | ScanFailed

  datatype Lead = Lead(
    createdAt: int,
    attachmentKey: Option<string>,
    attachmentName: Option<string>,
    scanStatus: Option<ScanStatus>,
    scannedAt: Option<int>,
    notifiedAt: Option<int>,
    confirmationSentAt: Option<int>,
    deliveryFailureReason: Column)

  const PENDING_MAX_AGE_MS: int := 15 * 60 * 1000

  /** The discriminated union the admin page renders; only a clean attachment has a link. */
  datatype AttachmentView =
    | NoAttachment
    | PendingView(name: string, scannedAt: Option<int>)
    | InfectedView(name: string, scannedAt: Option<int>)
    | FailedView(name: string, scannedAt: Option<int>)
    | CleanView(leadId: string, name: string, scannedAt: Option<int>)

  /** `toLeadAttachmentView`. */
  function View(id: string, lead: Lead, now: int): AttachmentView {
    if lead.scanStatus.None? || lead.attachmentName.None? then NoAttachment
    else
      var name, at := lead.attachmentName.value, lead.scannedAt;
      match lead.scanStatus.value
      case Pending => if now - lead.createdAt > PENDING_MAX_AGE_MS then FailedView(name, at) else PendingView(name, at)
      case Infected => InfectedView(name, at)
      case Clean => if lead.attachmentKey.Some? then CleanView(id, name, at) else FailedView(name, at)
      case ScanFailed => FailedView(name, at)
  }

  /** The same view but for the time of the scan. */
  predicate SameState(a: AttachmentView, b: AttachmentView) {
    match a
    case NoAttachment => b.NoAttachment?
    case PendingView(name, _) => b.PendingView? && b.name == name
    case InfectedView(name, _) => b.InfectedView? && b.name == name
    case FailedView(name, _) => b.FailedView? && b.name == name
    case CleanView(id, name, _) => b.CleanView? && b.name == name && b.leadId == id
  }

  // ---------------------------------------------------------------- the sweep

  predicate Stale(lead: Lead, now: int) {
    lead.scanStatus == Some(Pending) && lead.createdAt < now - PENDING_MAX_AGE_MS
  }

  function Swept(lead: Lead, now: int): Lead {
    if Stale(lead, now) then lead.(scanStatus := Some(ScanFailed), scannedAt := Some(now)) else lead
  }

  /** A row after sweeps at these times. */
  function SweptAt(lead: Lead, times: seq<int>): Lead
    decreases |times|
  {
    if times == [] then lead else SweptAt(Swept(lead, times[0]), times[1..])
  }

  /** However many sweeps ran before, and whenever, a reader sees the state it would have seen without them. */
  lemma {:induction false} SweepsAreInvisible(id: string, lead: Lead, times: seq<int>, now: int)
    requires forall t <- times :: t <= now
    ensures SameState(View(id, SweptAt(lead, times), now), View(id, lead, now))
    decreases |times|
  {
    if times != [] {
      assert times[0] in times && forall t <- times[1..] :: t in times;
      SweepsAreInvisible(id, Swept(lead, times[0]), times[1..], now);
    }
  }

  /** Sweeping only ever turns a pending scan into a failed one, and only one nobody sees as pending any more. */
  lemma {:induction false} SweepsOnlyFailPending(id: string, lead: Lead, times: seq<int>, now: int)
    requires forall t <- times :: t <= now
    ensures var after := SweptAt(lead, times);
            after != lead ==>
              && lead.scanStatus == Some(Pending) && after.scanStatus == Some(ScanFailed) && Stale(lead, now)
              && after.scannedAt.Some? && after.scannedAt.value in times
              && after == lead.(scanStatus := Some(ScanFailed), scannedAt := after.scannedAt)
    decreases |times|
  {
    if times != [] {
      assert times[0] in times && forall t <- times[1..] :: t in times;
      SweepsOnlyFailPending(id, Swept(lead, times[0]), times[1..], now);
    }
  }

  /**
   * What is shown at every time and after any earlier sweeps: nothing without a name or a status; an
   * infected file as infected and no other; a clean one as clean exactly when it is stored; one still
   * being scanned as pending for a quarter of an hour; and everything else as failed.
   */
  lemma {:induction false} ShownIff(id: string, lead: Lead, times: seq<int>, now: int)
    requires forall t <- times :: t <= now
    ensures var view := View(id, SweptAt(lead, times), now);
            var named := lead.attachmentName.Some? && lead.scanStatus.Some?;
            && (view.NoAttachment? <==> !named)
            && (view.InfectedView? <==> named && lead.scanStatus == Some(Infected))
            && (view.CleanView? <==> named && lead.scanStatus == Some(Clean) && lead.attachmentKey.Some?)
            && (view.PendingView? <==> named && lead.scanStatus == Some(Pending) && now - lead.createdAt <= 900_000)
            && (view.FailedView? <==> named && !view.InfectedView? && !view.CleanView? && !view.PendingView?)
            && (!view.NoAttachment? ==> view.name == lead.attachmentName.value)
            && (view.CleanView? ==> view.leadId == id)
  {
    SweepsAreInvisible(id, lead, times, now);
  }

  /** As time passes a pending attachment can only become failed; nothing else changes. */
  lemma TimeOnlyFailsPending(id: string, lead: Lead, earlier: int, later: int)
    requires earlier <= later
    ensures SameState(View(id, lead, earlier), View(id, lead, later))
      || (View(id, lead, earlier).PendingView? && View(id, lead, later).FailedView?)
    ensures View(id, lead, later).PendingView? ==> View(id, lead, earlier).PendingView?
  {
  }

  // ---------------------------------------------------------------- the download

  /** What `getServableLeadAttachment` reads off a row. */
  function Servable(lead: Lead): Option<(string, string)> {
    if lead.scanStatus != Some(Clean) then None
    else if lead.attachmentKey.None? || lead.attachmentKey.value == "" then None
    else if lead.attachmentName.None? || lead.attachmentName.value == "" then None
    else Some((lead.attachmentKey.value, lead.attachmentName.value))
  }

  /** Whatever can be downloaded is shown as clean; the converse fails exactly for an empty key or name. */
  lemma LinkWorksIff(id: string, lead: Lead, now: int)
    ensures Servable(lead).Some? ==> View(id, lead, now).CleanView?
    ensures View(id, lead, now).CleanView? ==>
              (Servable(lead).Some? <==> lead.attachmentKey != Some("") && lead.attachmentName != Some(""))
    ensures Servable(lead).Some? ==>
              Some(Servable(lead).value.0) == lead.attachmentKey && Some(Servable(lead).value.1) == lead.attachmentName
  {
  }

  /** No order of sweeps and reads ever opens a file whose scan did not end clean. */
  lemma {:induction false} UnscannedIsNeverServed(lead: Lead, times: seq<int>)
    requires lead.scanStatus != Some(Clean)
    ensures Servable(SweptAt(lead, times)) == None
    decreases |times|
  {
    if times != [] { UnscannedIsNeverServed(Swept(lead, times[0]), times[1..]); }
  }

  // ---------------------------------------------------------------- the delivery columns

  /** A row after a send was stamped. */
  function SentRow(lead: Lead, kind: DeliveryKind, at: int): Lead {
    var cleared := lead.(deliveryFailureReason := MarkSent(lead.deliveryFailureReason, kind));
    match kind
    case Notify => cleared.(notifiedAt := Some(at))
    case Confirm => cleared.(confirmationSentAt := Some(at))
  }

  /** A row after a terminal failure was recorded. */
  function FailedRow(lead: Lead, reason: string): Lead {
    lead.(deliveryFailureReason := RecordFailure(lead.deliveryFailureReason, reason))
  }

  /** A stamp sets its own time and takes a failure away; a failure touches the column alone. */
  lemma OnlyDeliveryColumnsChange(lead: Lead, kind: DeliveryKind, at: int, reason: string)
    ensures SentRow(lead, kind, at).notifiedAt == if kind == Notify then Some(at) else lead.notifiedAt
    ensures SentRow(lead, kind, at).confirmationSentAt == if kind == Confirm then Some(at) else lead.confirmationSentAt
    ensures forall row | row in {SentRow(lead, kind, at), FailedRow(lead, reason)} ::
              && row.createdAt == lead.createdAt
              && row.attachmentKey == lead.attachmentKey && row.attachmentName == lead.attachmentName
              && row.scanStatus == lead.scanStatus && row.scannedAt == lead.scannedAt
    ensures FailedRow(lead, reason).notifiedAt == lead.notifiedAt
    ensures FailedRow(lead, reason).confirmationSentAt == lead.confirmationSentAt
  {
  }

  /** The where clause of `findLeadsAwaitingNotification`. */
  predicate Awaiting(lead: Lead, olderThan: int) {
    lead.notifiedAt.None? && lead.createdAt < olderThan && ReplayableColumn(lead.deliveryFailureReason)
  }

  /** A row holds, in its two stamps and its column of text, what the protocol calls this lead. */
  ghost predicate Shows(row: Lead, lead: Delivery.Lead, es: seq<Entry>) {
    && OnePerKind(es) && row.deliveryFailureReason == Encode(es) && lead.reasons == AsMap(es)
    && row.createdAt == lead.createdAt
    && (Notify in lead.sent <==> row.notifiedAt.Some?)
    && (Confirm in lead.sent <==> row.confirmationSentAt.Some?)
  }

  /** Stamping the row is the protocol's stamp. */
  lemma SentRowShows(row: Lead, lead: Delivery.Lead, es: seq<Entry>, kind: DeliveryKind, at: int)
    requires Shows(row, lead, es)
    ensures Shows(SentRow(row, kind, at), lead.(sent := lead.sent + {kind}, reasons := lead.reasons - {kind}),
                  Without(es, kind))
  {
    SentRemovesOneKind(es, kind);
  }

  /** Recording a failure in the row is the protocol's record of it. */
  lemma FailedRowShows(row: Lead, lead: Delivery.Lead, es: seq<Entry>, kind: DeliveryKind, code: FailureCode)
    requires Shows(row, lead, es)
    ensures Shows(FailedRow(row, DeliveryFailure(kind, code)), lead.(reasons := lead.reasons[kind := code]),
                  Without(es, kind) + [(kind, code)])
  {
    RecordReplacesOneKind(es, kind, code);
  }

  /** The replay query's null test and substring test find exactly the leads the protocol lets replay. */
  lemma AwaitingIsReplayable(row: Lead, lead: Delivery.Lead, es: seq<Entry>, olderThan: int)
    requires Shows(row, lead, es)
    ensures Awaiting(row, olderThan) <==> Delivery.AwaitingNotification(lead, olderThan)
  {
    ReplayableIsMapLookup(es);
  }

  // ---------------------------------------------------------------- the table, in place

  datatype TableError = RecordNotFound | ObjectStoreError | Crashed

  /** Which stored objects no row points at: nobody could find them to erase them. */
  function Orphans(leads: map<string, Lead>, objects: set<string>): set<string> {
    set o | o in objects && forall id | id in leads :: leads[id].attachmentKey != Some(o)
  }

  class Leads {
    var leads: map<string, Lead>
    /** The keys of the stored attachments. */
    var objects: set<string>

    constructor ()
      ensures leads == map[] && objects == {}
    {
      leads, objects := map[], {};
    }

    /** `expireStalePendingScans`: one statement, and how many rows it changed. */
    method ExpireStalePendingScans(now: int) returns (count: nat)
      modifies this`leads
      ensures leads == map id | id in old(leads) :: Swept(old(leads)[id], now)
      ensures count == |set id | id in old(leads) && Stale(old(leads)[id], now)|
      ensures forall id | id in old(leads) :: id in leads &&
                var row := old(leads)[id];
                leads[id] == if row.scanStatus == Some(Pending) && now - row.createdAt > 900_000
                             then row.(scanStatus := Some(ScanFailed), scannedAt := Some(now)) else row
      ensures forall id | id in leads :: SameState(View(id, leads[id], now), View(id, old(leads)[id], now))
    {
      count := |set id | id in leads && Stale(leads[id], now)|;
      leads := map id | id in leads :: Swept(leads[id], now);
    }

    /** `markDeliverySent`: the stamp, and this kind's failure out of the column. */
    method MarkDeliverySent(id: string, kind: DeliveryKind, at: int) returns (r: Result<(), TableError>)
      modifies this`leads
      ensures id !in old(leads) ==> r == Err(RecordNotFound) && leads == old(leads)
      ensures id in old(leads) ==> r == Ok(()) && leads == old(leads)[id := SentRow(old(leads)[id], kind, at)]
    {
      var existing := if id in leads then leads[id].deliveryFailureReason else None;
      var kept := Kept(existing, KindText(kind));
      if id !in leads { return Err(RecordNotFound); }
      var reason := if |kept| > 0 then Some(Join(kept, ";")) else None;
      var lead := leads[id].(deliveryFailureReason := reason);
      if kind.Notify? {
        leads := leads[id := lead.(notifiedAt := Some(at))];
      } else {
        leads := leads[id := lead.(confirmationSentAt := Some(at))];
      }
      r := Ok(());
    }

    /** `recordDeliveryFailure`: this kind's failure into the column, nothing else touched. */
    method RecordDeliveryFailure(id: string, reason: string) returns (r: Result<(), TableError>)
      modifies this`leads
      ensures id !in old(leads) ==> r == Err(RecordNotFound) && leads == old(leads)
      ensures id in old(leads) ==>
                r == Ok(()) && leads == old(leads)[id := FailedRow(old(leads)[id], reason)]
    {
      var existing := if id in leads then leads[id].deliveryFailureReason else None;
      var kind := Split(reason, ':')[0];
      var kept := Kept(existing, kind);
      if id !in leads { return Err(RecordNotFound); }
      leads := leads[id := leads[id].(deliveryFailureReason := Some(Join(kept + [reason], ";")))];
      r := Ok(());
    }

    /** `getServableLeadAttachment`: only what the admin page shows as clean, at every time. */
    method GetServableLeadAttachment(id: string) returns (r: Option<(string, string)>)
      ensures r == if id in leads then Servable(leads[id]) else None
      ensures r.Some? ==> forall now :: View(id, leads[id], now).CleanView?
    {
      if id !in leads { return None; }
      r := Servable(leads[id]);
    }

    /**
     * `deleteLeadWithAttachment`. The object goes first: wherever it stops - the object store
     * refuses, or the process dies between the two deletions - no object is left that no row
     * points at, and a row that is gone has no object left. (An object store has no empty keys.)
     */
    method DeleteLeadWithAttachment(id: string, refused: bool, dies: bool) returns (r: Result<(), TableError>)
      requires "" !in objects
      modifies this
      ensures Orphans(leads, objects) <= Orphans(old(leads), old(objects))
      ensures r.Ok? ==> leads == old(leads) - {id}
      ensures r.Err? ==> leads == old(leads)
      ensures r.Ok? && id in old(leads) && old(leads)[id].attachmentKey !in {None, Some("")} ==>
                objects == old(objects) - {old(leads)[id].attachmentKey.value}
      ensures objects <= old(objects) && (r == Err(ObjectStoreError) ==> objects == old(objects))
    {
      if id !in leads {
        assert leads - {id} == leads;
        return Ok(());
      }
      var key := leads[id].attachmentKey;
      if key.Some? && key.value != "" {
        if refused { return Err(ObjectStoreError); }
        objects := objects - {key.value};
      }
      if dies { return Err(Crashed); }
      leads := leads - {id};
      forall o | o in Orphans(leads, objects) ensures o in Orphans(old(leads), old(objects)) {
        forall other | other in old(leads) ensures old(leads)[other].attachmentKey != Some(o) {
          if other != id { assert leads[other] == old(leads)[other]; }
        }
      }
      r := Ok(());
    }
  }
}
