/**
 * Events and their sessions: creation, editing, publication, pausing and
 * cancellation, each as one database transaction that either commits a new
 * calendar or throws (None) and leaves the old one.
 *
 * Pausing, resuming, archiving and restoring read a status, leave the
 * transaction and then write without a guard, so here they may write from any
 * state at all; only the table CHECK constraints stand in their way.
 */
module Schedule {
  import opened Common

  type EventId = nat
  type SessionId = nat
  type SpaceId = nat

  datatype EventStatus = EventDraft | EventPublished | EventCancelled | EventArchived

  datatype Event = Event(
    status: EventStatus,
    publishedAt: Option<Time>,
    cancelledAt: Option<Time>,
    preArchive: Option<EventStatus>)

  datatype SessionStatus = Draft | Scheduled | OnSale | SalesPaused | Cancelled | Completed

  datatype Times = Times(startAt: Time, endAt: Time, salesStartAt: Time, salesEndAt: Time)

  datatype Session = Session(
    event: EventId,
    space: SpaceId,
    times: Times,
    status: SessionStatus,
    publishedAt: Option<Time>,
    cancelledAt: Option<Time>)

  /** Both tables; an id is a position, so every insertion gets a fresh one. */
  datatype Calendar = Calendar(events: seq<Event>, sessions: seq<Session>)

  // ------------------------------------------------------------------------
  // Table constraints
  // ------------------------------------------------------------------------

  /** Event_lifecycle_check. */
  predicate EventCheck(e: Event) {
    match e.status
    case EventDraft => e.publishedAt.None? && e.cancelledAt.None? && e.preArchive.None?
    case EventPublished => e.publishedAt.Some? && e.cancelledAt.None? && e.preArchive.None?
    case EventCancelled => e.cancelledAt.Some? && e.preArchive.None?
    case EventArchived =>
      || (e.preArchive == Some(EventDraft) && e.publishedAt.None? && e.cancelledAt.None?)
      || (e.preArchive == Some(EventPublished) && e.publishedAt.Some? && e.cancelledAt.None?)
      || (e.preArchive == Some(EventCancelled) && e.cancelledAt.Some?)
  }

  /** EventSession_lifecycle_check. */
  predicate SessionCheck(s: Session) {
    match s.status
    case Draft => s.publishedAt.None? && s.cancelledAt.None?
    case Cancelled => s.cancelledAt.Some?
    case _ => s.publishedAt.Some? && s.cancelledAt.None?
  }

  /** The date-range schema, and the two range CHECK constraints. */
  predicate RangeOk(t: Times) {
    t.startAt < t.endAt && t.salesStartAt < t.salesEndAt <= t.startAt
  }

  // ------------------------------------------------------------------------
  // Transactions
  // ------------------------------------------------------------------------

  predicate Manageable(cal: Calendar, event: EventId) {
    event < |cal.events| && cal.events[event].status in {EventDraft, EventPublished}
  }

  /** findConflict: a non-cancelled session of the space whose half-open range meets [startAt, endAt). */
  predicate Conflict(cal: Calendar, space: SpaceId, times: Times, exclude: Option<SessionId>) {
    exists i :: 0 <= i < |cal.sessions| && Some(i) != exclude
      && cal.sessions[i].space == space
      && cal.sessions[i].status != Cancelled
      && cal.sessions[i].times.startAt < times.endAt
      && cal.sessions[i].times.endAt > times.startAt
  }

  function CreateEvent(cal: Calendar): Calendar {
    cal.(events := cal.events + [Event(EventDraft, None, None, None)])
  }

  function CreateSession(cal: Calendar, event: EventId, space: SpaceId, times: Times): Option<Calendar> {
    if !Manageable(cal, event) || !RangeOk(times) || Conflict(cal, space, times, None) then None
    else Some(cal.(sessions := cal.sessions + [Session(event, space, times, Draft, None, None)]))
  }

  function UpdateDraft(cal: Calendar, id: SessionId, space: SpaceId, times: Times): Option<Calendar> {
    if id >= |cal.sessions| || cal.sessions[id].status != Draft
       || !Manageable(cal, cal.sessions[id].event)
       || !RangeOk(times) || Conflict(cal, space, times, Some(id)) then None
    else Some(cal.(sessions := cal.sessions[id := cal.sessions[id].(space := space, times := times)]))
  }

  /** `priced` stands for complete pricing over a positive capacity with at least one tier. */
  function PublishSession(cal: Calendar, id: SessionId, priced: bool, now: Time): Option<Calendar> {
    if id >= |cal.sessions| then None
    else
      var s := cal.sessions[id];
      if s.status in {Scheduled, OnSale, SalesPaused} then Some(cal)
      else if s.status != Draft || !Manageable(cal, s.event) || !RangeOk(s.times) then None
      else if s.times.startAt <= now || s.times.salesEndAt <= now || !priced
              || Conflict(cal, s.space, s.times, Some(id)) then None
      else
        var status := if s.times.salesStartAt <= now < s.times.salesEndAt then OnSale else Scheduled;
        Some(cal.(sessions := cal.sessions[id := s.(status := status, publishedAt := Some(now))]))
  }

  /** The unguarded write behind pausing and resuming sales; the CHECK constraint may refuse it. */
  function WriteSalesStatus(cal: Calendar, id: SessionId, status: SessionStatus): Option<Calendar>
    requires status in {OnSale, SalesPaused}
  {
    if id >= |cal.sessions| then None
    else
      var s := cal.sessions[id].(status := status);
      if SessionCheck(s) then Some(cal.(sessions := cal.sessions[id := s])) else None
  }

  /** The writes of cancelEventSession; its status test happened before the transaction. */
  function CancelSession(cal: Calendar, id: SessionId, now: Time): Calendar
    requires id < |cal.sessions|
  {
    cal.(sessions := cal.sessions[id := cal.sessions[id].(status := Cancelled, cancelledAt := Some(now))])
  }

  /** The sessions cancelEvent touches. */
  function CancellableSessions(cal: Calendar, event: EventId): set<SessionId> {
    set i | 0 <= i < |cal.sessions| && cal.sessions[i].event == event
            && cal.sessions[i].status !in {Cancelled, Completed}
  }

  function CancelSessions(sessions: seq<Session>, ids: set<SessionId>, now: Time): seq<Session> {
    seq(|sessions|, i requires 0 <= i < |sessions| =>
      if i in ids then sessions[i].(status := Cancelled, cancelledAt := Some(now)) else sessions[i])
  }

  function CancelEvent(cal: Calendar, event: EventId, now: Time): Option<Calendar> {
    if event >= |cal.events| then None
    else if cal.events[event].status == EventCancelled then Some(cal)
    else if !Manageable(cal, event) then None
    else Some(Calendar(
      cal.events[event := cal.events[event].(status := EventCancelled, cancelledAt := Some(now))],
      CancelSessions(cal.sessions, CancellableSessions(cal, event), now)))
  }

  /** `ready` stands for a published future session with complete pricing. */
  function PublishEvent(cal: Calendar, event: EventId, ready: bool, now: Time): Option<Calendar> {
    if event >= |cal.events| then None
    else if cal.events[event].status == EventPublished then Some(cal)
    else if cal.events[event].status != EventDraft || !ready then None
    else Some(cal.(events := cal.events[event :=
      cal.events[event].(status := EventPublished, publishedAt := Some(now))]))
  }

  /** The unguarded write of archiveEvent, with the status it observed earlier. */
  function ArchiveEvent(cal: Calendar, event: EventId, observed: EventStatus): Option<Calendar> {
    if event >= |cal.events| then None
    else
      var e := cal.events[event].(status := EventArchived, preArchive := Some(observed));
      if EventCheck(e) then Some(cal.(events := cal.events[event := e])) else None
  }

  /** The unguarded write of restoreEvent, with the status it observed earlier. */
  function RestoreEvent(cal: Calendar, event: EventId, observed: EventStatus): Option<Calendar> {
    if event >= |cal.events| || observed !in {EventDraft, EventPublished} then None
    else
      var e := cal.events[event].(status := observed, preArchive := None);
      if EventCheck(e) then Some(cal.(events := cal.events[event := e])) else None
  }

  // ------------------------------------------------------------------------
  // The invariant
  // ------------------------------------------------------------------------

  ghost predicate Disjoint(a: Session, b: Session) {
    a.space != b.space || a.times.endAt <= b.times.startAt || b.times.endAt <= a.times.startAt
  }

  ghost predicate RowsValid(cal: Calendar) {
    && (forall e :: 0 <= e < |cal.events| ==> EventCheck(cal.events[e]))
    && (forall i :: 0 <= i < |cal.sessions| ==>
          SessionCheck(cal.sessions[i]) && RangeOk(cal.sessions[i].times)
          && cal.sessions[i].event < |cal.events|)
  }

  /** Non-cancelled sessions of one space occupy disjoint half-open ranges. */
  ghost predicate PairwiseDisjoint(sessions: seq<Session>) {
    forall i, j :: 0 <= i < |sessions| && 0 <= j < |sessions| && i != j
      && sessions[i].status != Cancelled && sessions[j].status != Cancelled
      ==> Disjoint(sessions[i], sessions[j])
  }

  ghost predicate Valid(cal: Calendar) {
    RowsValid(cal) && PairwiseDisjoint(cal.sessions)
  }

  /** What no transaction undoes: a cancelled session or event stays cancelled. */
  ghost predicate Progress(a: Calendar, b: Calendar) {
    && |a.sessions| <= |b.sessions| && |a.events| <= |b.events|
    && (forall i :: 0 <= i < |a.sessions| && a.sessions[i].status == Cancelled ==> b.sessions[i].status == Cancelled)
    && (forall i :: 0 <= i < |a.sessions| ==> b.sessions[i].event == a.sessions[i].event)
    && (forall e :: 0 <= e < |a.events| && a.events[e].cancelledAt.Some? ==> b.events[e].cancelledAt.Some?)
  }

  datatype Op =
    | OpCreateEvent
    | OpCreateSession(event: EventId, space: SpaceId, times: Times)
    | OpUpdateDraft(id: SessionId, space: SpaceId, times: Times)
    | OpPublishSession(id: SessionId, priced: bool, now: Time)
    | OpPause(id: SessionId)
    | OpResume(id: SessionId)
    | OpCancelSession(id: SessionId, now: Time)
    | OpCancelEvent(event: EventId, now: Time)
    | OpPublishEvent(event: EventId, ready: bool, now: Time)
    | OpArchive(event: EventId, observed: EventStatus)
    | OpRestore(event: EventId, observed: EventStatus)

  function Apply(cal: Calendar, op: Op): Option<Calendar> {
    match op
    case OpCreateEvent => Some(CreateEvent(cal))
    case OpCreateSession(e, space, times) => CreateSession(cal, e, space, times)
    case OpUpdateDraft(id, space, times) => UpdateDraft(cal, id, space, times)
    case OpPublishSession(id, priced, now) => PublishSession(cal, id, priced, now)
    case OpPause(id) => WriteSalesStatus(cal, id, SalesPaused)
    case OpResume(id) => WriteSalesStatus(cal, id, OnSale)
    case OpCancelSession(id, now) => if id < |cal.sessions| then Some(CancelSession(cal, id, now)) else None
    case OpCancelEvent(e, now) => CancelEvent(cal, e, now)
    case OpPublishEvent(e, ready, now) => PublishEvent(cal, e, ready, now)
    case OpArchive(e, observed) => ArchiveEvent(cal, e, observed)
    case OpRestore(e, observed) => RestoreEvent(cal, e, observed)
  }

  /** Rewriting one session keeps the ranges disjoint if it is cancelled or meets none of the others. */
  lemma RewriteKeepsDisjoint(sessions: seq<Session>, id: SessionId, s: Session)
    requires PairwiseDisjoint(sessions) && id < |sessions|
    requires s.status != Cancelled ==>
      forall i :: 0 <= i < |sessions| && i != id && sessions[i].status != Cancelled ==> Disjoint(sessions[i], s)
    ensures PairwiseDisjoint(sessions[id := s])
  {
  }

  /** findConflict answers no exactly when the range is disjoint from every other live session. */
  lemma NoConflict(cal: Calendar, s: Session, exclude: Option<SessionId>)
    requires RowsValid(cal) && RangeOk(s.times)
    ensures !Conflict(cal, s.space, s.times, exclude) <==>
      forall i :: 0 <= i < |cal.sessions| && Some(i) != exclude && cal.sessions[i].status != Cancelled
        ==> Disjoint(cal.sessions[i], s)
  {
  }

  lemma CreateKeepsDisjoint(cal: Calendar, event: EventId, space: SpaceId, times: Times)
    requires Valid(cal) && CreateSession(cal, event, space, times).Some?
    ensures PairwiseDisjoint(CreateSession(cal, event, space, times).value.sessions)
  {
    var s := Session(event, space, times, Draft, None, None);
    NoConflict(cal, s, None);
    forall i | 0 <= i < |cal.sessions| && cal.sessions[i].status != Cancelled ensures Disjoint(cal.sessions[i], s) {
      assert Some(i) != None;
    }
  }

  lemma UpdateKeepsDisjoint(cal: Calendar, id: SessionId, space: SpaceId, times: Times)
    requires Valid(cal) && UpdateDraft(cal, id, space, times).Some?
    ensures PairwiseDisjoint(UpdateDraft(cal, id, space, times).value.sessions)
  {
    var s := cal.sessions[id].(space := space, times := times);
    NoConflict(cal, s, Some(id));
    RewriteKeepsDisjoint(cal.sessions, id, s);
  }

  lemma PublishKeepsDisjoint(cal: Calendar, id: SessionId, priced: bool, now: Time)
    requires Valid(cal) && PublishSession(cal, id, priced, now).Some?
    ensures PairwiseDisjoint(PublishSession(cal, id, priced, now).value.sessions)
  {
    if cal.sessions[id].status == Draft {
      RewriteKeepsDisjoint(cal.sessions, id, PublishSession(cal, id, priced, now).value.sessions[id]);
    }
  }

  lemma SalesStatusKeepsDisjoint(cal: Calendar, id: SessionId, status: SessionStatus)
    requires Valid(cal) && status in {OnSale, SalesPaused} && WriteSalesStatus(cal, id, status).Some?
    ensures PairwiseDisjoint(WriteSalesStatus(cal, id, status).value.sessions)
  {
    RewriteKeepsDisjoint(cal.sessions, id, cal.sessions[id].(status := status));
  }

  lemma KeepsDisjoint(cal: Calendar, op: Op)
    requires Valid(cal) && Apply(cal, op).Some?
    ensures PairwiseDisjoint(Apply(cal, op).value.sessions)
  {
    hide CreateSession, UpdateDraft, PublishSession, WriteSalesStatus, Conflict, RangeOk;
    match op
    case OpCreateSession(e, space, times) => CreateKeepsDisjoint(cal, e, space, times);
    case OpUpdateDraft(id, space, times) => UpdateKeepsDisjoint(cal, id, space, times);
    case OpPublishSession(id, priced, now) => PublishKeepsDisjoint(cal, id, priced, now);
    case OpPause(id) => SalesStatusKeepsDisjoint(cal, id, SalesPaused);
    case OpResume(id) => SalesStatusKeepsDisjoint(cal, id, OnSale);
    case _ =>
  }

  lemma KeepsRows(cal: Calendar, op: Op)
    requires Valid(cal) && Apply(cal, op).Some?
    ensures RowsValid(Apply(cal, op).value)
  {
  }

  lemma MakesProgress(cal: Calendar, op: Op)
    requires Valid(cal) && Apply(cal, op).Some?
    ensures Progress(cal, Apply(cal, op).value)
  {
  }

  /** Only the two cancelling transactions cancel a session. */
  lemma OnlyCancellationCancels(cal: Calendar, op: Op)
    requires Valid(cal) && Apply(cal, op).Some?
    requires !op.OpCancelSession? && !op.OpCancelEvent?
    ensures var after := Apply(cal, op).value;
      forall i :: 0 <= i < |after.sessions| && after.sessions[i].status == Cancelled ==>
        i < |cal.sessions| && cal.sessions[i].status == Cancelled
  {
  }

  /**
   * Every transaction keeps the invariant without help from the exclusion
   * constraint, and revives nothing that was cancelled, stale writes included.
   */
  lemma ApplyKeepsValid(cal: Calendar, op: Op)
    requires Valid(cal) && Apply(cal, op).Some?
    ensures Valid(Apply(cal, op).value)
    ensures Progress(cal, Apply(cal, op).value)
  {
    KeepsRows(cal, op);
    KeepsDisjoint(cal, op);
    MakesProgress(cal, op);
  }

  // ------------------------------------------------------------------------
  // Sales eligibility
  // ------------------------------------------------------------------------

  datatype BlockReason =
    | EventUnavailable | SessionCancelled | SessionCompleted | SessionStarted
    | SalesEnded | SalesNotStarted | SalesNotOpen | NoInventory

  datatype Eligibility = Sellable | Blocked(reason: BlockReason)

  function Evaluate(event: EventStatus, s: Session, hasInventory: bool, now: Time): Eligibility {
    if event != EventPublished then Blocked(EventUnavailable)
    else if s.status == Cancelled then Blocked(SessionCancelled)
    else if s.status == Completed then Blocked(SessionCompleted)
    else if now >= s.times.startAt then Blocked(SessionStarted)
    else if now >= s.times.salesEndAt then Blocked(SalesEnded)
    else if now < s.times.salesStartAt then Blocked(SalesNotStarted)
    else if s.status != OnSale then Blocked(SalesNotOpen)
    else if !hasInventory then Blocked(NoInventory)
    else Sellable
  }

  predicate SessionSellable(cal: Calendar, id: SessionId, hasInventory: bool, now: Time) {
    && id < |cal.sessions|
    && cal.sessions[id].event < |cal.events|
    && Evaluate(cal.events[cal.sessions[id].event].status, cal.sessions[id], hasInventory, now).Sellable?
  }

  /** Since sales close by the start of the session, its own start adds no condition. */
  lemma SellableExactly(event: EventStatus, s: Session, hasInventory: bool, now: Time)
    requires RangeOk(s.times)
    ensures Evaluate(event, s, hasInventory, now).Sellable? <==>
      && event == EventPublished && s.status == OnSale && hasInventory
      && s.times.salesStartAt <= now < s.times.salesEndAt
  {
  }

  /** A session published inside its sales window sells at once; one published earlier waits for sales to be opened. */
  lemma PublicationOpensSales(cal: Calendar, id: SessionId, now: Time, later: Time)
    requires Valid(cal) && PublishSession(cal, id, true, now).Some?
    requires cal.sessions[id].status == Draft && cal.events[cal.sessions[id].event].status == EventPublished
    requires now <= later < cal.sessions[id].times.salesEndAt
    ensures SessionSellable(PublishSession(cal, id, true, now).value, id, true, later)
            <==> cal.sessions[id].times.salesStartAt <= now
  {
  }
}
