/** When each calendar transaction commits and what it then leaves, read off the rows alone. */
module ScheduleExact {
  import opened Common
  import opened Schedule

  ghost predicate EventOpen(cal: Calendar, event: EventId) {
    event < |cal.events| && cal.events[event].status in {EventDraft, EventPublished}
  }

  /** The range ends before, or starts after, every other live session of the space. */
  ghost predicate FitsIn(cal: Calendar, space: SpaceId, times: Times, exclude: Option<SessionId>) {
    forall i ::
      0 <= i < |cal.sessions| && Some(i) != exclude && cal.sessions[i].status != Cancelled && cal.sessions[i].space == space ==>
        cal.sessions[i].times.endAt <= times.startAt || times.endAt <= cal.sessions[i].times.startAt
  }

  /** Sales open before they close, close by the start, and the session starts before it ends. */
  ghost predicate Ordered(t: Times) {
    t.salesStartAt < t.salesEndAt && t.salesEndAt <= t.startAt && t.startAt < t.endAt
  }

  lemma FitsExactly(cal: Calendar, space: SpaceId, times: Times, exclude: Option<SessionId>)
    requires RowsValid(cal) && Ordered(times)
    ensures Conflict(cal, space, times, exclude) <==> !FitsIn(cal, space, times, exclude)
  {
  }

  // ------------------------------------------------------------------------
  // Sessions
  // ------------------------------------------------------------------------

  /** A session is created, as a draft, exactly for an open event and an ordered range that fits. */
  lemma CreateExactly(cal: Calendar, event: EventId, space: SpaceId, times: Times)
    requires Valid(cal)
    ensures CreateSession(cal, event, space, times).Some? <==>
      EventOpen(cal, event) && Ordered(times) && FitsIn(cal, space, times, None)
    ensures CreateSession(cal, event, space, times).Some? ==>
      CreateSession(cal, event, space, times).value ==
        Calendar(cal.events, cal.sessions + [Session(event, space, times, Draft, None, None)])
  {
    if Ordered(times) { FitsExactly(cal, space, times, None); }
  }

  /** A draft of an open event is moved exactly when the new range is ordered and fits beside the others. */
  lemma UpdateExactly(cal: Calendar, id: SessionId, space: SpaceId, times: Times)
    requires Valid(cal)
    ensures UpdateDraft(cal, id, space, times).Some? <==>
      && id < |cal.sessions| && cal.sessions[id].status == Draft && EventOpen(cal, cal.sessions[id].event)
      && Ordered(times) && FitsIn(cal, space, times, Some(id))
    ensures UpdateDraft(cal, id, space, times).Some? ==>
      var after := UpdateDraft(cal, id, space, times).value;
      && after.events == cal.events && |after.sessions| == |cal.sessions|
      && after.sessions[id] == Session(cal.sessions[id].event, space, times, Draft, None, None)
      && forall i :: 0 <= i < |cal.sessions| && i != id ==> after.sessions[i] == cal.sessions[i]
  {
    if Ordered(times) { FitsExactly(cal, space, times, Some(id)); }
    if id < |cal.sessions| { assert SessionCheck(cal.sessions[id]); }
  }

  /** A draft that may be published: its event is open, it is priced, its sales have not ended and its range is its own. */
  ghost predicate Publishable(cal: Calendar, id: SessionId, priced: bool, now: Time) {
    && id < |cal.sessions| && cal.sessions[id].status == Draft && EventOpen(cal, cal.sessions[id].event)
    && priced && now < cal.sessions[id].times.salesEndAt
    && FitsIn(cal, cal.sessions[id].space, cal.sessions[id].times, Some(id))
  }

  /** Publishing commits exactly for such a draft, which then sells from its sales start, and for a session already published, which it leaves alone. */
  lemma PublishExactly(cal: Calendar, id: SessionId, priced: bool, now: Time)
    requires Valid(cal)
    ensures PublishSession(cal, id, priced, now).Some? <==>
      || Publishable(cal, id, priced, now)
      || (id < |cal.sessions| && cal.sessions[id].status in {Scheduled, OnSale, SalesPaused})
    ensures PublishSession(cal, id, priced, now).Some? ==>
      var after := PublishSession(cal, id, priced, now).value; var s := cal.sessions[id];
      if s.status != Draft then after == cal
      else
        && after.events == cal.events && |after.sessions| == |cal.sessions|
        && after.sessions[id] ==
             s.(status := if s.times.salesStartAt <= now then OnSale else Scheduled, publishedAt := Some(now))
        && forall i :: 0 <= i < |cal.sessions| && i != id ==> after.sessions[i] == cal.sessions[i]
  {
    if id < |cal.sessions| {
      assert RangeOk(cal.sessions[id].times);
      FitsExactly(cal, cal.sessions[id].space, cal.sessions[id].times, Some(id));
    }
  }

  /** The unguarded pause and resume commit exactly on a session that was published and not cancelled, and leave it paused or on sale. */
  lemma SalesStatusExactly(cal: Calendar, id: SessionId, pause: bool)
    requires Valid(cal)
    ensures var attempt := Apply(cal, if pause then OpPause(id) else OpResume(id));
      && (attempt.Some? <==> id < |cal.sessions| && cal.sessions[id].status !in {Draft, Cancelled})
      && (attempt.Some? ==>
            attempt.value == Calendar(cal.events,
              cal.sessions[id := cal.sessions[id].(status := if pause then SalesPaused else OnSale)]))
  {
    if id < |cal.sessions| { assert SessionCheck(cal.sessions[id]); }
  }

  /** Why a session does not sell: the first of these that is true of it. */
  lemma BlockedExactly(event: EventStatus, s: Session, hasInventory: bool, now: Time)
    requires Ordered(s.times) && Evaluate(event, s, hasInventory, now).Blocked?
    ensures var why := Evaluate(event, s, hasInventory, now).reason;
      var live := event == EventPublished && s.status !in {Cancelled, Completed};
      var inWindow := s.times.salesStartAt <= now < s.times.salesEndAt;
      && (why == EventUnavailable <==> event != EventPublished)
      && (why == SessionCancelled <==> event == EventPublished && s.status == Cancelled)
      && (why == SessionCompleted <==> event == EventPublished && s.status == Completed)
      && (why == SessionStarted <==> live && s.times.startAt <= now)
      && (why == SalesEnded <==> live && s.times.salesEndAt <= now < s.times.startAt)
      && (why == SalesNotStarted <==> live && now < s.times.salesStartAt)
      && (why == SalesNotOpen <==> live && inWindow && s.status != OnSale)
      && (why == NoInventory <==> live && inWindow && s.status == OnSale && !hasInventory)
  {
  }

  // ------------------------------------------------------------------------
  // Events
  // ------------------------------------------------------------------------

  /** What an event's timestamps say it is, archived or not. */
  ghost function Lifecycle(e: Event): EventStatus {
    if e.cancelledAt.Some? then EventCancelled
    else if e.publishedAt.Some? then EventPublished
    else EventDraft
  }

  /** A row that meets its CHECK shows its lifecycle unless it is archived, and then remembers it. */
  lemma ShowsLifecycle(e: Event)
    requires EventCheck(e)
    ensures if e.status == EventArchived then e.preArchive == Some(Lifecycle(e))
            else e.status == Lifecycle(e) && e.preArchive.None?
  {
  }

  /** An event is published exactly when it is a ready draft; a published one is left alone. */
  lemma PublishEventExactly(cal: Calendar, event: EventId, ready: bool, now: Time)
    requires Valid(cal)
    ensures PublishEvent(cal, event, ready, now).Some? <==>
      && event < |cal.events|
      && (cal.events[event].status == EventPublished || (cal.events[event].status == EventDraft && ready))
    ensures PublishEvent(cal, event, ready, now).Some? ==>
      var after := PublishEvent(cal, event, ready, now).value;
      && after.sessions == cal.sessions
      && after.events == if cal.events[event].status == EventPublished then cal.events
           else cal.events[event := Event(EventPublished, Some(now), None, None)]
  {
    if event < |cal.events| { assert EventCheck(cal.events[event]); }
  }

  /** A stale archive commits exactly when the status it observed is the event's lifecycle still. */
  lemma ArchiveExactly(cal: Calendar, event: EventId, observed: EventStatus)
    requires Valid(cal)
    ensures ArchiveEvent(cal, event, observed).Some? <==>
      event < |cal.events| && observed == Lifecycle(cal.events[event])
    ensures ArchiveEvent(cal, event, observed).Some? ==>
      var e := cal.events[event];
      ArchiveEvent(cal, event, observed).value ==
        Calendar(cal.events[event := Event(EventArchived, e.publishedAt, e.cancelledAt, Some(Lifecycle(e)))], cal.sessions)
  {
  }

  /** And a stale restore exactly when the event was not cancelled either; it then shows its lifecycle again. */
  lemma RestoreExactly(cal: Calendar, event: EventId, observed: EventStatus)
    requires Valid(cal)
    ensures RestoreEvent(cal, event, observed).Some? <==>
      event < |cal.events| && observed == Lifecycle(cal.events[event]) != EventCancelled
    ensures RestoreEvent(cal, event, observed).Some? ==>
      var e := cal.events[event];
      RestoreEvent(cal, event, observed).value ==
        Calendar(cal.events[event := Event(Lifecycle(e), e.publishedAt, e.cancelledAt, None)], cal.sessions)
  {
  }

  /** Restoring undoes archiving, for every event that was not cancelled or archived. */
  lemma RestoreUndoesArchive(cal: Calendar, event: EventId)
    requires Valid(cal) && event < |cal.events| && cal.events[event].status in {EventDraft, EventPublished}
    ensures var status := cal.events[event].status;
      && ArchiveEvent(cal, event, status).Some?
      && RestoreEvent(ArchiveEvent(cal, event, status).value, event, status) == Some(cal)
  {
    var e := cal.events[event];
    ShowsLifecycle(e);
    ArchiveExactly(cal, event, e.status);
    var archived := ArchiveEvent(cal, event, e.status).value;
    assert EventCheck(e) && archived.events[event].(status := e.status, preArchive := None) == e;
    assert archived.events[event := e] == cal.events;
  }

  /** A new event is a draft. */
  lemma CreateEventExactly(cal: Calendar)
    ensures CreateEvent(cal) == Calendar(cal.events + [Event(EventDraft, None, None, None)], cal.sessions)
  {
  }
}
