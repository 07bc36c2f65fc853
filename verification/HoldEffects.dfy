/** What each transaction that ends, books or publishes changes, seat by seat, and when it throws. */
module HoldEffects {
  import opened Common
  import opened Schedule
  import opened HoldModel
  import opened HoldInvariant
  import opened HoldRuns

  ghost predicate ListedByOne(holds: seq<Hold>, ids: set<HoldId>, k: RowKey) {
    exists h :: h in ids && h < |holds| && Lists(holds[h], k)
  }

  /** Exactly the holds `ids` get the status, and exactly the seats they list are free again. */
  ghost predicate Ended(before: Db, after: Db, ids: set<HoldId>, status: HoldStatus) {
    && |after.holds| == |before.holds|
    && (forall h :: 0 <= h < |before.holds| ==>
          after.holds[h] == if h in ids then before.holds[h].(status := status) else before.holds[h])
    && after.rows.Keys == before.rows.Keys
    && (forall k :: k in before.rows ==>
          after.rows[k] == if ListedByOne(before.holds, ids, k) then FREE else before.rows[k])
  }

  /** Exactly these keys are new in the outbox. */
  ghost predicate Announced(before: Db, after: Db, keys: set<EventKey>) {
    && after.outbox.Keys == before.outbox.Keys + keys
    && forall e :: e in before.outbox ==> after.outbox[e] == before.outbox[e]
  }

  lemma EndedExactly(before: Db, after: Db, ids: set<HoldId>, status: HoldStatus)
    requires Tables(before.rows, before.holds) && AllActive(before.holds, ids)
    requires after.holds == SetStatus(before.holds, ids, status) && after.rows == FreeRows(before.rows, ids)
    ensures Ended(before, after, ids, status)
  {
    forall k | k in before.rows
      ensures after.rows[k] == if ListedByOne(before.holds, ids, k) then FREE else before.rows[k]
    {
      PointsExactly(before.rows, before.holds, ids, k);
    }
  }

  lemma ExpiryAnnounces(before: Db, after: Db, ids: set<HoldId>)
    requires forall h :: h in ids ==> h < |before.holds|
    requires EnqueueExpired(before.outbox, before.holds, ids) == Some(after.outbox)
    ensures Announced(before, after, set h | h in ids :: HoldExpired(h))
    ensures forall h :: h in ids ==> HoldExpired(h) !in before.outbox
  {
  }

  lemma CancellationAnnounces(before: Db, after: Db, sessions: set<SessionId>)
    requires after.outbox == before.outbox + CancelEvents(sessions)
    requires forall s :: s in sessions ==> SessionCancelledEvent(s) !in before.outbox
    ensures Announced(before, after, set s | s in sessions :: SessionCancelledEvent(s))
  {
  }

  /** Expiry ends exactly the given holds, announces each once and touches nothing else. */
  lemma ExpireDoes(db: Db, ids: set<HoldId>)
    requires Inv(db) && AllActive(db.holds, ids)
    ensures ExpireHolds(db, ids).Some?
    ensures var after := ExpireHolds(db, ids).value;
      && after.cal == db.cal && Ended(db, after, ids, Expired)
      && Announced(db, after, set h | h in ids :: HoldExpired(h))
      && forall h :: h in ids ==> HoldExpired(h) !in db.outbox
  {
    hide Ended, Announced, Tables, Valid, SessionsAgree, OutboxAgrees, SetStatus, FreeRows;
    ExpireKeepsInv(db, ids);
    var after := ExpireHolds(db, ids).value;
    EndedExactly(db, after, ids, Expired);
    ExpiryAnnounces(db, after, ids);
  }

  /** A release ends exactly an active hold, and leaves any other hold and table alone. */
  lemma ReleaseDoes(db: Db, hold: HoldId)
    requires Inv(db)
    ensures ReleaseTx(db, hold).Some?
    ensures var (after, released) := ReleaseTx(db, hold).value;
      && (released <==> hold < |db.holds| && db.holds[hold].status == Active)
      && (!released ==> after == db)
      && (released ==>
            after.cal == db.cal && Ended(db, after, {hold}, Released) && Announced(db, after, {HoldReleased(hold)}))
  {
    hide Ended, Tables, Valid, SessionsAgree, SetStatus, FreeRows;
    ReleaseKeepsInv(db, hold);
    if hold < |db.holds| && db.holds[hold].status == Active {
      EndedExactly(db, ReleaseTx(db, hold).value.0, {hold}, Released);
    }
  }

  /** The calendar after cancelling exactly `ids`. */
  ghost predicate CancelledExactly(before: Calendar, after: Calendar, ids: set<SessionId>, now: Time) {
    && |after.sessions| == |before.sessions|
    && forall s :: 0 <= s < |before.sessions| ==>
         after.sessions[s] == if s in ids then before.sessions[s].(status := Cancelled, cancelledAt := Some(now))
                              else before.sessions[s]
  }

  /** The active holds of the given sessions. */
  ghost function ActiveOf(db: Db, sessions: set<SessionId>): set<HoldId> {
    set h | 0 <= h < |db.holds| && db.holds[h].status == Active && db.holds[h].session in sessions
  }

  /** A cancellation commits exactly once per session, and ends exactly that session's active holds. */
  lemma CancelSessionDoes(db: Db, session: SessionId, now: Time)
    requires Inv(db)
    ensures CancelSessionTx(db, session, now).Some? <==>
      session < |db.cal.sessions| && db.cal.sessions[session].status != Cancelled
    ensures CancelSessionTx(db, session, now).Some? ==>
      var after := CancelSessionTx(db, session, now).value;
      && CancelledExactly(db.cal, after.cal, {session}, now) && after.cal.events == db.cal.events
      && Ended(db, after, ActiveOf(db, {session}), Released)
      && Announced(db, after, {SessionCancelledEvent(session)})
  {
    hide Ended, Tables, Valid, SessionsAgree;
    if CancelSessionTx(db, session, now).Some? {
      assert ActiveOf(db, {session}) == ActiveIn(db.holds, session);
      EndedExactly(db, CancelSessionTx(db, session, now).value, ActiveIn(db.holds, session), Released);
    }
  }

  /** The event's sessions that are neither cancelled nor completed. */
  ghost function OpenOf(cal: Calendar, event: EventId): set<SessionId> {
    set s | 0 <= s < |cal.sessions| && cal.sessions[s].event == event
            && cal.sessions[s].status in {Draft, Scheduled, OnSale, SalesPaused}
  }

  /**
   * Cancelling an event throws only for an event that is missing or archived; it
   * cancels exactly its sessions in one of the four open states, and leaves the
   * event without an open session.
   */
  lemma CancelEventDoes(db: Db, event: EventId, now: Time)
    requires Inv(db)
    ensures CancelEventTx(db, event, now).Some? <==>
      event < |db.cal.events| && db.cal.events[event].status != EventArchived
    ensures CancelEventTx(db, event, now).Some? && db.cal.events[event].status != EventCancelled ==>
      var after := CancelEventTx(db, event, now).value;
      var open := OpenOf(db.cal, event);
      && OpenOf(after.cal, event) == {}
      && CancelledExactly(db.cal, after.cal, open, now)
      && after.cal.events == db.cal.events[event := db.cal.events[event].(status := EventCancelled, cancelledAt := Some(now))]
      && Ended(db, after, ActiveOf(db, open), Released)
      && Announced(db, after, set s | s in open :: SessionCancelledEvent(s))
  {
    hide Ended, Announced, Tables, Valid, SessionsAgree, SetStatus, FreeRows;
    CancelEventCommits(db, event, now);
    if CancelEventTx(db, event, now).Some? && db.cal.events[event].status != EventCancelled {
      var after, open := CancelEventTx(db, event, now).value, OpenOf(db.cal, event);
      assert open == CancellableSessions(db.cal, event);
      assert ActiveOf(db, open) == ActiveInAny(db.holds, open);
      EndedExactly(db, after, ActiveInAny(db.holds, open), Released);
      CancellationAnnounces(db, after, open);
    }
  }

  lemma CancelEventCommits(db: Db, event: EventId, now: Time)
    requires OutboxAgrees(db.cal, db.holds, db.outbox)
    ensures CancelEventTx(db, event, now).Some? <==>
      event < |db.cal.events| && db.cal.events[event].status != EventArchived
    ensures forall s :: s in CancellableSessions(db.cal, event) ==> SessionCancelledEvent(s) !in db.outbox
  {
  }

  /** Booking converts exactly its hold, books exactly the seats it lists and announces it once. */
  lemma BookDoes(db: Db, hold: HoldId, order: OrderStatus, now: Time)
    requires Inv(db) && BookTx(db, hold, order, now).BookedSeats?
    ensures var after := BookTx(db, hold, order, now).db;
      && after.cal == db.cal && Announced(db, after, {InventoryBooked(hold)})
      && after.holds == db.holds[hold := db.holds[hold].(status := Converted)]
      && after.rows.Keys == db.rows.Keys
      && forall k :: k in db.rows ==>
           after.rows[k] == if Lists(db.holds[hold], k) then SeatRow(Booked, None, None) else db.rows[k]
  {
    hide Valid, SessionsAgree, OutboxAgrees, Tables, BookRows, SetStatus, Lists;
    BookWrites(db, hold, order, now);
    BookedRowsExactly(db.rows, db.holds, hold);
    ConvertsOne(db.holds, hold);
  }

  lemma BookWrites(db: Db, hold: HoldId, order: OrderStatus, now: Time)
    requires BookTx(db, hold, order, now).BookedSeats?
    ensures hold < |db.holds| && db.holds[hold].status == Active && InventoryBooked(hold) !in db.outbox
    ensures var h := db.holds[hold];
      BookTx(db, hold, order, now).db == Db(
        db.cal, BookRows(db.rows, Keys(h.session, h.seats), hold), SetStatus(db.holds, {hold}, Converted),
        db.outbox[InventoryBooked(hold) := h.session])
  {
    hide SnapshotsMatch, BookRows, SetStatus, Keys, ExpireHolds;
  }

  lemma ConvertsOne(holds: seq<Hold>, hold: HoldId)
    requires hold < |holds|
    ensures SetStatus(holds, {hold}, Converted) == holds[hold := holds[hold].(status := Converted)]
  {
  }

  lemma BookedRowsExactly(rows: Rows, holds: seq<Hold>, hold: HoldId)
    requires Tables(rows, holds) && hold < |holds| && holds[hold].status == Active
    ensures BookRows(rows, Keys(holds[hold].session, holds[hold].seats), hold).Keys == rows.Keys
    ensures forall k :: k in rows ==>
      BookRows(rows, Keys(holds[hold].session, holds[hold].seats), hold)[k]
      == if Lists(holds[hold], k) then SeatRow(Booked, None, None) else rows[k]
  {
    var h := holds[hold];
    assert HoldOk(hold, h, rows);
    forall k | k in rows ensures k in Keys(h.session, h.seats) <==> Lists(h, k) {
      if Lists(h, k) { assert k == RowKey(h.session, k.seat); }
    }
  }

  /**
   * A publication that commits leaves the session with exactly one row for each
   * sellable seat, the new ones free, and every row that was there as it was. It
   is announced exactly when it adds a row.
   */
  lemma PublishDoes(db: Db, session: SessionId, seats: seq<SeatId>, priced: bool, nonce: nat, now: Time)
    requires PublishTx(db, session, seats, priced, nonce, now).Some? && Distinct(seats)
    ensures var after := PublishTx(db, session, seats, priced, nonce, now).value;
      && (forall k :: k in db.rows ==> k in after.rows && after.rows[k] == db.rows[k])
      && (forall k :: k in after.rows && k !in db.rows ==> k in Keys(session, seats) && after.rows[k] == FREE)
      && (after.cal != db.cal ==> RowsOf(after.rows, session) == Keys(session, seats))
      && (after.cal == db.cal ==> after == db) && after.holds == db.holds
      && Announced(db, after, if after.rows == db.rows then {} else {InventoryMaterialized(session, nonce)})
  {
    hide AddRows, RowsOf, Keys, PublishSession;
    PublishWrites(db, session, seats, priced, nonce, now);
    AddsFree(db.rows, session, seats);
  }

  lemma PublishWrites(db: Db, session: SessionId, seats: seq<SeatId>, priced: bool, nonce: nat, now: Time)
    requires PublishTx(db, session, seats, priced, nonce, now).Some?
    ensures var after := PublishTx(db, session, seats, priced, nonce, now).value;
      && after.holds == db.holds
      && (after.cal == db.cal ==> after == db)
      && (after.cal != db.cal ==>
            after.rows == AddRows(db.rows, Keys(session, seats)) && |RowsOf(after.rows, session)| == |seats|)
      && Announced(db, after, if after.rows == db.rows then {} else {InventoryMaterialized(session, nonce)})
  {
    hide AddRows, RowsOf, Keys, PublishSession;
  }

  lemma AddsFree(rows: Rows, session: SessionId, seats: seq<SeatId>)
    requires Distinct(seats)
    ensures var after := AddRows(rows, Keys(session, seats));
      && (forall k :: k in rows ==> k in after && after[k] == rows[k])
      && (forall k :: k in after && k !in rows ==> k in Keys(session, seats) && after[k] == FREE)
      && (|RowsOf(after, session)| == |seats| ==> RowsOf(after, session) == Keys(session, seats))
  {
    var keys := Keys(session, seats);
    KeysSize(session, seats);
    var all := RowsOf(AddRows(rows, keys), session);
    assert keys <= all;
    if |all| == |seats| { SubsetOfSameSize(keys, all); }
  }

  /** The seats counted as released are the rows that change. */
  lemma FreedIsChanged(db: Db, ids: set<HoldId>)
    requires Inv(db)
    ensures FreedCount(db.rows, ids) == |set k | k in db.rows && FreeRows(db.rows, ids)[k] != db.rows[k]|
  {
    forall k | k in db.rows ensures PointsInto(db.rows[k], ids) <==> FreeRows(db.rows, ids)[k] != db.rows[k] {
      assert RowOk(db.rows[k], k, db.holds);
    }
    assert (set k | k in db.rows && PointsInto(db.rows[k], ids))
      == set k | k in db.rows && FreeRows(db.rows, ids)[k] != db.rows[k];
  }
}
