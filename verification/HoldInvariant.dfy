/**
 * What every hold transaction keeps. The invariant has three parts: the
 * calendar's own, the agreement of the inventory and hold tables, and the
 * agreement of the outbox with both.
 */
module HoldInvariant {
  import opened Common
  import opened Schedule
  import opened HoldModel

  ghost predicate SameKey(a: Hold, b: Hold) {
    a.session == b.session && a.user == b.user && a.key == b.key
  }

  ghost predicate Lists(h: Hold, k: RowKey) {
    h.session == k.session && k.seat in h.seats
  }

  /** A row and its hold columns agree, and a HELD row is held by a live hold that lists it. */
  ghost predicate RowOk(row: SeatRow, k: RowKey, holds: seq<Hold>) {
    match row.state
    case Available => row == FREE
    case Booked => row == SeatRow(Booked, None, None)
    case Held =>
      && row.currentHold.Some? && row.currentHold.value < |holds|
      && var h := holds[row.currentHold.value];
         h.status == Active && Lists(h, k) && row.holdExpiresAt == Some(h.expiresAt)
  }

  /** An active hold owns every seat it lists; a converted one has booked them all. */
  ghost predicate HoldOk(h: HoldId, hold: Hold, rows: Rows) {
    && hold.seats != [] && Distinct(hold.seats)
    && (forall k :: Lists(hold, k) ==> k in rows)
    && (hold.status == Active ==>
          forall k :: Lists(hold, k) ==> rows[k] == SeatRow(Held, Some(h), Some(hold.expiresAt)))
    && (hold.status == Converted ==> forall k :: Lists(hold, k) ==> rows[k].state == Booked)
  }

  ghost predicate RowsAgree(rows: Rows, holds: seq<Hold>) {
    forall k :: k in rows ==> RowOk(rows[k], k, holds)
  }

  ghost predicate HoldsAgree(rows: Rows, holds: seq<Hold>) {
    forall h :: 0 <= h < |holds| ==> HoldOk(h, holds[h], rows)
  }

  /** The two unique indexes on the hold table, and that no two sold holds share a seat. */
  ghost predicate PairOk(a: Hold, b: Hold) {
    && !SameKey(a, b)
    && !(a.status == Active && b.status == Active && a.user == b.user && a.session == b.session)
    && (a.status == Converted && b.status == Converted ==> forall k :: !(Lists(a, k) && Lists(b, k)))
  }

  ghost predicate HoldsUnique(holds: seq<Hold>) {
    forall a, b :: 0 <= a < |holds| && 0 <= b < |holds| && a != b ==> PairOk(holds[a], holds[b])
  }

  /** Some converted hold lists the seat. */
  ghost predicate Sold(k: RowKey, holds: seq<Hold>) {
    exists h :: 0 <= h < |holds| && holds[h].status == Converted && Lists(holds[h], k)
  }

  /** Every BOOKED seat was sold with a converted hold. */
  ghost predicate BookedBySomeone(rows: Rows, holds: seq<Hold>) {
    forall k :: k in rows && rows[k].state == Booked ==> Sold(k, holds)
  }

  ghost predicate Tables(rows: Rows, holds: seq<Hold>) {
    RowsAgree(rows, holds) && HoldsAgree(rows, holds) && HoldsUnique(holds) && BookedBySomeone(rows, holds)
  }

  /** No active hold sits on a cancelled session. */
  ghost predicate SessionsAgree(cal: Calendar, holds: seq<Hold>) {
    forall h :: 0 <= h < |holds| ==>
      && holds[h].session < |cal.sessions|
      && (holds[h].status == Active ==> cal.sessions[holds[h].session].status != Cancelled)
  }

  /** Exactly the announcements that the other tables call for. */
  ghost predicate OutboxAgrees(cal: Calendar, holds: seq<Hold>, outbox: Outbox) {
    && (forall h: nat :: HoldCreated(h) in outbox <==> h < |holds|)
    && (forall h: nat :: HoldExpired(h) in outbox <==> h < |holds| && holds[h].status == Expired)
    && (forall h: nat :: InventoryBooked(h) in outbox <==> h < |holds| && holds[h].status == Converted)
    && (forall h: nat :: HoldReleased(h) in outbox ==> h < |holds| && holds[h].status == Released)
    && (forall s: nat :: SessionCancelledEvent(s) in outbox <==>
          s < |cal.sessions| && cal.sessions[s].status == Cancelled)
  }

  ghost predicate Inv(db: Db) {
    && Valid(db.cal)
    && Tables(db.rows, db.holds)
    && SessionsAgree(db.cal, db.holds)
    && OutboxAgrees(db.cal, db.holds, db.outbox)
  }

  // ------------------------------------------------------------------------
  // Ending active holds: expiry, release, cancellation
  // ------------------------------------------------------------------------

  ghost predicate AllActive(holds: seq<Hold>, ids: set<HoldId>) {
    forall h :: h in ids ==> h < |holds| && holds[h].status == Active
  }

  /** Under the invariant a row points into `ids` exactly when one of those holds lists it. */
  lemma PointsExactly(rows: Rows, holds: seq<Hold>, ids: set<HoldId>, k: RowKey)
    requires Tables(rows, holds) && AllActive(holds, ids) && k in rows
    ensures PointsInto(rows[k], ids) <==> exists h :: h in ids && Lists(holds[h], k)
  {
    assert RowOk(rows[k], k, holds);
    if h :| h in ids && Lists(holds[h], k) {
      assert HoldOk(h, holds[h], rows);
    }
  }

  lemma EndKeepsRows(rows: Rows, holds: seq<Hold>, ids: set<HoldId>, status: HoldStatus)
    requires RowsAgree(rows, holds)
    ensures RowsAgree(FreeRows(rows, ids), SetStatus(holds, ids, status))
  {
    forall k | k in rows
      ensures RowOk(FreeRows(rows, ids)[k], k, SetStatus(holds, ids, status))
    {
      assert RowOk(rows[k], k, holds);
    }
  }

  lemma EndKeepsHolds(rows: Rows, holds: seq<Hold>, ids: set<HoldId>, status: HoldStatus)
    requires RowsAgree(rows, holds) && HoldsAgree(rows, holds)
    requires AllActive(holds, ids) && status in {Released, Expired}
    ensures HoldsAgree(FreeRows(rows, ids), SetStatus(holds, ids, status))
  {
    var rows', holds' := FreeRows(rows, ids), SetStatus(holds, ids, status);
    forall h | 0 <= h < |holds'| ensures HoldOk(h, holds'[h], rows') {
      assert HoldOk(h, holds[h], rows);
    }
  }

  lemma EndKeepsUnique(holds: seq<Hold>, ids: set<HoldId>, status: HoldStatus)
    requires HoldsUnique(holds) && status in {Released, Expired}
    ensures HoldsUnique(SetStatus(holds, ids, status))
  {
    var holds' := SetStatus(holds, ids, status);
    forall a, b | 0 <= a < |holds'| && 0 <= b < |holds'| && a != b
      ensures PairOk(holds'[a], holds'[b])
    {
      assert PairOk(holds[a], holds[b]);
    }
  }

  lemma EndKeepsBooked(rows: Rows, holds: seq<Hold>, ids: set<HoldId>, status: HoldStatus)
    requires BookedBySomeone(rows, holds) && AllActive(holds, ids)
    ensures BookedBySomeone(FreeRows(rows, ids), SetStatus(holds, ids, status))
  {
    var rows', holds' := FreeRows(rows, ids), SetStatus(holds, ids, status);
    forall k | k in rows' && rows'[k].state == Booked ensures Sold(k, holds') {
      assert Sold(k, holds);
      var h :| 0 <= h < |holds| && holds[h].status == Converted && Lists(holds[h], k);
      assert holds'[h] == holds[h];
    }
  }

  lemma EndHoldsKeepsTables(rows: Rows, holds: seq<Hold>, ids: set<HoldId>, status: HoldStatus)
    requires Tables(rows, holds) && AllActive(holds, ids) && status in {Released, Expired}
    ensures Tables(FreeRows(rows, ids), SetStatus(holds, ids, status))
  {
    EndKeepsRows(rows, holds, ids, status);
    EndKeepsHolds(rows, holds, ids, status);
    EndKeepsUnique(holds, ids, status);
    EndKeepsBooked(rows, holds, ids, status);
  }

  /** Expiring active holds never meets an event already announced, and keeps the invariant. */
  lemma ExpireKeepsInv(db: Db, ids: set<HoldId>)
    requires Inv(db) && AllActive(db.holds, ids)
    ensures ExpireHolds(db, ids).Some? && Inv(ExpireHolds(db, ids).value)
  {
    assert forall h :: h in ids ==> HoldExpired(h) !in db.outbox;
    var after := ExpireHolds(db, ids).value;
    EndHoldsKeepsTables(db.rows, db.holds, ids, Expired);
    assert OutboxAgrees(after.cal, after.holds, after.outbox);
  }

  lemma ReleaseKeepsOutbox(cal: Calendar, holds: seq<Hold>, outbox: Outbox, hold: HoldId)
    requires OutboxAgrees(cal, holds, outbox) && hold < |holds| && holds[hold].status == Active
    ensures HoldReleased(hold) !in outbox
    ensures OutboxAgrees(cal, SetStatus(holds, {hold}, Released), outbox[HoldReleased(hold) := holds[hold].session])
  {
  }

  lemma ReleaseKeepsInv(db: Db, hold: HoldId)
    requires Inv(db)
    ensures ReleaseTx(db, hold).Some? && Inv(ReleaseTx(db, hold).value.0)
  {
    if hold < |db.holds| && db.holds[hold].status == Active {
      ReleaseKeepsOutbox(db.cal, db.holds, db.outbox, hold);
      EndHoldsKeepsTables(db.rows, db.holds, {hold}, Released);
    }
  }

  /** The calendar after cancelling exactly `sessions` as well. */
  ghost predicate AlsoCancelled(before: Calendar, after: Calendar, sessions: set<SessionId>) {
    && |after.sessions| == |before.sessions|
    && (forall s :: s in sessions ==> s < |before.sessions|)
    && (forall s :: 0 <= s < |before.sessions| ==>
          (after.sessions[s].status == Cancelled <==> before.sessions[s].status == Cancelled || s in sessions))
  }

  lemma CancelKeepsOutbox(cal: Calendar, cal': Calendar, holds: seq<Hold>, outbox: Outbox,
                          ids: set<HoldId>, sessions: set<SessionId>)
    requires OutboxAgrees(cal, holds, outbox) && AllActive(holds, ids) && AlsoCancelled(cal, cal', sessions)
    ensures OutboxAgrees(cal', SetStatus(holds, ids, Released), outbox + CancelEvents(sessions))
  {
    var holds', outbox' := SetStatus(holds, ids, Released), outbox + CancelEvents(sessions);
    assert forall h: nat :: HoldReleased(h) in outbox' <==> HoldReleased(h) in outbox;
    assert forall s: nat :: SessionCancelledEvent(s) in outbox' <==> SessionCancelledEvent(s) in outbox || s in sessions;
  }

  lemma CancelKeepsSessions(cal: Calendar, cal': Calendar, holds: seq<Hold>, sessions: set<SessionId>)
    requires SessionsAgree(cal, holds) && AlsoCancelled(cal, cal', sessions)
    ensures SessionsAgree(cal', SetStatus(holds, ActiveInAny(holds, sessions), Released))
  {
  }

  lemma CancelKeepsInv(db: Db, cal': Calendar, sessions: set<SessionId>)
    requires Inv(db) && Valid(cal') && AlsoCancelled(db.cal, cal', sessions)
    ensures var ids := ActiveInAny(db.holds, sessions);
      Inv(Db(cal', FreeRows(db.rows, ids), SetStatus(db.holds, ids, Released), db.outbox + CancelEvents(sessions)))
  {
    var ids := ActiveInAny(db.holds, sessions);
    EndHoldsKeepsTables(db.rows, db.holds, ids, Released);
    CancelKeepsOutbox(db.cal, cal', db.holds, db.outbox, ids, sessions);
    CancelKeepsSessions(db.cal, cal', db.holds, sessions);
  }

  lemma CancelSessionKeepsInv(db: Db, session: SessionId, now: Time)
    requires Inv(db) && CancelSessionTx(db, session, now).Some?
    ensures Inv(CancelSessionTx(db, session, now).value)
  {
    hide Tables, SessionsAgree, OutboxAgrees;
    ApplyKeepsValid(db.cal, OpCancelSession(session, now));
    assert ActiveInAny(db.holds, {session}) == ActiveIn(db.holds, session);
    assert db.outbox + CancelEvents({session}) == db.outbox[SessionCancelledEvent(session) := session];
    CancelKeepsInv(db, CancelSession(db.cal, session, now), {session});
  }

  lemma CancelEventKeepsInv(db: Db, event: EventId, now: Time)
    requires Inv(db) && CancelEventTx(db, event, now).Some?
    ensures Inv(CancelEventTx(db, event, now).value)
  {
    if db.cal.events[event].status != EventCancelled {
      ApplyKeepsValid(db.cal, OpCancelEvent(event, now));
      CancelKeepsInv(db, CancelEvent(db.cal, event, now).value, CancellableSessions(db.cal, event));
    }
  }

  // ------------------------------------------------------------------------
  // Acquiring
  // ------------------------------------------------------------------------

  lemma KeysSize(session: SessionId, seats: seq<SeatId>)
    requires Distinct(seats)
    ensures |Keys(session, seats)| == |seats|
  {
    if seats != [] {
      var front, last := seats[..|seats| - 1], seats[|seats| - 1];
      KeysSize(session, front);
      assert seats == front + [last];
      assert Keys(session, seats) == Keys(session, front) + {RowKey(session, last)};
      assert RowKey(session, last) !in Keys(session, front);
    }
  }

  /** The count of locked rows matches the request exactly when every requested seat exists. */
  lemma LockedAll(rows: Rows, session: SessionId, seats: seq<SeatId>)
    requires Distinct(seats)
    ensures |set k | k in Keys(session, seats) && k in rows| == |seats|
            <==> forall k :: k in Keys(session, seats) ==> k in rows
  {
    var keys := Keys(session, seats);
    var locked := set k | k in keys && k in rows;
    KeysSize(session, seats);
    if |locked| == |seats| {
      SubsetOfSameSize(locked, keys);
    }
    if forall k :: k in keys ==> k in rows {
      assert locked == keys;
    }
  }

  /** What acquisition checks before it writes: the hold is new, its user free and every seat available. */
  ghost predicate Claimable(rows: Rows, holds: seq<Hold>, hold: Hold) {
    && hold.status == Active && hold.seats != [] && Distinct(hold.seats)
    && (forall k :: Lists(hold, k) ==> k in rows && rows[k].state == Available)
    && (forall h :: 0 <= h < |holds| ==> PairOk(holds[h], hold) && PairOk(hold, holds[h]))
  }

  lemma ClaimKeepsRows(rows: Rows, holds: seq<Hold>, hold: Hold)
    requires RowsAgree(rows, holds) && Claimable(rows, holds, hold)
    ensures RowsAgree(ClaimRows(rows, Keys(hold.session, hold.seats), |holds|, hold.expiresAt), holds + [hold])
  {
    var rows' := ClaimRows(rows, Keys(hold.session, hold.seats), |holds|, hold.expiresAt);
    forall k | k in rows' ensures RowOk(rows'[k], k, holds + [hold]) {
      assert RowOk(rows[k], k, holds);
    }
  }

  lemma ClaimKeepsHolds(rows: Rows, holds: seq<Hold>, hold: Hold)
    requires HoldsAgree(rows, holds) && Claimable(rows, holds, hold)
    ensures HoldsAgree(ClaimRows(rows, Keys(hold.session, hold.seats), |holds|, hold.expiresAt), holds + [hold])
  {
    var rows' := ClaimRows(rows, Keys(hold.session, hold.seats), |holds|, hold.expiresAt);
    forall h | 0 <= h < |holds| + 1 ensures HoldOk(h, (holds + [hold])[h], rows') {
      if h < |holds| {
        assert HoldOk(h, holds[h], rows);
      }
    }
  }

  lemma ClaimKeepsTables(rows: Rows, holds: seq<Hold>, hold: Hold)
    requires Tables(rows, holds) && Claimable(rows, holds, hold)
    ensures Tables(ClaimRows(rows, Keys(hold.session, hold.seats), |holds|, hold.expiresAt), holds + [hold])
  {
    ClaimKeepsRows(rows, holds, hold);
    ClaimKeepsHolds(rows, holds, hold);
    ClaimKeepsBooked(rows, holds, hold);
  }

  lemma ClaimKeepsBooked(rows: Rows, holds: seq<Hold>, hold: Hold)
    requires BookedBySomeone(rows, holds)
    ensures BookedBySomeone(ClaimRows(rows, Keys(hold.session, hold.seats), |holds|, hold.expiresAt), holds + [hold])
  {
    var rows' := ClaimRows(rows, Keys(hold.session, hold.seats), |holds|, hold.expiresAt);
    forall k | k in rows' && rows'[k].state == Booked ensures Sold(k, holds + [hold]) {
      assert Sold(k, holds);
      var h :| 0 <= h < |holds| && holds[h].status == Converted && Lists(holds[h], k);
      assert (holds + [hold])[h] == holds[h];
    }
  }

  /** A request whose locked rows all exist and are available satisfies what ClaimKeepsTables needs. */
  lemma ClaimChecks(db: Db, r: Request, now: Time, duration: Time)
    requires Inv(db) && r.seats != [] && Distinct(r.seats)
    requires ClaimTx(db, r, now, duration).Committed?
    ensures (set k | k in Keys(r.session, r.seats) && k in db.rows) == Keys(r.session, r.seats)
    ensures Claimable(db.rows, db.holds, Hold(r.session, r.user, r.key, r.seats, now + duration, Active))
  {
    hide Evaluate, HasInventory, Enqueue, ClaimRows;
    LockedAll(db.rows, r.session, r.seats);
    var keys := Keys(r.session, r.seats);
    var locked := set k | k in keys && k in db.rows;
    assert locked == keys;
    var hold := Hold(r.session, r.user, r.key, r.seats, now + duration, Active);
    forall k | Lists(hold, k) ensures k in db.rows && db.rows[k].state == Available {
      assert k in locked;
    }
  }

  lemma AddHoldKeepsOutbox(cal: Calendar, holds: seq<Hold>, outbox: Outbox, hold: Hold)
    requires OutboxAgrees(cal, holds, outbox) && hold.status == Active
    ensures OutboxAgrees(cal, holds + [hold], outbox[HoldCreated(|holds|) := hold.session])
  {
  }

  /** What a committed claim leaves, and that its session is not cancelled. */
  lemma ClaimWrites(db: Db, r: Request, now: Time, duration: Time)
    requires ClaimTx(db, r, now, duration).Committed?
    ensures r.session < |db.cal.sessions| && db.cal.sessions[r.session].status != Cancelled
    ensures var locked := set k | k in Keys(r.session, r.seats) && k in db.rows;
      ClaimTx(db, r, now, duration).db == Db(
        db.cal, ClaimRows(db.rows, locked, |db.holds|, now + duration),
        db.holds + [Hold(r.session, r.user, r.key, r.seats, now + duration, Active)],
        db.outbox[HoldCreated(|db.holds|) := r.session])
  {
  }

  lemma AddHoldKeepsSessions(cal: Calendar, holds: seq<Hold>, hold: Hold)
    requires SessionsAgree(cal, holds)
    requires hold.session < |cal.sessions| && cal.sessions[hold.session].status != Cancelled
    ensures SessionsAgree(cal, holds + [hold])
  {
  }

  lemma ClaimKeepsInv(db: Db, r: Request, now: Time, duration: Time)
    requires Inv(db) && r.seats != [] && Distinct(r.seats)
    requires ClaimTx(db, r, now, duration).Committed?
    ensures Inv(ClaimTx(db, r, now, duration).db)
  {
    hide ClaimTx, Tables, Claimable, SessionsAgree, OutboxAgrees, Valid, ClaimRows;
    ClaimChecks(db, r, now, duration);
    ClaimWrites(db, r, now, duration);
    var hold := Hold(r.session, r.user, r.key, r.seats, now + duration, Active);
    ClaimKeepsTables(db.rows, db.holds, hold);
    AddHoldKeepsSessions(db.cal, db.holds, hold);
    AddHoldKeepsOutbox(db.cal, db.holds, db.outbox, hold);
  }

  lemma AcquireKeepsInv(db: Db, r: Request, now: Time, duration: Time)
    requires Inv(db) && r.seats != [] && Distinct(r.seats)
    requires AcquireTx(db, r, now, duration).Committed?
    ensures Inv(AcquireTx(db, r, now, duration).db)
  {
    var overdue := OverdueIn(db.holds, r.session, now);
    ExpireKeepsInv(db, overdue);
    ClaimKeepsInv(ExpireHolds(db, overdue).value, r, now, duration);
  }

  // ------------------------------------------------------------------------
  // Booking and materialising
  // ------------------------------------------------------------------------

  /** A FULFIL decision always finds every seat of the hold still held by it, with the hold's own expiry. */
  lemma FulfilFindsItsSeats(db: Db, hold: HoldId, order: OrderStatus, event: EventStatus, session: SessionStatus, now: Time)
    requires Inv(db) && hold < |db.holds|
    requires DecideFulfilment(order, db.holds[hold].status, db.holds[hold].expiresAt, event, session, now).Fulfil?
    ensures SnapshotsMatch(db, hold)
    ensures |set k | k in Keys(db.holds[hold].session, db.holds[hold].seats) && k in db.rows
                     && db.rows[k].state == Held && db.rows[k].currentHold == Some(hold)|
            == |db.holds[hold].seats|
  {
    var h := db.holds[hold];
    assert HoldOk(hold, h, db.rows);
    forall k | k in Keys(h.session, h.seats) ensures Lists(h, k) {}
    KeysSize(h.session, h.seats);
    assert (set k | k in Keys(h.session, h.seats) && k in db.rows
            && db.rows[k].state == Held && db.rows[k].currentHold == Some(hold)) == Keys(h.session, h.seats);
  }

  lemma BookKeepsRows(rows: Rows, holds: seq<Hold>, hold: HoldId)
    requires RowsAgree(rows, holds) && hold < |holds| && holds[hold].status == Active
    ensures RowsAgree(BookRows(rows, Keys(holds[hold].session, holds[hold].seats), hold),
                      SetStatus(holds, {hold}, Converted))
  {
    var keys := Keys(holds[hold].session, holds[hold].seats);
    var rows', holds' := BookRows(rows, keys, hold), SetStatus(holds, {hold}, Converted);
    forall k | k in rows' ensures RowOk(rows'[k], k, holds') {
      assert RowOk(rows[k], k, holds);
      if rows[k].state == Held && rows[k].currentHold == Some(hold) { assert k in keys; }
    }
  }

  lemma BookKeepsHolds(rows: Rows, holds: seq<Hold>, hold: HoldId)
    requires HoldsAgree(rows, holds) && hold < |holds| && holds[hold].status == Active
    ensures HoldsAgree(BookRows(rows, Keys(holds[hold].session, holds[hold].seats), hold),
                       SetStatus(holds, {hold}, Converted))
  {
    var keys := Keys(holds[hold].session, holds[hold].seats);
    var rows', holds' := BookRows(rows, keys, hold), SetStatus(holds, {hold}, Converted);
    forall h | 0 <= h < |holds'| ensures HoldOk(h, holds'[h], rows') {
      assert HoldOk(h, holds[h], rows);
      forall k | h == hold && Lists(holds'[h], k) ensures rows'[k].state == Booked {
        assert k in keys;
      }
    }
  }

  lemma BookKeepsUnique(rows: Rows, holds: seq<Hold>, hold: HoldId)
    requires HoldsAgree(rows, holds) && HoldsUnique(holds) && hold < |holds| && holds[hold].status == Active
    ensures HoldsUnique(SetStatus(holds, {hold}, Converted))
  {
    var holds' := SetStatus(holds, {hold}, Converted);
    assert HoldOk(hold, holds[hold], rows);
    forall a, b | 0 <= a < |holds'| && 0 <= b < |holds'| && a != b
      ensures PairOk(holds'[a], holds'[b])
    {
      assert PairOk(holds[a], holds[b]);
      assert HoldOk(a, holds[a], rows) && HoldOk(b, holds[b], rows);
    }
  }

  lemma BookKeepsBooked(rows: Rows, holds: seq<Hold>, hold: HoldId)
    requires BookedBySomeone(rows, holds) && hold < |holds| && holds[hold].status == Active
    ensures BookedBySomeone(BookRows(rows, Keys(holds[hold].session, holds[hold].seats), hold),
                            SetStatus(holds, {hold}, Converted))
  {
    var keys := Keys(holds[hold].session, holds[hold].seats);
    var rows', holds' := BookRows(rows, keys, hold), SetStatus(holds, {hold}, Converted);
    forall k | k in rows' && rows'[k].state == Booked ensures Sold(k, holds') {
      if rows[k].state == Booked {
        assert Sold(k, holds);
        var h :| 0 <= h < |holds| && holds[h].status == Converted && Lists(holds[h], k);
        assert holds'[h] == holds[h];
      } else {
        assert Lists(holds'[hold], k);
      }
    }
  }

  lemma BookKeepsTables(rows: Rows, holds: seq<Hold>, hold: HoldId)
    requires Tables(rows, holds) && hold < |holds| && holds[hold].status == Active
    ensures Tables(BookRows(rows, Keys(holds[hold].session, holds[hold].seats), hold),
                   SetStatus(holds, {hold}, Converted))
  {
    BookKeepsRows(rows, holds, hold);
    BookKeepsHolds(rows, holds, hold);
    BookKeepsUnique(rows, holds, hold);
    BookKeepsBooked(rows, holds, hold);
  }

  lemma ConvertKeepsOutbox(cal: Calendar, holds: seq<Hold>, outbox: Outbox, hold: HoldId)
    requires OutboxAgrees(cal, holds, outbox) && hold < |holds| && holds[hold].status == Active
    ensures InventoryBooked(hold) !in outbox
    ensures OutboxAgrees(cal, SetStatus(holds, {hold}, Converted), outbox[InventoryBooked(hold) := holds[hold].session])
  {
  }

  lemma EndingKeepsSessions(cal: Calendar, holds: seq<Hold>, ids: set<HoldId>, status: HoldStatus)
    requires SessionsAgree(cal, holds) && status != Active
    ensures SessionsAgree(cal, SetStatus(holds, ids, status))
  {
  }

  /** What BookTx commits when it fulfils. */
  lemma ConvertKeepsInv(db: Db, hold: HoldId)
    requires Inv(db) && hold < |db.holds| && db.holds[hold].status == Active
    ensures InventoryBooked(hold) !in db.outbox
    ensures var h := db.holds[hold];
      Inv(Db(db.cal, BookRows(db.rows, Keys(h.session, h.seats), hold),
             SetStatus(db.holds, {hold}, Converted), db.outbox[InventoryBooked(hold) := h.session]))
  {
    hide Tables, SessionsAgree, OutboxAgrees, Valid, BookRows;
    BookKeepsTables(db.rows, db.holds, hold);
    ConvertKeepsOutbox(db.cal, db.holds, db.outbox, hold);
    EndingKeepsSessions(db.cal, db.holds, {hold}, Converted);
  }

  /** Booking keeps the invariant, and neither a snapshot mismatch nor an inventory conflict ever stops it. */
  lemma BookKeepsInv(db: Db, hold: HoldId, order: OrderStatus, now: Time)
    requires Inv(db) && hold < |db.holds|
    ensures !BookTx(db, hold, order, now).Mismatch? && !BookTx(db, hold, order, now).BookFailed?
    ensures BookTx(db, hold, order, now).BookedSeats? ==> Inv(BookTx(db, hold, order, now).db)
    ensures BookTx(db, hold, order, now).ForReview? ==> Inv(BookTx(db, hold, order, now).db)
  {
    var h := db.holds[hold];
    var session := db.cal.sessions[h.session];
    var event := db.cal.events[session.event].status;
    match DecideFulfilment(order, h.status, h.expiresAt, event, session.status, now)
    case Idempotent =>
    case Review(code) =>
      ExpireKeepsInv(db, OverdueIn(db.holds, h.session, now));
    case Fulfil =>
      FulfilFindsItsSeats(db, hold, order, event, session.status, now);
      ConvertKeepsInv(db, hold);
  }

  lemma AddKeepsTables(rows: Rows, holds: seq<Hold>, keys: set<RowKey>)
    requires Tables(rows, holds)
    ensures Tables(AddRows(rows, keys), holds)
  {
    var rows' := AddRows(rows, keys);
    forall h | 0 <= h < |holds| ensures HoldOk(h, holds[h], rows') {
      assert HoldOk(h, holds[h], rows);
    }
    forall k | k in rows' ensures RowOk(rows'[k], k, holds) {
      if k in rows { assert RowOk(rows[k], k, holds); }
    }
  }

  lemma PublishKeepsInv(db: Db, session: SessionId, seats: seq<SeatId>, priced: bool, nonce: nat, now: Time)
    requires Inv(db) && PublishTx(db, session, seats, priced, nonce, now).Some?
    ensures Inv(PublishTx(db, session, seats, priced, nonce, now).value)
  {
    hide Tables;
    ApplyKeepsValid(db.cal, OpPublishSession(session, priced, now));
    OnlyCancellationCancels(db.cal, OpPublishSession(session, priced, now));
    AddKeepsTables(db.rows, db.holds, Keys(session, seats));
  }

  /** The remaining calendar transactions leave the seat tables alone. */
  lemma CalendarKeepsInv(db: Db, op: Op)
    requires Inv(db) && Apply(db.cal, op).Some?
    requires !op.OpCancelSession? && !op.OpCancelEvent? && !op.OpPublishSession?
    ensures Inv(db.(cal := Apply(db.cal, op).value))
  {
    ApplyKeepsValid(db.cal, op);
    OnlyCancellationCancels(db.cal, op);
  }
}
