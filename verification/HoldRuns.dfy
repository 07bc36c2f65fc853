/** Whole runs of the hold system, in any order and with any clock readings. */
module HoldRuns {
  import opened Common
  import opened Schedule
  import opened HoldModel
  import opened HoldInvariant

  // ------------------------------------------------------------------------
  // Exactly when an acquisition succeeds
  // ------------------------------------------------------------------------

  /** A seat is free for the taking if it is available, or held past its expiry. */
  ghost predicate Takeable(row: SeatRow, now: Time) {
    row.state == Available || (row.state == Held && row.holdExpiresAt.Some? && row.holdExpiresAt.value <= now)
  }

  ghost predicate SameOwner(h: Hold, r: Request) {
    h.session == r.session && h.user == r.user
  }

  ghost predicate AcquireAllowed(db: Db, r: Request, now: Time) {
    && SessionSellable(db.cal, r.session, true, now)
    && (forall k :: k in Keys(r.session, r.seats) ==> k in db.rows && Takeable(db.rows[k], now))
    && (forall h :: 0 <= h < |db.holds| ==> !(SameOwner(db.holds[h], r) && db.holds[h].key == r.key))
    && (forall h :: 0 <= h < |db.holds| && db.holds[h].status == Active && db.holds[h].expiresAt > now ==>
          !SameOwner(db.holds[h], r))
  }

  /** What lazy expiry leaves of the requested session's rows. */
  lemma CleanedRow(rows: Rows, holds: seq<Hold>, session: SessionId, now: Time, k: RowKey)
    requires RowsAgree(rows, holds) && k in rows && k.session == session
    ensures var cleaned := FreeRows(rows, OverdueIn(holds, session, now));
      cleaned[k].state == Available <==> Takeable(rows[k], now)
  {
    assert RowOk(rows[k], k, holds);
  }

  /** The tests of the locked part, one by one. */
  lemma ClaimExact(db: Db, r: Request, now: Time, duration: Time)
    requires r.seats != [] && Distinct(r.seats) && HoldCreated(|db.holds|) !in db.outbox
    ensures ClaimTx(db, r, now, duration).Committed? <==>
      && SessionSellable(db.cal, r.session, true, now)
      && (forall k :: k in Keys(r.session, r.seats) ==> k in db.rows && db.rows[k].state == Available)
      && !KeyUsed(db.holds, r) && !HoldsInSession(db.holds, r)
  {
    var keys := Keys(r.session, r.seats);
    var locked := set k | k in keys && k in db.rows;
    LockedAll(db.rows, r.session, r.seats);
    var first := RowKey(r.session, r.seats[0]);
    assert r.seats[0] in r.seats && first in keys;
    if first in db.rows {
      assert HasInventory(db.rows, r.session);
    }
    if |locked| == |r.seats| {
      assert forall k :: k in keys ==> k in locked;
    }
  }

  /** Expiring the overdue holds leaves exactly the live ones for the two uniqueness checks. */
  lemma UniquenessChecks(holds: seq<Hold>, r: Request, now: Time)
    ensures var cleaned := SetStatus(holds, OverdueIn(holds, r.session, now), Expired);
      && (!KeyUsed(cleaned, r) <==>
            (forall h :: 0 <= h < |holds| ==> !(SameOwner(holds[h], r) && holds[h].key == r.key)))
      && (!HoldsInSession(cleaned, r) <==>
            (forall h :: 0 <= h < |holds| && holds[h].status == Active && holds[h].expiresAt > now ==>
               !SameOwner(holds[h], r)))
  {
    var cleaned := SetStatus(holds, OverdueIn(holds, r.session, now), Expired);
    forall h | 0 <= h < |holds| && SameOwner(holds[h], r) && holds[h].key == r.key ensures KeyUsed(cleaned, r) {
      assert cleaned[h].key == r.key;
    }
    forall h | 0 <= h < |holds| && holds[h].status == Active && holds[h].expiresAt > now && SameOwner(holds[h], r)
      ensures HoldsInSession(cleaned, r)
    {
      assert cleaned[h] == holds[h];
    }
  }

  /** Lazy expiry writes its events and touches neither the calendar nor HOLD_CREATED. */
  lemma Cleaned(db: Db, r: Request, now: Time)
    requires OutboxAgrees(db.cal, db.holds, db.outbox)
    ensures var ids := OverdueIn(db.holds, r.session, now); var e := ExpireHolds(db, ids);
      && e.Some? && HoldCreated(|e.value.holds|) !in e.value.outbox
      && e.value.cal == db.cal && e.value.rows == FreeRows(db.rows, ids)
      && e.value.holds == SetStatus(db.holds, ids, Expired)
  {
  }

  /** A request commits exactly when the session sells, every seat is takeable, the key is new and the user free. */
  lemma AcquireExact(db: Db, r: Request, now: Time, duration: Time)
    requires Inv(db) && r.seats != [] && Distinct(r.seats)
    ensures AcquireTx(db, r, now, duration).Committed? <==> AcquireAllowed(db, r, now)
  {
    Cleaned(db, r, now);
    var cleaned := ExpireHolds(db, OverdueIn(db.holds, r.session, now)).value;
    ClaimExact(cleaned, r, now, duration);
    UniquenessChecks(db.holds, r, now);
    forall k | k in Keys(r.session, r.seats) && k in db.rows
      ensures cleaned.rows[k].state == Available <==> Takeable(db.rows[k], now)
    {
      CleanedRow(db.rows, db.holds, r.session, now, k);
    }
  }

  /** What a successful acquisition changes, and what it leaves alone. */
  ghost predicate AcquireEffect(db: Db, r: Request, now: Time, expiresAt: Time, after: Db) {
    var ids := set h | 0 <= h < |db.holds| && db.holds[h].status == Active && db.holds[h].expiresAt <= now
                       && db.holds[h].session == r.session;
    && after.cal == db.cal
    && |after.holds| == |db.holds| + 1
    && after.holds[|db.holds|] == Hold(r.session, r.user, r.key, r.seats, expiresAt, Active)
    && (forall h :: 0 <= h < |db.holds| ==>
          after.holds[h] == if h in ids then db.holds[h].(status := Expired) else db.holds[h])
    && after.rows.Keys == db.rows.Keys
    && (forall k :: k in Keys(r.session, r.seats) ==>
          k in after.rows && after.rows[k] == SeatRow(Held, Some(|db.holds|), Some(expiresAt)))
    && (forall k :: k in db.rows && k !in Keys(r.session, r.seats) ==>
          after.rows[k] == if PointsInto(db.rows[k], ids) then FREE else db.rows[k])
    && (forall e :: e in after.outbox <==>
          e in db.outbox || e == HoldCreated(|db.holds|) || (e.HoldExpired? && e.hold in ids))
  }

  lemma ClaimEffect(db: Db, r: Request, now: Time, duration: Time)
    requires Distinct(r.seats) && ClaimTx(db, r, now, duration).Committed?
    ensures var done := ClaimTx(db, r, now, duration);
      && Keys(r.session, r.seats) <= db.rows.Keys
      && done.hold == |db.holds|
      && done.db == Db(db.cal, ClaimRows(db.rows, Keys(r.session, r.seats), |db.holds|, now + duration),
                       db.holds + [Hold(r.session, r.user, r.key, r.seats, now + duration, Active)],
                       db.outbox[HoldCreated(|db.holds|) := r.session])
  {
    LockedAll(db.rows, r.session, r.seats);
    var locked := set k | k in Keys(r.session, r.seats) && k in db.rows;
    assert locked == Keys(r.session, r.seats);
  }

  lemma AcquireDoes(db: Db, r: Request, now: Time, duration: Time)
    requires OutboxAgrees(db.cal, db.holds, db.outbox) && Distinct(r.seats)
    requires AcquireTx(db, r, now, duration).Committed?
    ensures AcquireTx(db, r, now, duration).hold == |db.holds|
    ensures AcquireEffect(db, r, now, now + duration, AcquireTx(db, r, now, duration).db)
  {
    Cleaned(db, r, now);
    assert OverdueIn(db.holds, r.session, now) == set h | 0 <= h < |db.holds| && db.holds[h].status == Active
      && db.holds[h].expiresAt <= now && db.holds[h].session == r.session;
    ClaimEffect(ExpireHolds(db, OverdueIn(db.holds, r.session, now)).value, r, now, duration);
  }

  // ------------------------------------------------------------------------
  // Runs
  // ------------------------------------------------------------------------

  datatype Action =
    | Calendaring(op: Op)
    | Publishing(session: SessionId, seats: seq<SeatId>, priced: bool, nonce: nat, now: Time)
    | CancellingSession(session: SessionId, now: Time)
    | CancellingEvent(event: EventId, now: Time)
    | Acquiring(request: Request, maxSeats: nat, now: Time, duration: Time)
    | Releasing(hold: HoldId)
    | Sweeping(chosen: set<HoldId>, now: Time)
    | Booking(hold: HoldId, order: OrderStatus, now: Time)

  /** A sweeper's batch: whichever overdue holds it managed to lock. */
  function Batch(db: Db, chosen: set<HoldId>, now: Time): set<HoldId> {
    chosen * Overdue(db.holds, now)
  }

  /** One committed or rolled-back transaction. */
  function Step(db: Db, a: Action): Db {
    match a
    case Calendaring(op) =>
      if op.OpCancelSession? || op.OpCancelEvent? || op.OpPublishSession? then db
      else (match Apply(db.cal, op) case Some(cal) => db.(cal := cal) case None => db)
    case Publishing(s, seats, priced, nonce, now) => OrElse(PublishTx(db, s, seats, priced, nonce, now), db)
    case CancellingSession(s, now) => OrElse(CancelSessionTx(db, s, now), db)
    case CancellingEvent(e, now) => OrElse(CancelEventTx(db, e, now), db)
    case Acquiring(r, maxSeats, now, duration) =>
      if !ValidRequest(r, maxSeats) then db
      else (match AcquireTx(db, r, now, duration) case Committed(after, _) => after case Thrown(_) => db)
    case Releasing(h) => (match ReleaseTx(db, h) case Some(done) => done.0 case None => db)
    case Sweeping(chosen, now) => OrElse(ExpireHolds(db, Batch(db, chosen, now)), db)
    case Booking(h, order, now) =>
      (match BookTx(db, h, order, now)
       case BookedSeats(after) => after
       case ForReview(after, _) => after
       case _ => db)
  }

  function OrElse(attempt: Option<Db>, db: Db): Db {
    match attempt case Some(after) => after case None => db
  }

  function Run(db: Db, actions: seq<Action>): Db
    decreases |actions|
  {
    if actions == [] then db else Run(Step(db, actions[0]), actions[1..])
  }

  lemma ValidRequestShape(r: Request, maxSeats: nat)
    requires ValidRequest(r, maxSeats)
    ensures r.seats != [] && Distinct(r.seats)
  {
    DistinctSize(r.seats);
  }

  lemma StepKeepsInv(db: Db, a: Action)
    requires Inv(db)
    ensures Inv(Step(db, a))
  {
    match a
    case Calendaring(op) =>
      if Apply(db.cal, op).Some? && !op.OpCancelSession? && !op.OpCancelEvent? && !op.OpPublishSession? {
        CalendarKeepsInv(db, op);
      }
    case Publishing(s, seats, priced, nonce, now) =>
      if PublishTx(db, s, seats, priced, nonce, now).Some? { PublishKeepsInv(db, s, seats, priced, nonce, now); }
    case CancellingSession(s, now) =>
      if CancelSessionTx(db, s, now).Some? { CancelSessionKeepsInv(db, s, now); }
    case CancellingEvent(e, now) =>
      if CancelEventTx(db, e, now).Some? { CancelEventKeepsInv(db, e, now); }
    case Acquiring(r, maxSeats, now, duration) =>
      if ValidRequest(r, maxSeats) && AcquireTx(db, r, now, duration).Committed? {
        ValidRequestShape(r, maxSeats);
        AcquireKeepsInv(db, r, now, duration);
      }
    case Releasing(h) => ReleaseKeepsInv(db, h);
    case Sweeping(chosen, now) => ExpireKeepsInv(db, Batch(db, chosen, now));
    case Booking(h, order, now) => if h < |db.holds| { BookKeepsInv(db, h, order, now); }
  }

  /** Every state any run reaches satisfies the invariant. */
  lemma {:induction false} RunKeepsInv(db: Db, actions: seq<Action>)
    requires Inv(db)
    ensures Inv(Run(db, actions))
    decreases |actions|
  {
    if actions != [] {
      StepKeepsInv(db, actions[0]);
      RunKeepsInv(Step(db, actions[0]), actions[1..]);
    }
  }

  /** The empty system satisfies the invariant. */
  lemma EmptyInv()
    ensures Inv(Db(Calendar([], []), map[], [], map[]))
  {
  }

  /** The session has its space at that instant. */
  ghost predicate Occupies(s: Session, space: SpaceId, at: Time) {
    s.status != Cancelled && s.space == space && s.times.startAt <= at < s.times.endAt
  }

  /** Whatever runs, no instant of a space is ever promised to two sessions. */
  lemma SpaceNeverDoubleBooked(db: Db, actions: seq<Action>)
    requires Inv(db)
    ensures var sessions := Run(db, actions).cal.sessions;
      forall i, j, space, at ::
        0 <= i < |sessions| && 0 <= j < |sessions| && i != j && Occupies(sessions[i], space, at) ==>
          !Occupies(sessions[j], space, at)
  {
    RunKeepsInv(db, actions);
    var sessions := Run(db, actions).cal.sessions;
    forall i, j, space, at | 0 <= i < |sessions| && 0 <= j < |sessions| && i != j && Occupies(sessions[i], space, at)
      ensures !Occupies(sessions[j], space, at)
    {
      assert sessions[j].status != Cancelled ==> Disjoint(sessions[i], sessions[j]);
    }
  }

  // ------------------------------------------------------------------------
  // What no run undoes
  // ------------------------------------------------------------------------

  /** The identity of a hold never changes, and neither does a terminal status. */
  ghost predicate HoldFollows(a: Hold, b: Hold) {
    b == a.(status := b.status) && (a.status != Active ==> b.status == a.status)
  }

  /** b is a possible later state of a. */
  ghost predicate Later(a: Db, b: Db) {
    && Progress(a.cal, b.cal)
    && |a.holds| <= |b.holds|
    && (forall h :: 0 <= h < |a.holds| ==> HoldFollows(a.holds[h], b.holds[h]))
    && (forall k :: k in a.rows ==> k in b.rows && (a.rows[k].state == Booked ==> b.rows[k] == a.rows[k]))
    && (forall e :: e in a.outbox ==> e in b.outbox && b.outbox[e] == a.outbox[e])
  }

  lemma LaterTransitive(a: Db, b: Db, c: Db)
    requires Later(a, b) && Later(b, c)
    ensures Later(a, c)
  {
    forall h | 0 <= h < |a.holds| ensures HoldFollows(a.holds[h], c.holds[h]) {
      assert HoldFollows(a.holds[h], b.holds[h]) && HoldFollows(b.holds[h], c.holds[h]);
    }
  }

  /** Freeing the rows of active holds leaves BOOKED seats alone. */
  lemma FreeingSparesBooked(rows: Rows, holds: seq<Hold>, ids: set<HoldId>)
    requires RowsAgree(rows, holds)
    ensures forall k :: k in rows && rows[k].state == Booked ==> FreeRows(rows, ids)[k] == rows[k]
  {
    forall k | k in rows && rows[k].state == Booked ensures FreeRows(rows, ids)[k] == rows[k] {
      assert RowOk(rows[k], k, holds);
    }
  }

  lemma EndingIsLater(db: Db, after: Db, ids: set<HoldId>, status: HoldStatus)
    requires RowsAgree(db.rows, db.holds) && AllActive(db.holds, ids) && Progress(db.cal, after.cal)
    requires after.rows == FreeRows(db.rows, ids) && after.holds == SetStatus(db.holds, ids, status)
    requires forall e :: e in db.outbox ==> e in after.outbox && after.outbox[e] == db.outbox[e]
    ensures Later(db, after)
  {
    FreeingSparesBooked(db.rows, db.holds, ids);
  }

  lemma ExpiringIsLater(db: Db, ids: set<HoldId>)
    requires RowsAgree(db.rows, db.holds) && AllActive(db.holds, ids) && ExpireHolds(db, ids).Some?
    ensures Later(db, ExpireHolds(db, ids).value)
  {
    EndingIsLater(db, ExpireHolds(db, ids).value, ids, Expired);
  }

  lemma CancellingSessionIsLater(db: Db, s: SessionId, now: Time)
    requires Valid(db.cal) && RowsAgree(db.rows, db.holds) && CancelSessionTx(db, s, now).Some?
    ensures Later(db, CancelSessionTx(db, s, now).value)
  {
    ApplyKeepsValid(db.cal, OpCancelSession(s, now));
    EndingIsLater(db, CancelSessionTx(db, s, now).value, ActiveIn(db.holds, s), Released);
  }

  lemma CancellingEventIsLater(db: Db, e: EventId, now: Time)
    requires Valid(db.cal) && RowsAgree(db.rows, db.holds) && CancelEventTx(db, e, now).Some?
    ensures Later(db, CancelEventTx(db, e, now).value)
  {
    if db.cal.events[e].status != EventCancelled {
      ApplyKeepsValid(db.cal, OpCancelEvent(e, now));
      EndingIsLater(db, CancelEventTx(db, e, now).value, ActiveInAny(db.holds, CancellableSessions(db.cal, e)), Released);
    }
  }

  lemma ReleasingIsLater(db: Db, h: HoldId)
    requires RowsAgree(db.rows, db.holds) && ReleaseTx(db, h).Some?
    ensures Later(db, ReleaseTx(db, h).value.0)
  {
    if h < |db.holds| && db.holds[h].status == Active {
      EndingIsLater(db, ReleaseTx(db, h).value.0, {h}, Released);
    }
  }

  lemma ClaimingIsLater(db: Db, r: Request, now: Time, duration: Time)
    requires Distinct(r.seats) && ClaimTx(db, r, now, duration).Committed?
    ensures Later(db, ClaimTx(db, r, now, duration).db)
  {
    ClaimEffect(db, r, now, duration);
    LockedAll(db.rows, r.session, r.seats);
    assert forall k :: k in Keys(r.session, r.seats) && k in db.rows ==>
      k in (set j | j in Keys(r.session, r.seats) && j in db.rows);
  }

  lemma AcquiringIsLater(db: Db, r: Request, now: Time, duration: Time)
    requires RowsAgree(db.rows, db.holds) && Distinct(r.seats) && AcquireTx(db, r, now, duration).Committed?
    ensures Later(db, AcquireTx(db, r, now, duration).db)
  {
    var ids := OverdueIn(db.holds, r.session, now);
    var cleaned := ExpireHolds(db, ids).value;
    ExpiringIsLater(db, ids);
    ClaimingIsLater(cleaned, r, now, duration);
    LaterTransitive(db, cleaned, AcquireTx(db, r, now, duration).db);
  }

  lemma BookedIsLater(db: Db, h: HoldId, order: OrderStatus, now: Time)
    requires BookTx(db, h, order, now).BookedSeats?
    ensures Later(db, BookTx(db, h, order, now).db)
  {
  }

  lemma ReviewedIsLater(db: Db, h: HoldId, order: OrderStatus, now: Time)
    requires RowsAgree(db.rows, db.holds) && BookTx(db, h, order, now).ForReview?
    ensures Later(db, BookTx(db, h, order, now).db)
  {
    var ids := OverdueIn(db.holds, db.holds[h].session, now);
    if ExpireHolds(db, ids).Some? { ExpiringIsLater(db, ids); }
  }

  lemma PublishingIsLater(db: Db, s: SessionId, seats: seq<SeatId>, priced: bool, nonce: nat, now: Time)
    requires Valid(db.cal) && PublishTx(db, s, seats, priced, nonce, now).Some?
    ensures Later(db, PublishTx(db, s, seats, priced, nonce, now).value)
  {
    ApplyKeepsValid(db.cal, OpPublishSession(s, priced, now));
  }

  lemma StepIsLater(db: Db, a: Action)
    requires Inv(db)
    ensures Later(db, Step(db, a))
  {
    match a
    case Calendaring(op) => if Apply(db.cal, op).Some? { ApplyKeepsValid(db.cal, op); }
    case Publishing(s, seats, priced, nonce, now) =>
      if PublishTx(db, s, seats, priced, nonce, now).Some? { PublishingIsLater(db, s, seats, priced, nonce, now); }
    case CancellingSession(s, now) =>
      if CancelSessionTx(db, s, now).Some? { CancellingSessionIsLater(db, s, now); }
    case CancellingEvent(e, now) =>
      if CancelEventTx(db, e, now).Some? { CancellingEventIsLater(db, e, now); }
    case Acquiring(r, maxSeats, now, duration) =>
      if ValidRequest(r, maxSeats) && AcquireTx(db, r, now, duration).Committed? {
        ValidRequestShape(r, maxSeats);
        AcquiringIsLater(db, r, now, duration);
      }
    case Releasing(h) => ReleaseKeepsInv(db, h); ReleasingIsLater(db, h);
    case Sweeping(chosen, now) =>
      ExpireKeepsInv(db, Batch(db, chosen, now));
      ExpiringIsLater(db, Batch(db, chosen, now));
    case Booking(h, order, now) =>
      var r := BookTx(db, h, order, now);
      if r.BookedSeats? { BookedIsLater(db, h, order, now); }
      if r.ForReview? { ReviewedIsLater(db, h, order, now); }
  }

  /** Terminal holds, BOOKED seats, cancelled sessions and announcements survive every run unchanged. */
  lemma {:induction false} RunIsLater(db: Db, actions: seq<Action>)
    requires Inv(db)
    ensures Later(db, Run(db, actions))
    decreases |actions|
  {
    if actions != [] {
      StepKeepsInv(db, actions[0]);
      StepIsLater(db, actions[0]);
      RunIsLater(Step(db, actions[0]), actions[1..]);
      LaterTransitive(db, Step(db, actions[0]), Run(db, actions));
    }
  }

  // ------------------------------------------------------------------------
  // Consequences
  // ------------------------------------------------------------------------

  /** Under the invariant a seat's state says exactly what the holds say about it. */
  lemma SeatStateExact(rows: Rows, holds: seq<Hold>, k: RowKey)
    requires Tables(rows, holds) && k in rows
    ensures rows[k].state == Held <==> exists h ::
      0 <= h < |holds| && holds[h].status == Active && Lists(holds[h], k)
        && rows[k].currentHold == Some(h) && rows[k].holdExpiresAt == Some(holds[h].expiresAt)
    ensures rows[k].state == Booked <==> Sold(k, holds)
  {
    assert RowOk(rows[k], k, holds);
    if h :| 0 <= h < |holds| && holds[h].status in {Active, Converted} && Lists(holds[h], k) {
      assert HoldOk(h, holds[h], rows);
    }
    if h :| 0 <= h < |holds| && holds[h].status == Converted && Lists(holds[h], k) {
      assert HoldOk(h, holds[h], rows);
    }
  }

  /**
   * In every state a run reaches, a seat is HELD exactly when it points at an
   * active hold of its session that lists it with the same expiry, and BOOKED
   * exactly when it was sold; every active hold owns all its seats.
   */
  lemma SeatStatesOverRun(db: Db, actions: seq<Action>)
    requires Inv(db)
    ensures var end := Run(db, actions);
      && (forall k :: k in end.rows && end.rows[k].state == Held ==> exists h ::
            0 <= h < |end.holds| && end.holds[h].status == Active && Lists(end.holds[h], k)
            && end.rows[k].currentHold == Some(h) && end.rows[k].holdExpiresAt == Some(end.holds[h].expiresAt))
      && (forall k :: k in end.rows ==> (end.rows[k].state == Booked <==> Sold(k, end.holds)))
      && (forall h, k :: 0 <= h < |end.holds| && end.holds[h].status == Active && Lists(end.holds[h], k) ==>
            k in end.rows && end.rows[k] == SeatRow(Held, Some(h), Some(end.holds[h].expiresAt)))
  {
    RunKeepsInv(db, actions);
    var end := Run(db, actions);
    forall k | k in end.rows
      ensures end.rows[k].state == Booked <==> Sold(k, end.holds)
    {
      SeatStateExact(end.rows, end.holds, k);
    }
    forall k | k in end.rows && end.rows[k].state == Held
      ensures exists h ::
        0 <= h < |end.holds| && end.holds[h].status == Active && Lists(end.holds[h], k)
        && end.rows[k].currentHold == Some(h) && end.rows[k].holdExpiresAt == Some(end.holds[h].expiresAt)
    {
      SeatStateExact(end.rows, end.holds, k);
    }
    forall h, k | 0 <= h < |end.holds| && end.holds[h].status == Active && Lists(end.holds[h], k)
      ensures k in end.rows && end.rows[k] == SeatRow(Held, Some(h), Some(end.holds[h].expiresAt))
    {
      assert HoldOk(h, end.holds[h], end.rows);
    }
  }

  /** Two live or sold holds never list the same seat. */
  lemma ClaimsAreDisjoint(rows: Rows, holds: seq<Hold>, a: HoldId, b: HoldId, k: RowKey)
    requires HoldsAgree(rows, holds) && HoldsUnique(holds)
    requires a < |holds| && b < |holds| && a != b
    requires holds[a].status in {Active, Converted} && holds[b].status in {Active, Converted}
    ensures !(Lists(holds[a], k) && Lists(holds[b], k))
  {
    assert HoldOk(a, holds[a], rows) && HoldOk(b, holds[b], rows) && PairOk(holds[a], holds[b]);
  }

  /** No run ever leaves two live or sold claims on one seat. */
  lemma NoDoubleAllocation(db: Db, actions: seq<Action>)
    requires Inv(db)
    ensures var end := Run(db, actions).holds;
      forall a, b, k :: 0 <= a < |end| && 0 <= b < |end| && a != b
        && end[a].status in {Active, Converted} && end[b].status in {Active, Converted}
        ==> !(Lists(end[a], k) && Lists(end[b], k))
  {
    RunKeepsInv(db, actions);
    var end := Run(db, actions);
    forall a, b, k | 0 <= a < |end.holds| && 0 <= b < |end.holds| && a != b
        && end.holds[a].status in {Active, Converted} && end.holds[b].status in {Active, Converted}
      ensures !(Lists(end.holds[a], k) && Lists(end.holds[b], k))
    {
      ClaimsAreDisjoint(end.rows, end.holds, a, b, k);
    }
  }

  /** Once cancelled, a session never sells again and never carries an active hold. */
  lemma CancelledForGood(db: Db, actions: seq<Action>, session: SessionId, hasInventory: bool, now: Time)
    requires Inv(db) && session < |db.cal.sessions| && db.cal.sessions[session].status == Cancelled
    ensures !SessionSellable(Run(db, actions).cal, session, hasInventory, now)
    ensures ActiveIn(Run(db, actions).holds, session) == {}
  {
    RunKeepsInv(db, actions);
    RunIsLater(db, actions);
  }

  ghost predicate OpenForFulfilment(cal: Calendar, session: SessionId) {
    && session < |cal.sessions| && cal.sessions[session].event < |cal.events|
    && cal.events[cal.sessions[session].event].status == EventPublished
    && cal.sessions[session].status in {Scheduled, OnSale, SalesPaused}
  }

  lemma BookedWhen(db: Db, hold: HoldId, order: OrderStatus, now: Time)
    requires Inv(db) && hold < |db.holds|
    ensures BookTx(db, hold, order, now).BookedSeats? <==> (
      && order in {OrderPending, PaymentPending}
      && db.holds[hold].status == Active && now < db.holds[hold].expiresAt
      && OpenForFulfilment(db.cal, db.holds[hold].session))
  {
    hide SnapshotsMatch, Tables, OutboxAgrees;
    BookKeepsInv(db, hold, order, now);
  }

  lemma ConvertedHasBooked(db: Db, hold: HoldId)
    requires HoldsAgree(db.rows, db.holds) && hold < |db.holds| && db.holds[hold].status == Converted
    ensures forall k :: Lists(db.holds[hold], k) ==> k in db.rows && db.rows[k].state == Booked
  {
    assert HoldOk(hold, db.holds[hold], db.rows);
  }

  lemma BookingConverts(db: Db, hold: HoldId, order: OrderStatus, now: Time)
    requires BookTx(db, hold, order, now).BookedSeats?
    ensures var after := BookTx(db, hold, order, now).db;
      hold < |after.holds| && after.holds[hold].status == Converted
  {
  }

  /**
   * After any run a paid order books its hold exactly when the order is open, the
   * hold is active and unexpired and its session is open; and then it books every
   * seat of the hold.
   */
  lemma PaidHoldIsBooked(db: Db, actions: seq<Action>, hold: HoldId, order: OrderStatus, now: Time)
    requires Inv(db) && hold < |Run(db, actions).holds|
    ensures var end := Run(db, actions); var r := BookTx(end, hold, order, now);
      && (r.BookedSeats? <==>
            && order in {OrderPending, PaymentPending}
            && end.holds[hold].status == Active && now < end.holds[hold].expiresAt
            && OpenForFulfilment(end.cal, end.holds[hold].session))
      && (r.BookedSeats? ==>
            && r.db.holds[hold].status == Converted
            && forall k :: Lists(r.db.holds[hold], k) ==> k in r.db.rows && r.db.rows[k].state == Booked)
  {
    hide BookTx, Valid, SessionsAgree, OutboxAgrees, HoldsAgree, OpenForFulfilment;
    RunKeepsInv(db, actions);
    var end := Run(db, actions);
    BookKeepsInv(end, hold, order, now);
    BookedWhen(end, hold, order, now);
    var r := BookTx(end, hold, order, now);
    if r.BookedSeats? {
      BookingConverts(end, hold, order, now);
      ConvertedHasBooked(r.db, hold);
    }
  }
}
