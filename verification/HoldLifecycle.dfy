/**
 * The life of a hold and of a session, action by action: a reference definition
 * of the status each one has next, on the rows alone, and the proof that the
 * transactions give it exactly that status.
 */
module HoldLifecycle {
  import opened Common
  import opened Schedule
  import opened ScheduleExact
  import opened HoldModel
  import opened HoldInvariant
  import opened HoldRuns
  import opened HoldEffects
  import opened HoldIdempotency

  /** At least one seat, no more than allowed, none twice. */
  ghost predicate RequestOk(r: Request, maxSeats: nat) {
    1 <= |r.seats| <= maxSeats && Distinct(r.seats)
  }

  lemma RequestOkExactly(r: Request, maxSeats: nat)
    ensures ValidRequest(r, maxSeats) <==> RequestOk(r, maxSeats)
  {
    DistinctSize(r.seats);
  }

  /** A call is refused as invalid exactly when its seats are none, too many or repeated. */
  lemma InvalidExactly(db: Db, r: Request, maxSeats: nat, now: Time, duration: Time)
    ensures Acquire(db, r, maxSeats, now, duration).0 == Refused(InvalidRequest) <==> !RequestOk(r, maxSeats)
  {
    RequestOkExactly(r, maxSeats);
  }

  // ------------------------------------------------------------------------
  // The next status of a hold
  // ------------------------------------------------------------------------

  ghost predicate OpenSession(s: Session) {
    s.status in {Draft, Scheduled, OnSale, SalesPaused}
  }

  ghost predicate EventIsOpen(db: Db, event: EventId) {
    event < |db.cal.events| && db.cal.events[event].status in {EventDraft, EventPublished}
  }

  /** A payment for a hold that is still active, on an order still waiting for it. */
  ghost predicate PaysFor(db: Db, hold: HoldId, order: OrderStatus) {
    hold < |db.holds| && db.holds[hold].status == Active && order in {OrderPending, PaymentPending}
  }

  ghost function NextStatus(db: Db, a: Action, h: HoldId): HoldStatus
    requires h < |db.holds| && db.holds[h].session < |db.cal.sessions|
  {
    var hold := db.holds[h];
    if hold.status != Active then hold.status
    else
      match a
      case Calendaring(_) => Active
      case Publishing(_, _, _, _, _) => Active
      case CancellingSession(s, _) => if hold.session == s then Released else Active
      case CancellingEvent(e, _) =>
        var session := db.cal.sessions[hold.session];
        if EventIsOpen(db, e) && session.event == e && OpenSession(session) then Released else Active
      case Acquiring(r, maxSeats, now, _) =>
        if RequestOk(r, maxSeats) && AcquireAllowed(db, r, now) && hold.session == r.session && hold.expiresAt <= now
        then Expired else Active
      case Releasing(x) => if x == h then Released else Active
      case Sweeping(chosen, now) => if h in chosen && hold.expiresAt <= now then Expired else Active
      case Booking(x, order, now) =>
        if !PaysFor(db, x, order) then Active
        else if db.holds[x].expiresAt <= now then
          if hold.session == db.holds[x].session && hold.expiresAt <= now then Expired else Active
        else if x == h && OpenForFulfilment(db.cal, hold.session) then Converted
        else Active
  }

  /** Every hold keeps its fields and takes exactly that status. */
  ghost predicate Follow(db: Db, a: Action, after: Db)
    requires SessionsAgree(db.cal, db.holds)
  {
    && |db.holds| <= |after.holds|
    && forall h :: 0 <= h < |db.holds| ==> after.holds[h] == db.holds[h].(status := NextStatus(db, a, h))
  }

  lemma CancellingSessionFollows(db: Db, s: SessionId, now: Time)
    requires Inv(db)
    ensures Follow(db, CancellingSession(s, now), Step(db, CancellingSession(s, now)))
  {
    hide Valid, Tables, OutboxAgrees, CancelSessionTx;
    CancelSessionDoes(db, s, now);
  }

  lemma CancellingEventFollows(db: Db, e: EventId, now: Time)
    requires Inv(db)
    ensures Follow(db, CancellingEvent(e, now), Step(db, CancellingEvent(e, now)))
  {
    hide Tables, OutboxAgrees, Announced;
    CancelEventDoes(db, e, now);
    if EventIsOpen(db, e) { hide CancelEventTx; }
  }

  lemma AcquiringFollows(db: Db, r: Request, maxSeats: nat, now: Time, duration: Time)
    requires Inv(db)
    ensures Follow(db, Acquiring(r, maxSeats, now, duration), Step(db, Acquiring(r, maxSeats, now, duration)))
  {
    hide Valid, Tables, AcquireTx, AcquireAllowed;
    RequestOkExactly(r, maxSeats);
    if RequestOk(r, maxSeats) {
      AcquireExact(db, r, now, duration);
      if AcquireAllowed(db, r, now) { AcquireDoes(db, r, now, duration); }
    }
  }

  lemma ReleasingFollows(db: Db, x: HoldId)
    requires Inv(db)
    ensures Follow(db, Releasing(x), Step(db, Releasing(x)))
  {
    hide Valid, Tables, OutboxAgrees, ReleaseTx, Announced;
    ReleaseDoes(db, x);
  }

  lemma SweepingFollows(db: Db, chosen: set<HoldId>, now: Time)
    requires Inv(db)
    ensures Follow(db, Sweeping(chosen, now), Step(db, Sweeping(chosen, now)))
  {
    hide Valid, Tables, OutboxAgrees, ExpireHolds, Announced;
    ExpireDoes(db, Batch(db, chosen, now));
  }

  /** A payment that finds its hold overdue is reviewed, and expires every overdue hold of the session. */
  lemma OverduePayment(db: Db, x: HoldId, order: OrderStatus, now: Time)
    requires Inv(db) && PaysFor(db, x, order) && db.holds[x].expiresAt <= now
    ensures ExpireHolds(db, OverdueIn(db.holds, db.holds[x].session, now)).Some?
    ensures BookTx(db, x, order, now) ==
      ForReview(ExpireHolds(db, OverdueIn(db.holds, db.holds[x].session, now)).value, CodeExpired)
  {
    hide Tables, OutboxAgrees, ExpireHolds, SnapshotsMatch, BookRows, Ended, Announced;
    ExpireDoes(db, OverdueIn(db.holds, db.holds[x].session, now));
    SessionsHaveEvents(db.cal);
  }

  /** Any other review changes nothing. */
  lemma OtherReview(db: Db, x: HoldId, order: OrderStatus, now: Time)
    requires Inv(db) && !BookTx(db, x, order, now).BookedSeats?
    requires !(PaysFor(db, x, order) && db.holds[x].expiresAt <= now)
    ensures Step(db, Booking(x, order, now)) == db
  {
    hide Inv, Valid, Tables, OutboxAgrees, ExpireHolds, SnapshotsMatch, BookRows;
  }

  lemma ReviewWrites(db: Db, x: HoldId, order: OrderStatus, now: Time)
    requires Inv(db) && !BookTx(db, x, order, now).BookedSeats?
    ensures Step(db, Booking(x, order, now)) ==
      if PaysFor(db, x, order) && db.holds[x].expiresAt <= now
      then ExpireHolds(db, OverdueIn(db.holds, db.holds[x].session, now)).value else db
    ensures PaysFor(db, x, order) && db.holds[x].expiresAt <= now ==>
      ExpireHolds(db, OverdueIn(db.holds, db.holds[x].session, now)).Some?
  {
    hide Inv, BookTx, ExpireHolds;
    if PaysFor(db, x, order) && db.holds[x].expiresAt <= now {
      OverduePayment(db, x, order, now);
    } else {
      OtherReview(db, x, order, now);
    }
  }

  lemma SessionsHaveEvents(cal: Calendar)
    requires Valid(cal)
    ensures forall s :: 0 <= s < |cal.sessions| ==> cal.sessions[s].event < |cal.events|
  {
  }

  lemma BookingFollows(db: Db, x: HoldId, order: OrderStatus, now: Time)
    requires Inv(db)
    ensures Follow(db, Booking(x, order, now), Step(db, Booking(x, order, now)))
  {
    hide Valid, Tables, OutboxAgrees, ExpireHolds, BookTx, Announced;
    if x < |db.holds| { BookedWhen(db, x, order, now); }
    if BookTx(db, x, order, now).BookedSeats? {
      BookedExists(db, x, order, now);
      BookDoes(db, x, order, now);
    } else {
      ReviewWrites(db, x, order, now);
      if PaysFor(db, x, order) { ExpireDoes(db, OverdueIn(db.holds, db.holds[x].session, now)); }
    }
  }

  lemma BookedExists(db: Db, x: HoldId, order: OrderStatus, now: Time)
    requires BookTx(db, x, order, now).BookedSeats?
    ensures x < |db.holds|
  {
  }

  /**
   * Whatever the next transaction is, every hold keeps its seats, owner, key and
   * expiry, and takes exactly the status the reference definition gives it.
   */
  lemma HoldsFollow(db: Db, a: Action)
    requires Inv(db)
    ensures Follow(db, a, Step(db, a))
  {
    hide Inv, Follow, Step;
    match a
    case Calendaring(op) => CalendaringFollows(db, op);
    case Publishing(s, seats, priced, nonce, now) => PublishingFollows(db, s, seats, priced, nonce, now);
    case CancellingSession(s, now) => CancellingSessionFollows(db, s, now);
    case CancellingEvent(e, now) => CancellingEventFollows(db, e, now);
    case Acquiring(r, maxSeats, now, duration) => AcquiringFollows(db, r, maxSeats, now, duration);
    case Releasing(x) => ReleasingFollows(db, x);
    case Sweeping(chosen, now) => SweepingFollows(db, chosen, now);
    case Booking(x, order, now) => BookingFollows(db, x, order, now);
  }

  lemma CalendaringFollows(db: Db, op: Op)
    requires Inv(db)
    ensures Follow(db, Calendaring(op), Step(db, Calendaring(op))) && |Step(db, Calendaring(op)).holds| == |db.holds|
  {
    hide Apply, Valid, Tables, OutboxAgrees;
  }

  lemma PublishingFollows(db: Db, s: SessionId, seats: seq<SeatId>, priced: bool, nonce: nat, now: Time)
    requires Inv(db)
    ensures Follow(db, Publishing(s, seats, priced, nonce, now), Step(db, Publishing(s, seats, priced, nonce, now)))
    ensures |Step(db, Publishing(s, seats, priced, nonce, now)).holds| == |db.holds|
  {
    hide PublishSession, Valid, Tables, OutboxAgrees;
  }

  // ------------------------------------------------------------------------
  // New holds
  // ------------------------------------------------------------------------

  ghost predicate Creates(db: Db, a: Action) {
    a.Acquiring? && RequestOk(a.request, a.maxSeats) && AcquireAllowed(db, a.request, a.now)
  }

  /** Only an allowed acquisition adds a hold: one, with the request's seats. */
  lemma OnlyAcquisitionsCreate(db: Db, a: Action)
    requires Inv(db)
    ensures var after := Step(db, a);
      && |after.holds| == |db.holds| + (if Creates(db, a) then 1 else 0)
      && (Creates(db, a) ==>
            after.holds[|db.holds|] == Hold(
              a.request.session, a.request.user, a.request.key, a.request.seats, a.now + a.duration, Active))
  {
    hide Valid, Tables, OutboxAgrees, AcquireAllowed, AcquireTx, ExpireHolds, ReleaseTx, CancelSessionTx, CancelEventTx,
         PublishTx, BookTx, Announced;
    match a
    case Acquiring(r, maxSeats, now, duration) =>
      RequestOkExactly(r, maxSeats);
      if RequestOk(r, maxSeats) {
        AcquireExact(db, r, now, duration);
        if AcquireAllowed(db, r, now) { AllowedDoes(db, r, now, duration); }
      }
    case Calendaring(op) => CalendaringFollows(db, op);
    case Publishing(s, seats, priced, nonce, now) => PublishingFollows(db, s, seats, priced, nonce, now);
    case CancellingSession(s, now) => CancelSessionDoes(db, s, now);
    case CancellingEvent(e, now) => EventAddsNoHold(db, e, now);
    case Releasing(x) => ReleaseDoes(db, x);
    case Sweeping(chosen, now) => ExpireDoes(db, Batch(db, chosen, now));
    case Booking(x, order, now) => BookingAddsNoHold(db, x, order, now);
  }

  lemma AllowedDoes(db: Db, r: Request, now: Time, duration: Time)
    requires Inv(db) && AcquireTx(db, r, now, duration).Committed? && Distinct(r.seats)
    ensures AcquireEffect(db, r, now, now + duration, AcquireTx(db, r, now, duration).db)
  {
    AcquireDoes(db, r, now, duration);
  }

  lemma EventAddsNoHold(db: Db, e: EventId, now: Time)
    requires Inv(db)
    ensures |Step(db, CancellingEvent(e, now)).holds| == |db.holds|
  {
    hide Valid, Tables, OutboxAgrees;
  }

  lemma BookingAddsNoHold(db: Db, x: HoldId, order: OrderStatus, now: Time)
    requires Inv(db)
    ensures |Step(db, Booking(x, order, now)).holds| == |db.holds|
  {
    hide Valid, Tables, OutboxAgrees, ExpireHolds, BookTx, Announced;
    if BookTx(db, x, order, now).BookedSeats? {
      BookedExists(db, x, order, now);
      BookDoes(db, x, order, now);
    } else {
      ReviewWrites(db, x, order, now);
      if PaysFor(db, x, order) { ExpireDoes(db, OverdueIn(db.holds, db.holds[x].session, now)); }
    }
  }

  ghost predicate AtMostSeats(holds: seq<Hold>, m: nat) {
    forall h :: 0 <= h < |holds| ==> |holds[h].seats| <= m
  }

  /** When no acquisition may take more than m seats, no hold of any run ever lists more. */
  lemma {:induction false} NoHoldIsLarger(db: Db, actions: seq<Action>, m: nat)
    requires Inv(db) && AtMostSeats(db.holds, m)
    requires forall a :: a in actions && a.Acquiring? ==> a.maxSeats <= m
    ensures AtMostSeats(Run(db, actions).holds, m)
    decreases |actions|
  {
    if actions != [] {
      hide Inv, Step, NextStatus, AcquireAllowed;
      var a := actions[0];
      assert a in actions && forall x :: x in actions[1..] ==> x in actions;
      SessionsExist(db);
      StepKeepsInv(db, a);
      HoldsFollow(db, a);
      OnlyAcquisitionsCreate(db, a);
      NoHoldIsLarger(Step(db, a), actions[1..], m);
    }
  }

  lemma SessionsExist(db: Db)
    requires Inv(db)
    ensures SessionsAgree(db.cal, db.holds)
  {
  }

  // ------------------------------------------------------------------------
  // Whom an announcement is for
  // ------------------------------------------------------------------------

  /** The session an announcement is about. */
  ghost function SubjectOf(holds: seq<Hold>, e: EventKey): Option<SessionId> {
    match e
    case SessionCancelledEvent(s) => Some(s)
    case InventoryMaterialized(s, _) => Some(s)
    case _ => if e.hold < |holds| then Some(holds[e.hold].session) else None
  }

  /** Every announcement invalidates the session it is about. */
  ghost predicate Addressed(db: Db) {
    forall e :: e in db.outbox ==> Some(db.outbox[e]) == SubjectOf(db.holds, e)
  }

  lemma StepKeepsAddressed(db: Db, a: Action)
    requires Inv(db) && Addressed(db)
    ensures Addressed(Step(db, a))
  {
    hide Inv, Addressed, ExpireHolds, PublishTx, CancelSessionTx, CancelEventTx, ReleaseTx, BookTx, AcquireTx, Apply;
    match a
    case Calendaring(op) => CalendaringKeepsAddressed(db, op);
    case Publishing(s, seats, priced, nonce, now) => PublishingKeepsAddressed(db, s, seats, priced, nonce, now);
    case CancellingSession(s, now) => CancellingSessionKeepsAddressed(db, s, now);
    case CancellingEvent(e, now) => CancellingEventKeepsAddressed(db, e, now);
    case Acquiring(r, maxSeats, now, duration) => AcquiringKeepsAddressed(db, r, maxSeats, now, duration);
    case Releasing(x) => ReleasingKeepsAddressed(db, x);
    case Sweeping(chosen, now) => ExpiringKeepsAddressed(db, Batch(db, chosen, now));
    case Booking(x, order, now) => BookingKeepsAddressed(db, x, order, now);
  }

  lemma CalendaringKeepsAddressed(db: Db, op: Op)
    requires Addressed(db)
    ensures Addressed(Step(db, Calendaring(op)))
  {
    hide Apply;
  }

  lemma PublishingKeepsAddressed(db: Db, s: SessionId, seats: seq<SeatId>, priced: bool, nonce: nat, now: Time)
    requires Addressed(db)
    ensures PublishTx(db, s, seats, priced, nonce, now).Some? ==> Addressed(PublishTx(db, s, seats, priced, nonce, now).value)
  {
    hide AddRows, RowsOf, PublishSession, Keys;
  }

  lemma CancellingSessionKeepsAddressed(db: Db, s: SessionId, now: Time)
    requires Addressed(db)
    ensures CancelSessionTx(db, s, now).Some? ==> Addressed(CancelSessionTx(db, s, now).value)
  {
    hide FreeRows, CancelSession, ActiveIn;
  }

  lemma CancellingEventKeepsAddressed(db: Db, e: EventId, now: Time)
    requires Addressed(db)
    ensures CancelEventTx(db, e, now).Some? ==> Addressed(CancelEventTx(db, e, now).value)
  {
    hide FreeRows, CancelEvent, ActiveInAny, CancellableSessions;
  }

  lemma ReleasingKeepsAddressed(db: Db, x: HoldId)
    requires Addressed(db)
    ensures ReleaseTx(db, x).Some? ==> Addressed(ReleaseTx(db, x).value.0)
  {
    hide FreeRows;
  }

  lemma ExpiringKeepsAddressed(db: Db, ids: set<HoldId>)
    requires Addressed(db) && forall h :: h in ids ==> h < |db.holds|
    ensures ExpireHolds(db, ids).Some? ==> Addressed(ExpireHolds(db, ids).value)
  {
    hide FreeRows;
  }

  lemma ClaimingKeepsAddressed(db: Db, r: Request, now: Time, duration: Time)
    requires Addressed(db) && ClaimTx(db, r, now, duration).Committed?
    ensures Addressed(ClaimTx(db, r, now, duration).db)
  {
    hide Evaluate, ClaimRows, KeyUsed, HoldsInSession, Keys, HasInventory;
    ClaimWrites(db, r, now, duration);
  }

  lemma AcquiringKeepsAddressed(db: Db, r: Request, maxSeats: nat, now: Time, duration: Time)
    requires Inv(db) && Addressed(db)
    ensures Addressed(Step(db, Acquiring(r, maxSeats, now, duration)))
  {
    hide Inv, ExpireHolds, ClaimTx, Addressed, OverdueIn;
    var ids := OverdueIn(db.holds, r.session, now);
    assert forall h :: h in ids ==> h < |db.holds| by { OverdueInRange(db.holds, r.session, now); }
    ExpiringKeepsAddressed(db, ids);
    var cleaned := ExpireHolds(db, ids);
    if cleaned.Some? && ClaimTx(cleaned.value, r, now, duration).Committed? {
      ClaimingKeepsAddressed(cleaned.value, r, now, duration);
    }
  }

  lemma OverdueInRange(holds: seq<Hold>, session: SessionId, now: Time)
    ensures forall h :: h in OverdueIn(holds, session, now) ==> h < |holds|
  {
  }

  lemma BookingKeepsAddressed(db: Db, x: HoldId, order: OrderStatus, now: Time)
    requires Inv(db) && Addressed(db)
    ensures Addressed(Step(db, Booking(x, order, now)))
  {
    hide Inv, ExpireHolds, SnapshotsMatch, BookRows, DecideFulfilment, Keys;
    if x < |db.holds| { ExpiringKeepsAddressed(db, OverdueIn(db.holds, db.holds[x].session, now)); }
  }

  /** Over every run each announcement names its own hold's session, or the session it is about. */
  lemma {:induction false} RunKeepsAddressed(db: Db, actions: seq<Action>)
    requires Inv(db) && Addressed(db)
    ensures Addressed(Run(db, actions))
    decreases |actions|
  {
    if actions != [] {
      hide Inv, Addressed, Step;
      StepKeepsInv(db, actions[0]);
      StepKeepsAddressed(db, actions[0]);
      RunKeepsAddressed(Step(db, actions[0]), actions[1..]);
    }
  }

  // ------------------------------------------------------------------------
  // Why an acquisition is refused
  // ------------------------------------------------------------------------

  /** Every requested seat exists. */
  ghost predicate SeatsExist(db: Db, r: Request) {
    forall k :: k in Keys(r.session, r.seats) ==> k in db.rows
  }

  ghost predicate SeatsTakeable(db: Db, r: Request, now: Time) {
    forall k :: k in Keys(r.session, r.seats) ==> k in db.rows && Takeable(db.rows[k], now)
  }

  ghost predicate KeyKnown(db: Db, r: Request) {
    exists h :: 0 <= h < |db.holds| && SameOwner(db.holds[h], r) && db.holds[h].key == r.key
  }

  /** A session has inventory when some seat of it has a row. */
  lemma InventoryExactly(rows: Rows, session: SessionId)
    ensures HasInventory(rows, session) <==> exists seat :: RowKey(session, seat) in rows
  {
    forall k | k in rows && k.session == session ensures RowKey(session, k.seat) in rows {}
    if seat :| RowKey(session, seat) in rows { assert RowKey(session, seat).session == session; }
  }

  /** The refusal names the first of the conditions that fails: the session, its sale, its seats, their state, the key, the user. */
  lemma RefusedFor(db: Db, r: Request, now: Time, duration: Time)
    requires Inv(db) && r.seats != [] && Distinct(r.seats) && AcquireTx(db, r, now, duration).Thrown?
    ensures var why := AcquireTx(db, r, now, duration).why;
      var sells := SessionSellable(db.cal, r.session, HasInventory(db.rows, r.session), now);
      && (why == UnknownSession <==> r.session >= |db.cal.sessions|)
      && (why.NotSellable? <==> r.session < |db.cal.sessions| && !sells)
      && (why == UnknownSeat <==> sells && !SeatsExist(db, r))
      && (why == SeatTaken <==> sells && SeatsExist(db, r) && !SeatsTakeable(db, r, now))
      && (why == KeyReused <==> sells && SeatsTakeable(db, r, now) && KeyKnown(db, r))
      && (why == AlreadyHolding <==> sells && SeatsTakeable(db, r, now) && !KeyKnown(db, r))
  {
    hide Tables, OutboxAgrees, Evaluate;
    CleanedRows(db, r, now);
    UniquenessChecks(db.holds, r, now);
    SessionsHaveEvents(db.cal);
    var cleaned := ExpireHolds(db, OverdueIn(db.holds, r.session, now)).value;
    hide Inv, ExpireHolds, OverdueIn, FreeRows, SetStatus;
    LockedAll(cleaned.rows, r.session, r.seats);
    ClaimRefuses(cleaned, r, now, duration);
    assert KeyKnown(db, r) <==> KeyUsed(cleaned.holds, r);
  }

  lemma CleanedRows(db: Db, r: Request, now: Time)
    requires Inv(db)
    ensures var e := ExpireHolds(db, OverdueIn(db.holds, r.session, now));
      && e.Some? && e.value.cal == db.cal && HoldCreated(|e.value.holds|) !in e.value.outbox
      && e.value.rows.Keys == db.rows.Keys && HasInventory(e.value.rows, r.session) == HasInventory(db.rows, r.session)
      && e.value.holds == SetStatus(db.holds, OverdueIn(db.holds, r.session, now), Expired)
      && forall k :: k in Keys(r.session, r.seats) && k in db.rows ==>
           (e.value.rows[k].state == Available <==> Takeable(db.rows[k], now))
  {
    Cleaned(db, r, now);
    var rows := ExpireHolds(db, OverdueIn(db.holds, r.session, now)).value.rows;
    forall k | k in Keys(r.session, r.seats) && k in db.rows
      ensures rows[k].state == Available <==> Takeable(db.rows[k], now)
    {
      CleanedRow(db.rows, db.holds, r.session, now, k);
    }
    assert rows.Keys == db.rows.Keys;
  }

  /** The tests of the locked part, in their order. */
  lemma ClaimRefuses(db: Db, r: Request, now: Time, duration: Time)
    requires Valid(db.cal) && r.seats != [] && Distinct(r.seats) && HoldCreated(|db.holds|) !in db.outbox
    ensures var tx := ClaimTx(db, r, now, duration);
      var sells := SessionSellable(db.cal, r.session, HasInventory(db.rows, r.session), now);
      var free := forall k :: k in Keys(r.session, r.seats) ==> k in db.rows && db.rows[k].state == Available;
      && (tx == Thrown(UnknownSession) <==> r.session >= |db.cal.sessions|)
      && (tx.Thrown? && tx.why.NotSellable? <==> r.session < |db.cal.sessions| && !sells)
      && (tx == Thrown(UnknownSeat) <==> sells && !SeatsExist(db, r))
      && (tx == Thrown(SeatTaken) <==> sells && SeatsExist(db, r) && !free)
      && (tx == Thrown(KeyReused) <==> sells && free && KeyUsed(db.holds, r))
      && (tx == Thrown(AlreadyHolding) <==> sells && free && !KeyUsed(db.holds, r) && HoldsInSession(db.holds, r))
      && (tx.Committed? <==> sells && free && !KeyUsed(db.holds, r) && !HoldsInSession(db.holds, r))
  {
    hide Evaluate, KeyUsed, HoldsInSession, Keys, ClaimRows, HasInventory;
    SessionsHaveEvents(db.cal);
    LockedAll(db.rows, r.session, r.seats);
    var keys := Keys(r.session, r.seats);
    var locked := set k | k in keys && k in db.rows;
    if |locked| == |r.seats| { assert locked == keys; }
  }

  // ------------------------------------------------------------------------
  // What a payment answers
  // ------------------------------------------------------------------------

  ghost function ReviewCodeFor(order: OrderStatus, h: Hold, now: Time): ReviewCode {
    if order !in {OrderPending, PaymentPending} then CodeTerminal
    else if h.status == Released then CodeReleased
    else if h.status == Expired || h.expiresAt <= now then CodeExpired
    else if h.status == Converted then CodeNotActive
    else CodeUnavailable
  }

  /**
   * The answer to a verified payment, exactly. Under the invariant the snapshot
   * always matches and no hold is active on a cancelled session, so neither a
   * mismatch nor the code for a cancelled session is ever given.
   */
  lemma FulfilmentExactly(db: Db, x: HoldId, order: OrderStatus, now: Time)
    requires Inv(db) && x < |db.holds|
    ensures var r := BookTx(db, x, order, now); var h := db.holds[x];
      && (r == AlreadyDone <==> order == Fulfilled)
      && (r.BookedSeats? <==> (
            && order in {OrderPending, PaymentPending} && h.status == Active && now < h.expiresAt
            && OpenForFulfilment(db.cal, h.session)))
      && (r.ForReview? <==> !r.BookedSeats? && order != Fulfilled)
      && (r.ForReview? ==> r.code == ReviewCodeFor(order, h, now))
  {
    hide Valid, Tables, ExpireHolds, SnapshotsMatch, BookRows;
    BookKeepsInv(db, x, order, now);
    BookedWhen(db, x, order, now);
    ReviewExpires(db, x, now);
    SessionsHaveEvents(db.cal);
  }

  lemma ReviewExpires(db: Db, x: HoldId, now: Time)
    requires Inv(db) && x < |db.holds|
    ensures ExpireHolds(db, OverdueIn(db.holds, db.holds[x].session, now)).Some?
  {
    hide Ended, Announced;
    ExpireDoes(db, OverdueIn(db.holds, db.holds[x].session, now));
  }

  // ------------------------------------------------------------------------
  // The next status of a session
  // ------------------------------------------------------------------------

  /** The session's rows are among the given seats, and some seat is new only with a fresh announcement. */
  ghost predicate Fills(db: Db, session: SessionId, seats: seq<SeatId>, nonce: nat) {
    && (forall k :: k in db.rows && k.session == session ==> k.seat in seats)
    && ((forall s :: s in seats ==> RowKey(session, s) in db.rows) || InventoryMaterialized(session, nonce) !in db.outbox)
  }

  ghost function NextSession(db: Db, a: Action, s: SessionId): SessionStatus
    requires s < |db.cal.sessions|
  {
    var session := db.cal.sessions[s];
    match a
    case CancellingSession(x, _) => if x == s then Cancelled else session.status
    case CancellingEvent(e, _) =>
      if EventIsOpen(db, e) && session.event == e && OpenSession(session) then Cancelled else session.status
    case Publishing(x, seats, priced, nonce, now) =>
      if x == s && Publishable(db.cal, x, priced, now) && Fills(db, x, seats, nonce)
      then (if session.times.salesStartAt <= now then OnSale else Scheduled)
      else session.status
    case Calendaring(OpPause(x)) => if x == s && session.status !in {Draft, Cancelled} then SalesPaused else session.status
    case Calendaring(OpResume(x)) => if x == s && session.status !in {Draft, Cancelled} then OnSale else session.status
    case _ => session.status
  }

  ghost predicate SessionsTake(db: Db, a: Action, after: Calendar) {
    && |db.cal.sessions| <= |after.sessions|
    && forall s :: 0 <= s < |db.cal.sessions| ==> after.sessions[s].status == NextSession(db, a, s)
  }

  lemma PublishCommits(db: Db, x: SessionId, seats: seq<SeatId>, priced: bool, nonce: nat, now: Time)
    requires Valid(db.cal) && Distinct(seats) && Publishable(db.cal, x, priced, now)
    ensures PublishTx(db, x, seats, priced, nonce, now).Some? <==> Fills(db, x, seats, nonce)
    ensures PublishTx(db, x, seats, priced, nonce, now).Some? ==>
      Some(PublishTx(db, x, seats, priced, nonce, now).value.cal) == PublishSession(db.cal, x, priced, now)
  {
    hide PublishSession, Publishable, Valid;
    assert PublishSession(db.cal, x, priced, now).Some? && PublishSession(db.cal, x, priced, now).value != db.cal by {
      PublishableChanges(db.cal, x, priced, now);
    }
    RightCount(db.rows, x, seats);
    NothingNew(db.rows, x, seats);
    hide Keys, AddRows, RowsOf;
  }

  /** The count of rows is right exactly when no row is of a seat that is not listed. */
  lemma RightCount(rows: Rows, x: SessionId, seats: seq<SeatId>)
    requires Distinct(seats)
    ensures |RowsOf(AddRows(rows, Keys(x, seats)), x)| == |seats| <==>
      forall k :: k in rows && k.session == x ==> k.seat in seats
  {
    var keys := Keys(x, seats);
    var all := RowsOf(AddRows(rows, keys), x);
    KeysSize(x, seats);
    assert forall k :: k in keys <==> k.session == x && k.seat in seats;
    assert keys <= all;
    if |all| == |seats| {
      SubsetOfSameSize(keys, all);
      forall k | k in rows && k.session == x ensures k.seat in seats { assert k in all; }
    } else {
      assert all != keys;
      var k :| k in all && k !in keys;
    }
  }

  lemma NothingNew(rows: Rows, x: SessionId, seats: seq<SeatId>)
    ensures AddRows(rows, Keys(x, seats)) == rows <==> forall s :: s in seats ==> RowKey(x, s) in rows
  {
    var keys := Keys(x, seats);
    assert AddRows(rows, keys) == rows <==> keys <= rows.Keys;
    forall s | s in seats ensures RowKey(x, s) in keys {}
  }

  lemma PublishableChanges(cal: Calendar, x: SessionId, priced: bool, now: Time)
    requires Valid(cal) && Publishable(cal, x, priced, now)
    ensures PublishSession(cal, x, priced, now).Some? && PublishSession(cal, x, priced, now).value != cal
  {
    PublishExactly(cal, x, priced, now);
    var after := PublishSession(cal, x, priced, now).value;
    assert after.sessions[x].status != cal.sessions[x].status;
  }

  lemma PublishingTakes(db: Db, x: SessionId, seats: seq<SeatId>, priced: bool, nonce: nat, now: Time)
    requires Inv(db) && Distinct(seats)
    ensures SessionsTake(db, Publishing(x, seats, priced, nonce, now), Step(db, Publishing(x, seats, priced, nonce, now)).cal)
  {
    hide Tables, OutboxAgrees, SessionsAgree, Fills, Valid, PublishSession;
    PublishExactly(db.cal, x, priced, now);
    if Publishable(db.cal, x, priced, now) {
      hide PublishTx;
      PublishCommits(db, x, seats, priced, nonce, now);
    }
  }

  /** Every session takes exactly the status the reference definition gives it. */
  lemma SessionsFollow(db: Db, a: Action)
    requires Inv(db) && (a.Publishing? ==> Distinct(a.seats))
    ensures SessionsTake(db, a, Step(db, a).cal)
  {
    hide Inv, SessionsTake, Step;
    match a
    case Calendaring(op) => CalendaringTakes(db, op);
    case Publishing(x, seats, priced, nonce, now) => PublishingTakes(db, x, seats, priced, nonce, now);
    case CancellingSession(x, now) => CancellingSessionTakes(db, x, now);
    case CancellingEvent(e, now) => CancellingEventTakes(db, e, now);
    case _ => HoldActionsTakeNothing(db, a);
  }

  lemma CalendaringTakes(db: Db, op: Op)
    requires Inv(db)
    ensures SessionsTake(db, Calendaring(op), Step(db, Calendaring(op)).cal)
  {
    hide Tables, OutboxAgrees, SessionsAgree, Conflict;
    match op
    case OpPause(id) => SalesStatusExactly(db.cal, id, true);
    case OpResume(id) => SalesStatusExactly(db.cal, id, false);
    case OpCreateSession(e, space, times) => CreateExactly(db.cal, e, space, times);
    case OpUpdateDraft(id, space, times) => UpdateExactly(db.cal, id, space, times);
    case _ =>
  }

  lemma CancellingSessionTakes(db: Db, x: SessionId, now: Time)
    requires Inv(db)
    ensures SessionsTake(db, CancellingSession(x, now), Step(db, CancellingSession(x, now)).cal)
  {
    hide Valid, Tables, OutboxAgrees, SessionsAgree, CancelSessionTx, Ended, Announced;
    CancelSessionDoes(db, x, now);
  }

  lemma CancellingEventTakes(db: Db, e: EventId, now: Time)
    requires Inv(db)
    ensures SessionsTake(db, CancellingEvent(e, now), Step(db, CancellingEvent(e, now)).cal)
  {
    hide Valid, Tables, OutboxAgrees, SessionsAgree, Ended, Announced, CancellableSessions;
    CancelEventDoes(db, e, now);
  }

  lemma HoldActionsTakeNothing(db: Db, a: Action)
    requires Inv(db) && (a.Acquiring? || a.Releasing? || a.Sweeping? || a.Booking?)
    ensures Step(db, a).cal == db.cal && SessionsTake(db, a, Step(db, a).cal)
  {
    hide Valid, Tables, OutboxAgrees, SessionsAgree, SnapshotsMatch, Evaluate;
  }
}
