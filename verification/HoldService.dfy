/**
 * The services as the program runs them: statement by statement over the tables,
 * restoring every table when a transaction throws. Each method is proved to do
 * what HoldModel says its transaction does.
 */
module HoldService {
  import opened Common
  import opened Schedule
  import opened HoldModel
  import opened HoldInvariant
  import opened HoldRuns
  import opened HoldIdempotency

  datatype SweepResult = SweepResult(holdsExpired: nat, seatsReleased: nat, batches: nat)

  datatype ReleaseOutcome = NotAuthorized | ReleaseThrew | Answered(released: bool)

  class Database {
    var cal: Calendar
    var rows: Rows
    var holds: seq<Hold>
    var outbox: Outbox

    function View(): Db
      reads this
    {
      Db(cal, rows, holds, outbox)
    }

    constructor ()
      ensures View() == Db(Calendar([], []), map[], [], map[])
    {
      cal, rows, holds, outbox := Calendar([], []), map[], [], map[];
    }

    method Rollback(before: Db)
      modifies this
      ensures View() == before
    {
      cal, rows, holds, outbox := before.cal, before.rows, before.holds, before.outbox;
    }

    // ----------------------------------------------------------------------
    // Shared statements
    // ----------------------------------------------------------------------

    method ReleaseInventoryForHolds(ids: set<HoldId>) returns (count: nat)
      modifies this`rows
      ensures rows == FreeRows(old(rows), ids)
      ensures count == FreedCount(old(rows), ids)
    {
      if ids == {} {
        assert rows == FreeRows(rows, {});
        assert (set k | k in rows && PointsInto(rows[k], ids)) == {};
        return 0;
      }
      count := |set k | k in rows && PointsInto(rows[k], ids)|;
      rows := map k | k in rows :: if PointsInto(rows[k], ids) then FREE else rows[k];
    }

    method EnqueueInventoryEvent(key: EventKey, session: SessionId) returns (ok: bool)
      modifies this`outbox
      ensures ok == Enqueue(old(outbox), key, session).Some?
      ensures outbox == if ok then Enqueue(old(outbox), key, session).value else old(outbox)
    {
      ok := key !in outbox;
      if ok { outbox := outbox[key := session]; }
    }

    /** One row per hold, in the order given; stops at the first repeated key. */
    method EnqueueExpiredHoldEvents(order: seq<HoldId>) returns (ok: bool)
      requires Distinct(order) && forall h :: h in order ==> h < |holds|
      modifies this`outbox
      ensures ok == EnqueueExpired(old(outbox), holds, Elements(order)).Some?
      ensures ok ==> outbox == EnqueueExpired(old(outbox), holds, Elements(order)).value
    {
      ghost var first, table := outbox, holds;
      StartEnqueuing(outbox, holds);
      for i := 0 to |order|
        invariant EnqueuedSoFar(first, table, Elements(order[..i]), outbox)
      {
        var h := order[i];
        NextElement(order, i);
        EnqueueOneMore(first, table, Elements(order), Elements(order[..i]), h, outbox);
        ok := EnqueueInventoryEvent(HoldExpired(h), holds[h].session);
        if !ok { return; }
      }
      assert order[..|order|] == order;
      ok := true;
    }

    /** The rows an UPDATE ... RETURNING yields, in whatever order. */
    method Returning(ids: set<HoldId>) returns (order: seq<HoldId>)
      ensures Distinct(order) && Elements(order) == ids
    {
      order := [];
      var rest := ids;
      while rest != {}
        invariant rest <= ids && Distinct(order) && Elements(order) == ids - rest
        decreases rest
      {
        var h :| h in rest;
        assert h !in Elements(order) && Elements(order + [h]) == Elements(order) + {h};
        order := order + [h];
        rest := rest - {h};
      }
    }

    /** Update the holds, free their rows and announce each, in the order given; false means the transaction threw. */
    method ExpireReturned(returned: seq<HoldId>) returns (ok: bool, seatCount: nat)
      requires Distinct(returned) && forall h :: h in returned ==> h < |holds|
      modifies this
      ensures ok == ExpireHolds(old(View()), Elements(returned)).Some?
      ensures ok ==> View() == ExpireHolds(old(View()), Elements(returned)).value
      ensures seatCount == FreedCount(old(rows), Elements(returned))
    {
      SameEvents(holds, Elements(returned));
      holds := SetStatus(holds, Elements(returned), Expired);
      seatCount := ReleaseInventoryForHolds(Elements(returned));
      ok := EnqueueExpiredHoldEvents(returned);
    }

    method ReleaseExpiredHoldsForSession(session: SessionId, now: Time) returns (ok: bool)
      modifies this
      ensures ok == ExpireHolds(old(View()), OverdueIn(old(holds), session, now)).Some?
      ensures ok ==> View() == ExpireHolds(old(View()), OverdueIn(old(holds), session, now)).value
    {
      hide SetStatus, FreeRows, EnqueueExpired;
      var ids := OverdueIn(holds, session, now);
      var expired := Returning(ids);
      assert forall h :: h in expired <==> h in Elements(expired);
      var seatCount;
      ok, seatCount := ExpireReturned(expired);
    }

    method ReleaseActiveHoldsForSession(session: SessionId)
      modifies this`holds, this`rows
      ensures View() == ReleaseSession(old(View()), session)
    {
      var released := ActiveIn(holds, session);
      holds := SetStatus(holds, released, Released);
      var _ := ReleaseInventoryForHolds(released);
    }

    // ----------------------------------------------------------------------
    // Holds
    // ----------------------------------------------------------------------

    method TryIdempotentReplay(r: Request) returns (answer: Option<AcquireResult>)
      ensures answer == TryReplay(holds, r)
      ensures answer.None? <==> forall h :: 0 <= h < |holds| ==> !Matches(holds[h], r)
      ensures answer.Some? ==> exists h :: (
        0 <= h < |holds| && Matches(holds[h], r)
        && answer == Some(if SameSeats(holds[h].seats, r.seats) then Replayed(h) else Refused(KeyReused)))
    {
      FindByKeySpec(holds, r);
      var existing := FindByKey(holds, r);
      if existing.None? { return None; }
      MatchIsSameSeats(holds[existing.value].seats, r.seats);
      if !SeatSelectionsMatch(holds[existing.value].seats, r.seats) { return Some(Refused(KeyReused)); }
      return Some(Replayed(existing.value));
    }

    /** The reads after the row locks: the first test to fail, if any. */
    method CheckClaim(r: Request, locked: set<RowKey>, now: Time) returns (refusal: Option<Refusal>)
      requires locked == set k | k in Keys(r.session, r.seats) && k in rows
      ensures refusal.None? ==>
        forall duration: Time :: ClaimTx(View(), r, now, duration) == InsertClaim(View(), r, locked, now + duration)
      ensures refusal.None? ==> forall k :: k in locked ==> rows[k].state == Available
      ensures refusal.Some? ==> forall duration: Time :: ClaimTx(View(), r, now, duration) == Thrown(refusal.value)
    {
      if r.session >= |cal.sessions| || cal.sessions[r.session].event >= |cal.events| { return Some(UnknownSession); }
      var session := cal.sessions[r.session];
      var eligibility := Evaluate(cal.events[session.event].status, session, HasInventory(rows, r.session), now);
      if eligibility.Blocked? { return Some(NotSellable(eligibility.reason)); }
      if |locked| != |r.seats| { return Some(UnknownSeat); }
      if exists k :: k in locked && rows[k].state != Available { return Some(SeatTaken); }
      refusal := None;
    }

    /** The writes: insert the hold, claim its rows, announce it. A throw may leave some of them done. */
    method InsertHold(r: Request, locked: set<RowKey>, expiresAt: Time) returns (result: TxResult)
      requires locked <= rows.Keys
      modifies this`rows, this`holds, this`outbox
      ensures (forall k :: k in locked ==> old(rows)[k].state == Available) ==>
        result == InsertClaim(old(View()), r, locked, expiresAt)
      ensures (exists k :: k in locked && old(rows)[k].state != Available) ==> result.Thrown?
      ensures result.Committed? ==> View() == result.db
    {
      if KeyUsed(holds, r) { return Thrown(KeyReused); }
      if HoldsInSession(holds, r) { return Thrown(AlreadyHolding); }
      var hold := |holds|;
      holds := holds + [Hold(r.session, r.user, r.key, r.seats, expiresAt, Active)];
      var claimed := set k | k in locked && rows[k].state == Available;
      AllClaimed(rows, locked);
      rows := ClaimRows(rows, claimed, hold, expiresAt);
      if |claimed| != |locked| { return Thrown(SeatTaken); }
      var announced := EnqueueInventoryEvent(HoldCreated(hold), r.session);
      if !announced { return Thrown(DuplicateEvent); }
      result := Committed(View(), hold);
    }

    /** The transaction of acquireSeatHold; Thrown leaves every table as it was, lazy expiry included. */
    method AcquireTransaction(r: Request, now: Time, duration: Time) returns (result: TxResult)
      modifies this
      ensures result == AcquireTx(old(View()), r, now, duration)
      ensures View() == if result.Committed? then result.db else old(View())
    {
      hide ClaimTx, InsertClaim, ExpireHolds, OverdueIn, Keys;
      var before := View();
      result := Thrown(DuplicateEvent);
      var clean := ReleaseExpiredHoldsForSession(r.session, now);
      if clean {
        var locked := set k | k in Keys(r.session, r.seats) && k in rows;
        var refusal := CheckClaim(r, locked, now);
        if refusal.Some? {
          result := Thrown(refusal.value);
        } else {
          result := InsertHold(r, locked, now + duration);
        }
      }
      if result.Thrown? { Rollback(before); }
    }

    /** The transaction with its error handling: a duplicate may have committed since the caller looked. */
    method AcquireOrReplay(r: Request, now: Time, duration: Time) returns (result: AcquireResult)
      modifies this
      ensures result == AcquireAfterRace(old(View()), r, now, duration)
      ensures View() == match AcquireTx(old(View()), r, now, duration)
                        case Committed(db, _) => db
                        case Thrown(_) => old(View())
    {
      var tx := AcquireTransaction(r, now, duration);
      match tx
      case Committed(_, hold) => result := Acquired(hold);
      case Thrown(why) =>
        result := Refused(why);
        if why == KeyReused {
          var replayed := TryIdempotentReplay(r);
          if replayed.Some? { result := replayed.value; }
        }
    }

    method AcquireSeatHold(r: Request, maxSeats: nat, now: Time, duration: Time) returns (result: AcquireResult)
      modifies this
      ensures (result, View()) == Acquire(old(View()), r, maxSeats, now, duration)
    {
      if !ValidRequest(r, maxSeats) { return Refused(InvalidRequest); }
      var replay := TryIdempotentReplay(r);
      if replay.Some? { return replay.value; }
      result := AcquireOrReplay(r, now, duration);
    }

    /** Only the owner may release. */
    method ReleaseSeatHold(user: UserId, hold: HoldId) returns (outcome: ReleaseOutcome)
      modifies this
      ensures outcome.NotAuthorized? <==> hold >= |old(holds)| || old(holds)[hold].user != user
      ensures outcome.ReleaseThrew? ==> ReleaseTx(old(View()), hold).None?
      ensures outcome.NotAuthorized? || outcome.ReleaseThrew? ==> View() == old(View())
      ensures outcome.Answered? ==> ReleaseTx(old(View()), hold) == Some((View(), outcome.released))
    {
      if hold >= |holds| || holds[hold].user != user { return NotAuthorized; }
      if holds[hold].status != Active { return Answered(false); }
      var before := View();
      holds := SetStatus(holds, {hold}, Released);
      var _ := ReleaseInventoryForHolds({hold});
      var announced := EnqueueInventoryEvent(HoldReleased(hold), holds[hold].session);
      if !announced { Rollback(before); return ReleaseThrew; }
      outcome := Answered(true);
    }

    // ----------------------------------------------------------------------
    // The sweeper
    // ----------------------------------------------------------------------

    /** SELECT ... ORDER BY expiresAt LIMIT batchSize FOR UPDATE SKIP LOCKED, past the holds others have locked. */
    method ClaimOverdue(now: Time, batchSize: nat, locked: set<HoldId>) returns (claimed: seq<HoldId>)
      ensures Distinct(claimed) && Elements(claimed) <= Overdue(holds, now) - locked
      ensures |claimed| == Min(batchSize, |Overdue(holds, now) - locked|)
      ensures EarliestFirst(holds, Elements(claimed), Overdue(holds, now) - locked)
    {
      var all := Overdue(holds, now) - locked;
      var rest := all;
      claimed := [];
      while |claimed| < batchSize && rest != {}
        invariant TakenEarliest(holds, claimed, rest, all)
        invariant |claimed| <= batchSize && |claimed| + |rest| == |all|
        decreases rest
      {
        var first := Earliest(rest);
        TakeNext(holds, claimed, rest, all, first);
        claimed := claimed + [first];
        rest := rest - {first};
      }
    }

    method Earliest(ids: set<HoldId>) returns (first: HoldId)
      requires ids != {} && forall h :: h in ids ==> h < |holds|
      ensures first in ids && forall h :: h in ids ==> holds[first].expiresAt <= holds[h].expiresAt
    {
      first :| first in ids;
      var rest := ids - {first};
      while rest != {}
        invariant rest <= ids && first in ids
        invariant forall h :: h in ids - rest ==> holds[first].expiresAt <= holds[h].expiresAt
        decreases rest
      {
        var h :| h in rest;
        if holds[h].expiresAt < holds[first].expiresAt { first := h; }
        rest := rest - {h};
      }
    }

    /** One batch, past the holds others have locked: claim, expire, free and announce, in one transaction. */
    method SweepBatch(now: Time, batchSize: nat, locked: set<HoldId>)
      returns (holdCount: nat, seatCount: nat, ghost ids: set<HoldId>)
      requires Inv(View())
      modifies this
      ensures ids <= Overdue(old(holds), now) - locked
      ensures |ids| == Min(batchSize, |Overdue(old(holds), now) - locked|)
      ensures EarliestFirst(old(holds), ids, Overdue(old(holds), now) - locked)
      ensures ExpireHolds(old(View()), ids) == Some(View()) && Inv(View())
      ensures holdCount == |ids| && seatCount == FreedCount(old(rows), ids)
    {
      hide Inv, EarliestFirst;
      ghost var before := View();
      var claimed := ClaimOverdue(now, batchSize, locked);
      ids := Elements(claimed);
      DistinctSize(claimed);
      OverdueExpire(before, ids, now);
      if |claimed| == 0 {
        assert ids == {};
        ExpireNothing(before);
        return 0, 0, ids;
      }
      holdCount := |claimed|;
      assert forall h :: h in claimed ==> h in ids;
      var ok;
      ok, seatCount := ExpireReturned(claimed);
    }

    /** The next batch of a sweep that began at `first` and has expired `ids` so far. */
    method SweepRound(ghost first: Db, ghost ids: set<HoldId>, now: Time, batchSize: nat)
      returns (holdCount: nat, seatCount: nat, ghost more: set<HoldId>)
      requires Inv(first) && SweptSoFar(first, View(), ids, now) && batchSize >= 1
      modifies this
      ensures SweptSoFar(first, View(), more, now)
      ensures |more| == |ids| + holdCount == Min(|ids| + batchSize, |Overdue(first.holds, now)|)
      ensures FreedCount(first.rows, more) == FreedCount(first.rows, ids) + seatCount
      ensures holdCount == 0 ==> seatCount == 0 && more == Overdue(first.holds, now)
    {
      hide Inv, EarliestFirst, ExpireHolds, FreedCount;
      ghost var before := View();
      ghost var batch;
      holdCount, seatCount, batch := SweepBatch(now, batchSize, {});
      assert Overdue(before.holds, now) - {} == Overdue(before.holds, now);
      more := ids + batch;
      ExpireNothing(before);
      SplitOverdue(ids, Overdue(first.holds, now), batch, batchSize);
      AddBatch(first, before, View(), ids, batch, now);
    }

    /**
     * sweepExpiredHolds. It ends having expired, in one-shot terms, the earliest
     * overdue holds that its batches could take: all of them without a limit.
     */
    method SweepExpiredHolds(now: Time, batchSize: nat, maxBatches: Option<nat>)
      returns (r: SweepResult, ghost ids: set<HoldId>)
      requires Inv(View()) && batchSize >= 1
      modifies this
      ensures SweptSoFar(old(View()), View(), ids, now)
      ensures maxBatches.None? ==> ids == Overdue(old(holds), now)
      ensures maxBatches.Some? ==> |ids| == Min(Quota(maxBatches.value, batchSize), |Overdue(old(holds), now)|)
      ensures r.holdsExpired == |ids| && r.seatsReleased == FreedCount(old(rows), ids)
      ensures |ids| <= Quota(r.batches, batchSize) && (r.batches > 0 ==> Quota(r.batches - 1, batchSize) < |ids|)
    {
      hide SweptSoFar, Inv, EarliestFirst, FreedCount;
      r := SweepResult(0, 0, 0);
      ids := {};
      ghost var first, overdue := View(), |Overdue(holds, now)|;
      SweepStarts(first, now);
      while maxBatches.None? || r.batches < maxBatches.value
        invariant SweptSoFar(first, View(), ids, now)
        invariant |ids| == Min(Quota(r.batches, batchSize), overdue)
        invariant maxBatches.Some? ==> r.batches <= maxBatches.value
        invariant r.batches > 0 ==> Quota(r.batches - 1, batchSize) < |ids|
        invariant r.holdsExpired == |ids| && r.seatsReleased == FreedCount(first.rows, ids)
        decreases overdue - |ids|
      {
        var holdCount, seatCount;
        holdCount, seatCount, ids := SweepRound(first, ids, now, batchSize);
        if holdCount == 0 {
          if maxBatches.Some? { MoreQuota(r.batches, maxBatches.value, batchSize); }
          return;
        }
        r := SweepResult(r.holdsExpired + holdCount, r.seatsReleased + seatCount, r.batches + 1);
      }
    }

    // ----------------------------------------------------------------------
    // Cancellation and booking
    // ----------------------------------------------------------------------

    /** The transaction of cancelEventSession; false means it threw. */
    method CancelEventSession(session: SessionId, now: Time) returns (ok: bool)
      modifies this
      ensures ok == CancelSessionTx(old(View()), session, now).Some?
      ensures View() == OrElse(CancelSessionTx(old(View()), session, now), old(View()))
    {
      var before := View();
      if session >= |cal.sessions| { return false; }
      cal := CancelSession(cal, session, now);
      ReleaseActiveHoldsForSession(session);
      ok := EnqueueInventoryEvent(SessionCancelledEvent(session), session);
      if !ok { Rollback(before); }
    }

    /** The loop of cancelEvent: release and announce each session; false at the first repeated event. */
    method ReleaseAndAnnounce(sessions: set<SessionId>) returns (ok: bool)
      modifies this`holds, this`rows, this`outbox
      ensures ok == (forall s :: s in sessions ==> SessionCancelledEvent(s) !in old(outbox))
      ensures ok ==> holds == SetStatus(old(holds), ActiveInAny(old(holds), sessions), Released)
      ensures ok ==> rows == FreeRows(old(rows), ActiveInAny(old(holds), sessions))
      ensures ok ==> outbox == old(outbox) + CancelEvents(sessions)
    {
      var rest := sessions;
      ghost var before, done: set<SessionId> := View(), {};
      NothingCancelled(before);
      while rest != {}
        invariant rest !! done && rest + done == sessions
        invariant holds == ReleasedIn(before, done).holds && rows == ReleasedIn(before, done).rows
        invariant forall s :: s in done ==> SessionCancelledEvent(s) !in before.outbox
        invariant outbox == before.outbox + CancelEvents(done)
        decreases rest
      {
        var s :| s in rest;
        OneMoreSession(before, done, s);
        OneMoreEvent(before.outbox, done, s);
        ReleaseActiveHoldsForSession(s);
        ok := EnqueueInventoryEvent(SessionCancelledEvent(s), s);
        if !ok { return; }
        rest, done := rest - {s}, done + {s};
      }
      ok := true;
    }

    /** The transaction of cancelEvent; false means it threw. */
    method CancelWholeEvent(event: EventId, now: Time) returns (ok: bool)
      modifies this
      ensures ok == CancelEventTx(old(View()), event, now).Some?
      ensures View() == OrElse(CancelEventTx(old(View()), event, now), old(View()))
    {
      var before := View();
      if event >= |cal.events| { return false; }
      if cal.events[event].status == EventCancelled { return true; }
      if !Manageable(cal, event) { return false; }
      var sessions := CancellableSessions(cal, event);
      cal := cal.(sessions := CancelSessions(cal.sessions, sessions, now));
      ok := ReleaseAndAnnounce(sessions);
      if !ok { Rollback(before); return; }
      cal := cal.(events := cal.events[event := cal.events[event].(status := EventCancelled, cancelledAt := Some(now))]);
    }

    /**
     * Book the hold's seats, convert it and announce it; false means the
     * transaction threw, because the seats were not all held by the hold or the
     * announcement was a duplicate, and changed nothing.
     */
    method BookSeats(hold: HoldId) returns (ok: bool)
      requires hold < |holds|
      modifies this
      ensures ok <==> |HeldKeys(old(rows), old(holds)[hold], hold)| == |old(holds)[hold].seats| && InventoryBooked(hold) !in old(outbox)
      ensures !ok ==> View() == old(View())
      ensures ok ==> var h := old(holds)[hold];
        && cal == old(cal)
        && rows == BookRows(old(rows), Keys(h.session, h.seats), hold)
        && holds == SetStatus(old(holds), {hold}, Converted)
        && outbox == old(outbox)[InventoryBooked(hold) := h.session]
    {
      var before := View();
      var h := holds[hold];
      var booked := |HeldKeys(rows, h, hold)|;
      rows := BookRows(rows, Keys(h.session, h.seats), hold);
      if booked != |h.seats| {
        Rollback(before);
        return false;
      }
      holds := SetStatus(holds, {hold}, Converted);
      ok := EnqueueInventoryEvent(InventoryBooked(hold), h.session);
      if !ok { Rollback(before); }
    }

    /** The fulfilment of a verified payment for the hold's order. */
    method FulfilPaidOrder(hold: HoldId, order: OrderStatus, now: Time) returns (result: BookResult)
      requires Inv(View())
      modifies this
      ensures result == BookTx(old(View()), hold, order, now)
      ensures View() == match result case BookedSeats(db) => db case ForReview(db, _) => db case _ => old(View())
    {
      if hold >= |holds| { return BookFailed; }
      BookKeepsInv(View(), hold, order, now);
      ghost var before := View();
      var h := holds[hold];
      var session := cal.sessions[h.session];
      var event := cal.events[session.event].status;
      var decision := DecideFulfilment(order, h.status, h.expiresAt, event, session.status, now);
      match decision
      case Idempotent => result := AlreadyDone;
      case Review(code) =>
        if code == CodeExpired && h.status == Active {
          ExpireKeepsInv(View(), OverdueIn(holds, h.session, now));
          var ok := ReleaseExpiredHoldsForSession(h.session, now);
        }
        result := ForReview(View(), code);
      case Fulfil =>
        FulfilFindsItsSeats(before, hold, order, event, session.status, now);
        if !SnapshotsMatch(View(), hold) { return Mismatch; }
        ConvertKeepsInv(before, hold);
        var announced := BookSeats(hold);
        result := BookedSeats(View());
    }
  }

  // ------------------------------------------------------------------------
  // Lemmas the methods use
  // ------------------------------------------------------------------------

  /** The hold's rows that are still held by it. */
  function HeldKeys(rows: Rows, h: Hold, hold: HoldId): set<RowKey> {
    set k | k in Keys(h.session, h.seats) && k in rows && rows[k].state == Held && rows[k].currentHold == Some(hold)
  }

  /** As many seats, and every one of the second among the first. */
  ghost predicate SameSeats(first: seq<SeatId>, second: seq<SeatId>) {
    |first| == |second| && Elements(second) <= Elements(first)
  }

  lemma MatchIsSameSeats(first: seq<SeatId>, second: seq<SeatId>)
    ensures SeatSelectionsMatch(first, second) <==> SameSeats(first, second)
  {
    if SameSeats(first, second) {
      forall s | s in second ensures s in first { assert s in Elements(second); }
    }
  }

  /** As many rows are free as are locked exactly when all of them are. */
  lemma AllClaimed(rows: Rows, locked: set<RowKey>)
    requires locked <= rows.Keys
    ensures var claimed := set k | k in locked && rows[k].state == Available;
      && (|claimed| == |locked| <==> claimed == locked)
      && (claimed == locked <==> forall k :: k in locked ==> rows[k].state == Available)
  {
    var claimed := set k | k in locked && rows[k].state == Available;
    if |claimed| == |locked| { SubsetOfSameSize(claimed, locked); }
    assert claimed == locked ==> forall k :: k in locked ==> k in claimed;
  }

  function Min(a: nat, b: nat): nat {
    if a < b then a else b
  }

  /** No hold left out expires before one taken. */
  ghost predicate EarliestFirst(holds: seq<Hold>, taken: set<HoldId>, all: set<HoldId>) {
    forall a, b :: a in taken && b in all && b !in taken && a < |holds| && b < |holds| ==>
      holds[a].expiresAt <= holds[b].expiresAt
  }

  /** `claimed` is what has been taken from `all`, earliest first; `rest` is what is left. */
  ghost predicate TakenEarliest(holds: seq<Hold>, claimed: seq<HoldId>, rest: set<HoldId>, all: set<HoldId>) {
    && Distinct(claimed) && Elements(claimed) <= all && rest == all - Elements(claimed)
    && EarliestFirst(holds, Elements(claimed), all)
  }

  lemma TakeNext(holds: seq<Hold>, claimed: seq<HoldId>, rest: set<HoldId>, all: set<HoldId>, first: HoldId)
    requires TakenEarliest(holds, claimed, rest, all) && first in rest && first < |holds|
    requires forall h :: h in rest ==> h < |holds| && holds[first].expiresAt <= holds[h].expiresAt
    ensures TakenEarliest(holds, claimed + [first], rest - {first}, all)
  {
    assert Elements(claimed + [first]) == Elements(claimed) + {first};
    assert first !in claimed;
  }

  lemma OverdueExpire(db: Db, ids: set<HoldId>, now: Time)
    requires Inv(db) && ids <= Overdue(db.holds, now)
    ensures (forall h :: h in ids ==> h < |db.holds|) && ExpireHolds(db, ids).Some? && Inv(ExpireHolds(db, ids).value)
  {
    ExpireKeepsInv(db, ids);
  }

  /** Expiring holds does not change which sessions their events name. */
  lemma SameEvents(holds: seq<Hold>, ids: set<HoldId>)
    requires forall h :: h in ids ==> h < |holds|
    ensures ExpiredEvents(SetStatus(holds, ids, Expired), ids) == ExpiredEvents(holds, ids)
  {
  }

  /** `db` is `first` with the overdue holds `ids`, the earliest of them, expired. */
  ghost predicate SweptSoFar(first: Db, db: Db, ids: set<HoldId>, now: Time) {
    && ids <= Overdue(first.holds, now) && EarliestFirst(first.holds, ids, Overdue(first.holds, now))
    && Inv(db) && ExpireHolds(first, ids) == Some(db)
    && Overdue(db.holds, now) == Overdue(first.holds, now) - ids
  }

  lemma SweepStarts(first: Db, now: Time)
    requires Inv(first)
    ensures SweptSoFar(first, first, {}, now) && FreedCount(first.rows, {}) == 0
  {
    ExpireNothing(first);
  }

  lemma AddBatch(first: Db, mid: Db, after: Db, ids: set<HoldId>, batch: set<HoldId>, now: Time)
    requires Inv(first) && Inv(after) && SweptSoFar(first, mid, ids, now)
    requires batch <= Overdue(mid.holds, now) && EarliestFirst(mid.holds, batch, Overdue(mid.holds, now))
    requires ExpireHolds(mid, batch) == Some(after)
    ensures SweptSoFar(first, after, ids + batch, now)
    ensures FreedCount(first.rows, ids) + FreedCount(mid.rows, batch) == FreedCount(first.rows, ids + batch)
  {
    BatchThenRest(first, ids, batch);
    BatchIsEarliest(first.holds, ids, batch, now);
  }

  lemma BatchIsEarliest(holds: seq<Hold>, ids: set<HoldId>, batch: set<HoldId>, now: Time)
    requires ids <= Overdue(holds, now) && EarliestFirst(holds, ids, Overdue(holds, now))
    requires var mid := SetStatus(holds, ids, Expired);
      batch <= Overdue(mid, now) && EarliestFirst(mid, batch, Overdue(mid, now))
    ensures ids + batch <= Overdue(holds, now) && EarliestFirst(holds, ids + batch, Overdue(holds, now))
    ensures Overdue(SetStatus(SetStatus(holds, ids, Expired), batch, Expired), now) == Overdue(holds, now) - (ids + batch)
  {
    assert Overdue(SetStatus(holds, ids, Expired), now) == Overdue(holds, now) - ids;
  }

  /** How many holds that many batches can take. */
  function Quota(batches: nat, batchSize: nat): nat {
    if batches == 0 then 0 else Quota(batches - 1, batchSize) + batchSize
  }

  lemma MoreQuota(some: nat, more: nat, batchSize: nat)
    requires some <= more
    ensures Quota(some, batchSize) <= Quota(more, batchSize)
    decreases more
  {
    if some < more { MoreQuota(some, more - 1, batchSize); }
  }

  lemma SplitOverdue(ids: set<HoldId>, overdue: set<HoldId>, batch: set<HoldId>, batchSize: nat)
    requires ids <= overdue && batch <= overdue - ids && |batch| == Min(batchSize, |overdue - ids|) && batchSize >= 1
    ensures |overdue| == |ids| + |overdue - ids| && |ids + batch| == |ids| + |batch|
    ensures |batch| == 0 ==> batch == {} && ids == overdue
  {
    assert overdue == ids + (overdue - ids);
    if |batch| == 0 { assert overdue - ids == {}; }
  }

  lemma NextElement<T>(s: seq<T>, i: nat)
    requires i < |s| && Distinct(s)
    ensures s[i] in Elements(s) && s[i] !in Elements(s[..i])
    ensures Elements(s[..i + 1]) == Elements(s[..i]) + {s[i]}
  {
    assert s[..i + 1] == s[..i] + [s[i]];
  }

  /** The announcements of `done` have been added to `first`, and none of them was there. */
  ghost predicate EnqueuedSoFar(first: Outbox, holds: seq<Hold>, done: set<HoldId>, outbox: Outbox) {
    && (forall h :: h in done ==> h < |holds| && HoldExpired(h) !in first)
    && outbox == first + ExpiredEvents(holds, done)
  }

  lemma StartEnqueuing(outbox: Outbox, holds: seq<Hold>)
    ensures EnqueuedSoFar(outbox, holds, {}, outbox)
  {
  }

  lemma EnqueueOneMore(first: Outbox, holds: seq<Hold>, all: set<HoldId>, done: set<HoldId>, h: HoldId, outbox: Outbox)
    requires EnqueuedSoFar(first, holds, done, outbox) && h in all && h !in done && h < |holds|
    requires forall x :: x in all ==> x < |holds|
    ensures HoldExpired(h) in outbox ==> EnqueueExpired(first, holds, all).None?
    ensures HoldExpired(h) !in outbox ==>
      EnqueuedSoFar(first, holds, done + {h}, outbox[HoldExpired(h) := holds[h].session])
  {
    assert outbox[HoldExpired(h) := holds[h].session].Keys
      == (first + ExpiredEvents(holds, done + {h})).Keys || HoldExpired(h) in first;
  }

  /** The tables once the active holds of the given sessions are released. */
  ghost function ReleasedIn(db: Db, sessions: set<SessionId>): Db {
    var ids := ActiveInAny(db.holds, sessions);
    db.(holds := SetStatus(db.holds, ids, Released), rows := FreeRows(db.rows, ids))
  }

  lemma NothingCancelled(db: Db)
    ensures ReleasedIn(db, {}) == db && db.outbox == db.outbox + CancelEvents({})
  {
    assert SetStatus(db.holds, {}, Released) == db.holds && FreeRows(db.rows, {}) == db.rows;
  }

  lemma OneMoreSession(db: Db, done: set<SessionId>, s: SessionId)
    requires s !in done
    ensures ReleaseSession(ReleasedIn(db, done), s) == ReleasedIn(db, done + {s})
  {
    var ids := ActiveInAny(db.holds, done);
    var holds := SetStatus(db.holds, ids, Released);
    assert ActiveInAny(db.holds, done + {s}) == ids + ActiveIn(holds, s);
    assert SetStatus(holds, ActiveIn(holds, s), Released) == SetStatus(db.holds, ids + ActiveIn(holds, s), Released);
    assert FreeRows(FreeRows(db.rows, ids), ActiveIn(holds, s)) == FreeRows(db.rows, ids + ActiveIn(holds, s));
  }

  lemma OneMoreEvent(outbox: Outbox, done: set<SessionId>, s: SessionId)
    requires s !in done
    ensures (outbox + CancelEvents(done))[SessionCancelledEvent(s) := s] == outbox + CancelEvents(done + {s})
    ensures SessionCancelledEvent(s) in outbox + CancelEvents(done) <==> SessionCancelledEvent(s) in outbox
  {
  }
}
