/** Idempotent acquisition, sequential and racing, and the one-shot meaning of expiry in batches. */
module HoldIdempotency {
  import opened Common
  import opened Schedule
  import opened HoldModel
  import opened HoldInvariant
  import opened HoldRuns

  // ------------------------------------------------------------------------
  // Replaying a request
  // ------------------------------------------------------------------------

  /** For requests that list no seat twice, the length-and-membership test is set equality. */
  lemma SelectionsMatchIffSameSet(first: seq<SeatId>, second: seq<SeatId>)
    requires Distinct(first) && Distinct(second)
    ensures SeatSelectionsMatch(first, second) <==> Elements(first) == Elements(second)
  {
    DistinctSize(first);
    DistinctSize(second);
    if SeatSelectionsMatch(first, second) {
      SubsetOfSameSize(Elements(second), Elements(first));
    }
    if Elements(first) == Elements(second) {
      assert forall s :: s in second ==> s in Elements(first);
    }
  }

  ghost predicate Matches(h: Hold, r: Request) {
    SameOwner(h, r) && h.key == r.key
  }

  lemma {:induction false} FindByKeySpec(holds: seq<Hold>, r: Request)
    ensures var found := FindByKey(holds, r);
      && (found.Some? ==> Matches(holds[found.value], r))
      && (found.None? ==> forall h :: 0 <= h < |holds| ==> !Matches(holds[h], r))
  {
    if holds != [] {
      FindByKeySpec(holds[..|holds| - 1], r);
      assert forall h :: 0 <= h < |holds| - 1 ==> holds[..|holds| - 1][h] == holds[h];
    }
  }

  /** The unique index makes the lookup find the one hold that carries the key. */
  lemma FindsTheHold(holds: seq<Hold>, r: Request, h: HoldId)
    requires HoldsUnique(holds) && h < |holds| && Matches(holds[h], r)
    ensures FindByKey(holds, r) == Some(h)
  {
    FindByKeySpec(holds, r);
    var found := FindByKey(holds, r);
    assert found.Some?;
    assert found.value == h || PairOk(holds[found.value], holds[h]);
  }

  /** A successful call leaves its hold in the table. */
  lemma AcquiredHoldIsStored(db: Db, r: Request, maxSeats: nat, now: Time, duration: Time)
    requires Inv(db) && Acquire(db, r, maxSeats, now, duration).0.Acquired?
    ensures var (answer, after) := Acquire(db, r, maxSeats, now, duration);
      && Inv(after) && answer.hold < |after.holds|
      && after.holds[answer.hold] == Hold(r.session, r.user, r.key, r.seats, now + duration, Active)
  {
    ValidRequestShape(r, maxSeats);
    AcquireKeepsInv(db, r, now, duration);
    AcquireDoes(db, r, now, duration);
  }

  /**
   * After a successful acquisition and any run whatsoever, the same key with the
   * same seats in any order returns the same hold and changes nothing, even once
   * that hold is terminal; the same key with other seats is always refused.
   */
  lemma ReplayedForever(db: Db, r: Request, maxSeats: nat, now: Time, duration: Time, actions: seq<Action>,
                        r': Request, maxSeats': nat, now': Time, duration': Time)
    requires Inv(db) && Acquire(db, r, maxSeats, now, duration).0.Acquired?
    requires r'.session == r.session && r'.user == r.user && r'.key == r.key && ValidRequest(r', maxSeats')
    ensures var (answer, after) := Acquire(db, r, maxSeats, now, duration); var end := Run(after, actions);
      Acquire(end, r', maxSeats', now', duration') ==
        (if Elements(r'.seats) == Elements(r.seats) then Replayed(answer.hold) else Refused(KeyReused), end)
  {
    var (answer, after) := Acquire(db, r, maxSeats, now, duration);
    AcquiredHoldIsStored(db, r, maxSeats, now, duration);
    RunKeepsInv(after, actions);
    RunIsLater(after, actions);
    var end := Run(after, actions);
    assert HoldFollows(after.holds[answer.hold], end.holds[answer.hold]);
    FindsTheHold(end.holds, r', answer.hold);
    ValidRequestShape(r, maxSeats);
    ValidRequestShape(r', maxSeats');
    SelectionsMatchIffSameSet(r.seats, r'.seats);
  }

  /** acquireSeatHold when the duplicate committed between the first lookup and the transaction. */
  function AcquireAfterRace(db: Db, r: Request, now: Time, duration: Time): AcquireResult {
    match AcquireTx(db, r, now, duration)
    case Committed(_, h) => Acquired(h)
    case Thrown(why) =>
      if why == KeyReused then
        (match TryReplay(db.holds, r) case Some(answer) => answer case None => Refused(KeyReused))
      else Refused(why)
  }

  /** Which test the locked part stops at when the key is already used. */
  lemma ClaimStops(db: Db, r: Request, now: Time, duration: Time)
    requires r.seats != [] && Distinct(r.seats) && KeyUsed(db.holds, r)
    ensures ClaimTx(db, r, now, duration) == Thrown(KeyReused) <==>
      && SessionSellable(db.cal, r.session, true, now)
      && (forall k :: k in Keys(r.session, r.seats) ==> k in db.rows && db.rows[k].state == Available)
    ensures ClaimTx(db, r, now, duration).Thrown?
  {
    var keys := Keys(r.session, r.seats);
    var locked := set k | k in keys && k in db.rows;
    LockedAll(db.rows, r.session, r.seats);
    var first := RowKey(r.session, r.seats[0]);
    assert r.seats[0] in r.seats && first in keys;
    if first in db.rows { assert HasInventory(db.rows, r.session); }
    if |locked| == |r.seats| { assert forall k :: k in keys ==> k in locked; }
  }

  /**
   * The seat test runs before the insert can meet the key's unique index, so a
   * racing duplicate is replayed exactly when its seats could be taken again.
   */
  lemma RaceReplaysExactly(db: Db, r: Request, now: Time, duration: Time, h: HoldId)
    requires Inv(db) && r.seats != [] && Distinct(r.seats)
    requires h < |db.holds| && Matches(db.holds[h], r) && Elements(db.holds[h].seats) == Elements(r.seats)
    ensures AcquireAfterRace(db, r, now, duration) == Replayed(h) <==>
      && SessionSellable(db.cal, r.session, true, now)
      && (forall k :: k in Keys(r.session, r.seats) ==> k in db.rows && Takeable(db.rows[k], now))
  {
    Cleaned(db, r, now);
    var cleaned := ExpireHolds(db, OverdueIn(db.holds, r.session, now)).value;
    assert KeyUsed(cleaned.holds, r) by { assert cleaned.holds[h].key == r.key; }
    ClaimStops(cleaned, r, now, duration);
    forall k | k in Keys(r.session, r.seats) && k in db.rows
      ensures cleaned.rows[k].state == Available <==> Takeable(db.rows[k], now)
    {
      CleanedRow(db.rows, db.holds, r.session, now, k);
    }
    FindsTheHold(db.holds, r, h);
    assert HoldOk(h, db.holds[h], db.rows);
    SelectionsMatchIffSameSet(db.holds[h].seats, r.seats);
  }

  /** While the first hold is live, a racing duplicate of it is refused rather than replayed. */
  lemma RaceAgainstLiveHold(db: Db, r: Request, now: Time, duration: Time, h: HoldId)
    requires Inv(db) && r.seats != [] && Distinct(r.seats)
    requires h < |db.holds| && Matches(db.holds[h], r) && Elements(db.holds[h].seats) == Elements(r.seats)
    requires db.holds[h].status == Active && db.holds[h].expiresAt > now
    ensures AcquireAfterRace(db, r, now, duration) != Replayed(h)
  {
    RaceReplaysExactly(db, r, now, duration, h);
    assert HoldOk(h, db.holds[h], db.rows);
    var k := RowKey(r.session, r.seats[0]);
    assert r.seats[0] in r.seats && r.seats[0] in Elements(db.holds[h].seats);
    assert k in Keys(r.session, r.seats) && Lists(db.holds[h], k);
  }

  // ------------------------------------------------------------------------
  // Batched expiry
  // ------------------------------------------------------------------------

  /** Expiring two disjoint groups one after the other is expiring them at once. */
  lemma ExpireInTwo(db: Db, a: set<HoldId>, b: set<HoldId>)
    requires Inv(db) && AllActive(db.holds, a + b) && a !! b
    ensures ExpireHolds(db, a).Some? && ExpireHolds(db, a + b).Some?
    ensures AllActive(ExpireHolds(db, a).value.holds, b)
    ensures ExpireHolds(ExpireHolds(db, a).value, b) == ExpireHolds(db, a + b)
    ensures FreedCount(db.rows, a) + FreedCount(FreeRows(db.rows, a), b) == FreedCount(db.rows, a + b)
  {
    ExpireKeepsInv(db, a);
    ExpireKeepsInv(db, a + b);
    var mid := ExpireHolds(db, a).value;
    ExpireKeepsInv(mid, b);
    ExpireTablesInTwo(db.rows, db.holds, a, b);
    ExpireOutboxInTwo(db.outbox, db.holds, a, b);
    FreedCountInTwo(db.rows, a, b);
  }

  lemma ExpireTablesInTwo(rows: Rows, holds: seq<Hold>, a: set<HoldId>, b: set<HoldId>)
    ensures FreeRows(FreeRows(rows, a), b) == FreeRows(rows, a + b)
    ensures SetStatus(SetStatus(holds, a, Expired), b, Expired) == SetStatus(holds, a + b, Expired)
  {
  }

  lemma ExpiredEventsInTwo(holds: seq<Hold>, a: set<HoldId>, b: set<HoldId>)
    requires forall h :: h in a + b ==> h < |holds|
    ensures (forall h :: h in a ==> h in a + b) && (forall h :: h in b ==> h in a + b)
    ensures ExpiredEvents(holds, a) + ExpiredEvents(SetStatus(holds, a, Expired), b) == ExpiredEvents(holds, a + b)
  {
  }

  lemma ExpireOutboxInTwo(outbox: Outbox, holds: seq<Hold>, a: set<HoldId>, b: set<HoldId>)
    requires a !! b
    requires forall h :: h in a ==> h < |holds| && HoldExpired(h) !in outbox
    requires forall h :: h in b ==> h < |holds| && HoldExpired(h) !in outbox
    ensures EnqueueExpired(outbox, holds, a).Some? && EnqueueExpired(outbox, holds, a + b).Some?
    ensures EnqueueExpired(EnqueueExpired(outbox, holds, a).value, SetStatus(holds, a, Expired), b)
            == EnqueueExpired(outbox, holds, a + b)
  {
    var first := EnqueueExpired(outbox, holds, a).value;
    ExpiredEventsInTwo(holds, a, b);
    assert first + ExpiredEvents(SetStatus(holds, a, Expired), b) == outbox + ExpiredEvents(holds, a + b);
  }

  lemma FreedCountInTwo(rows: Rows, a: set<HoldId>, b: set<HoldId>)
    requires a !! b
    ensures FreedCount(rows, a) + FreedCount(FreeRows(rows, a), b) == FreedCount(rows, a + b)
  {
    var first := set k | k in rows && PointsInto(rows[k], a);
    var second := set k | k in FreeRows(rows, a) && PointsInto(FreeRows(rows, a)[k], b);
    assert first !! second;
    assert (set k | k in rows && PointsInto(rows[k], a + b)) == first + second;
  }

  /** One sweeper's committed batch: the locks it won and the clock it read. */
  datatype Claim = Claim(chosen: set<HoldId>, now: Time)

  function SweepAll(db: Db, claims: seq<Claim>): Db
    decreases |claims|
  {
    if claims == [] then db else SweepAll(Step(db, Sweeping(claims[0].chosen, claims[0].now)), claims[1..])
  }

  /** The sum of the counts the batches report. */
  function ReportedHolds(db: Db, claims: seq<Claim>): nat
    decreases |claims|
  {
    if claims == [] then 0
    else |Batch(db, claims[0].chosen, claims[0].now)|
         + ReportedHolds(Step(db, Sweeping(claims[0].chosen, claims[0].now)), claims[1..])
  }

  function ReportedSeats(db: Db, claims: seq<Claim>): nat
    decreases |claims|
  {
    if claims == [] then 0
    else FreedCount(db.rows, Batch(db, claims[0].chosen, claims[0].now))
         + ReportedSeats(Step(db, Sweeping(claims[0].chosen, claims[0].now)), claims[1..])
  }

  /** The holds that interleaved sweepers expire between them. */
  ghost function Swept(db: Db, claims: seq<Claim>): set<HoldId>
    decreases |claims|
  {
    if claims == [] then {}
    else Batch(db, claims[0].chosen, claims[0].now)
         + Swept(Step(db, Sweeping(claims[0].chosen, claims[0].now)), claims[1..])
  }

  /** One batch, then what the rest expire from the state it leaves. */
  lemma BatchThenRest(db: Db, batch: set<HoldId>, rest: set<HoldId>)
    requires Inv(db) && AllActive(db.holds, batch) && ExpireHolds(db, batch).Some?
    requires AllActive(ExpireHolds(db, batch).value.holds, rest)
    ensures batch !! rest && AllActive(db.holds, batch + rest)
    ensures ExpireHolds(ExpireHolds(db, batch).value, rest) == ExpireHolds(db, batch + rest)
    ensures FreedCount(db.rows, batch) + FreedCount(ExpireHolds(db, batch).value.rows, rest)
            == FreedCount(db.rows, batch + rest)
  {
    StillActive(db.holds, batch, rest);
    ExpireInTwo(db, batch, rest);
  }

  /**
   * However many sweepers interleave, their batches partition what they expire:
   * the end state is the one-shot expiry of that set, and the reported counts add
   * up to exactly its holds and its seats.
   */
  lemma {:induction false} SweepersPartition(db: Db, claims: seq<Claim>)
    requires Inv(db)
    ensures AllActive(db.holds, Swept(db, claims))
    ensures ExpireHolds(db, Swept(db, claims)) == Some(SweepAll(db, claims))
    ensures ReportedHolds(db, claims) == |Swept(db, claims)|
    ensures ReportedSeats(db, claims) == FreedCount(db.rows, Swept(db, claims))
    decreases |claims|
  {
    hide Inv;
    if claims == [] {
      ExpireNothing(db);
    } else {
      var batch := Batch(db, claims[0].chosen, claims[0].now);
      ExpireKeepsInv(db, batch);
      var mid := Step(db, Sweeping(claims[0].chosen, claims[0].now));
      SweepersPartition(mid, claims[1..]);
      BatchThenRest(db, batch, Swept(mid, claims[1..]));
    }
  }

  /** What is active after a batch expired was active before and not in the batch. */
  lemma StillActive(holds: seq<Hold>, batch: set<HoldId>, rest: set<HoldId>)
    requires AllActive(holds, batch) && AllActive(SetStatus(holds, batch, Expired), rest)
    ensures batch !! rest && AllActive(holds, batch + rest)
  {
    forall h | h in rest ensures h !in batch && h < |holds| && holds[h].status == Active {
      assert SetStatus(holds, batch, Expired)[h].status == Active;
    }
  }

  lemma ExpireNothing(db: Db)
    ensures ExpireHolds(db, {}) == Some(db)
    ensures FreedCount(db.rows, {}) == 0
  {
    assert FreeRows(db.rows, {}) == db.rows;
    assert SetStatus(db.holds, {}, Expired) == db.holds;
    assert EnqueueExpired(db.outbox, db.holds, {}).value == db.outbox;
    assert (set k | k in db.rows && PointsInto(db.rows[k], {})) == {};
  }

  /** Sweepers that between them leave nothing overdue reach the state of expiring everything overdue at once. */
  lemma CompleteSweep(db: Db, claims: seq<Claim>, now: Time)
    requires Inv(db) && (forall c :: c in claims ==> c.now == now)
    requires Overdue(SweepAll(db, claims).holds, now) == {}
    ensures Some(SweepAll(db, claims)) == ExpireHolds(db, Overdue(db.holds, now))
    ensures ReportedHolds(db, claims) == |Overdue(db.holds, now)|
    ensures ReportedSeats(db, claims) == FreedCount(db.rows, Overdue(db.holds, now))
  {
    hide SweepAll, Swept, Inv, ReportedHolds, ReportedSeats, FreedCount;
    SweepersPartition(db, claims);
    SweptIsOverdue(db, claims, now);
    SweptEverything(db, SweepAll(db, claims), Swept(db, claims), now);
  }

  lemma SweptEverything(db: Db, after: Db, swept: set<HoldId>, now: Time)
    requires swept <= Overdue(db.holds, now) && ExpireHolds(db, swept) == Some(after)
    requires Overdue(after.holds, now) == {}
    ensures swept == Overdue(db.holds, now)
  {
    forall h | h in Overdue(db.holds, now) ensures h in swept {
      assert h !in Overdue(after.holds, now);
    }
  }

  lemma {:induction false} SweptIsOverdue(db: Db, claims: seq<Claim>, now: Time)
    requires forall c :: c in claims ==> c.now == now
    ensures Swept(db, claims) <= Overdue(db.holds, now)
    decreases |claims|
  {
    if claims != [] {
      var batch := Batch(db, claims[0].chosen, now);
      SweptIsOverdue(Step(db, Sweeping(claims[0].chosen, now)), claims[1..], now);
      assert Overdue(SetStatus(db.holds, batch, Expired), now) <= Overdue(db.holds, now);
    }
  }
}
