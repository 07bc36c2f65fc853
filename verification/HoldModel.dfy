/**
 * Seat inventory, holds and the event outbox, and what each database
 * transaction over them commits. A transaction that throws commits nothing, not
 * even the lazy expiries it did before throwing.
 */
module HoldModel {
  import opened Common
  import opened Schedule

  type SeatId = nat
  type UserId = nat
  type HoldId = nat

  /** The unique key of an inventory row. */
  datatype RowKey = RowKey(session: SessionId, seat: SeatId)

  datatype SeatState = Available | Held | Booked

  datatype SeatRow = SeatRow(state: SeatState, currentHold: Option<HoldId>, holdExpiresAt: Option<Time>)

  datatype HoldStatus = Active | Released | Expired | Converted

  /** `seats` lists the hold's items; nothing depends on their order. */
  datatype Hold = Hold(
    session: SessionId,
    user: UserId,
    key: string,
    seats: seq<SeatId>,
    expiresAt: Time,
    status: HoldStatus)

  /** Deduplication keys of outbox rows; the key is unique in the table. */
  datatype EventKey =
    | HoldCreated(hold: HoldId)
    | HoldReleased(hold: HoldId)
    | HoldExpired(hold: HoldId)
    | InventoryBooked(hold: HoldId)
    | SessionCancelledEvent(session: SessionId)
    | InventoryMaterialized(session: SessionId, nonce: nat)

  type Rows = map<RowKey, SeatRow>

  /** The outbox maps each deduplication key to the session it invalidates. */
  type Outbox = map<EventKey, SessionId>

  datatype Db = Db(cal: Calendar, rows: Rows, holds: seq<Hold>, outbox: Outbox)

  const FREE := SeatRow(Available, None, None)

  // ------------------------------------------------------------------------
  // Conditional updates
  // ------------------------------------------------------------------------

  /** UPDATE SeatHold SET status WHERE id IN ids. */
  function SetStatus(holds: seq<Hold>, ids: set<HoldId>, status: HoldStatus): seq<Hold> {
    seq(|holds|, h requires 0 <= h < |holds| =>
      if h in ids then holds[h].(status := status) else holds[h])
  }

  predicate PointsInto(row: SeatRow, ids: set<HoldId>) {
    row.currentHold.Some? && row.currentHold.value in ids
  }

  /** releaseInventoryForHolds: UPDATE rows WHERE currentHoldId IN ids. */
  function FreeRows(rows: Rows, ids: set<HoldId>): Rows {
    map k | k in rows :: if PointsInto(rows[k], ids) then FREE else rows[k]
  }

  /** The number of rows that update changes. */
  function FreedCount(rows: Rows, ids: set<HoldId>): nat {
    |set k | k in rows && PointsInto(rows[k], ids)|
  }

  function Overdue(holds: seq<Hold>, now: Time): set<HoldId> {
    set h | 0 <= h < |holds| && holds[h].status == Active && holds[h].expiresAt <= now
  }

  function OverdueIn(holds: seq<Hold>, session: SessionId, now: Time): set<HoldId> {
    set h | h in Overdue(holds, now) && holds[h].session == session
  }

  function ActiveIn(holds: seq<Hold>, session: SessionId): set<HoldId> {
    set h | 0 <= h < |holds| && holds[h].status == Active && holds[h].session == session
  }

  /** INSERT into the outbox; a repeated deduplication key throws. */
  function Enqueue(outbox: Outbox, key: EventKey, session: SessionId): Option<Outbox> {
    if key in outbox then None else Some(outbox[key := session])
  }

  /** The HOLD_EXPIRED rows of the given holds. */
  function ExpiredEvents(holds: seq<Hold>, ids: set<HoldId>): Outbox
    requires forall h :: h in ids ==> h < |holds|
  {
    map h | h in ids :: HoldExpired(h) := holds[h].session
  }

  /** One HOLD_EXPIRED row per hold; any repeated key throws. */
  function EnqueueExpired(outbox: Outbox, holds: seq<Hold>, ids: set<HoldId>): Option<Outbox>
    requires forall h :: h in ids ==> h < |holds|
  {
    if exists h :: h in ids && HoldExpired(h) in outbox then None
    else Some(outbox + ExpiredEvents(holds, ids))
  }

  // ------------------------------------------------------------------------
  // Expiry, release and cancellation
  // ------------------------------------------------------------------------

  /** Expire the given active holds, free their seats and announce each. */
  function ExpireHolds(db: Db, ids: set<HoldId>): Option<Db>
    requires forall h :: h in ids ==> h < |db.holds|
  {
    match EnqueueExpired(db.outbox, db.holds, ids)
    case None => None
    case Some(outbox) =>
      Some(db.(holds := SetStatus(db.holds, ids, Expired), rows := FreeRows(db.rows, ids), outbox := outbox))
  }

  /** The status-guarded transaction of releaseSeatHold, and whether it released anything. */
  function ReleaseTx(db: Db, hold: HoldId): Option<(Db, bool)> {
    if hold >= |db.holds| || db.holds[hold].status != Active then Some((db, false))
    else
      match Enqueue(db.outbox, HoldReleased(hold), db.holds[hold].session)
      case None => None
      case Some(outbox) =>
        Some((db.(holds := SetStatus(db.holds, {hold}, Released),
                  rows := FreeRows(db.rows, {hold}), outbox := outbox), true))
  }

  /** releaseActiveHoldsForSession: no event per hold is written. */
  function ReleaseSession(db: Db, session: SessionId): Db {
    var ids := ActiveIn(db.holds, session);
    db.(holds := SetStatus(db.holds, ids, Released), rows := FreeRows(db.rows, ids))
  }

  function CancelSessionTx(db: Db, session: SessionId, now: Time): Option<Db> {
    if session >= |db.cal.sessions| then None
    else
      match Enqueue(db.outbox, SessionCancelledEvent(session), session)
      case None => None
      case Some(outbox) =>
        Some(ReleaseSession(db, session).(cal := CancelSession(db.cal, session, now), outbox := outbox))
  }

  function ActiveInAny(holds: seq<Hold>, sessions: set<SessionId>): set<HoldId> {
    set h | 0 <= h < |holds| && holds[h].status == Active && holds[h].session in sessions
  }

  /** The SESSION_CANCELLED rows of the given sessions. */
  function CancelEvents(sessions: set<SessionId>): Outbox {
    map s | s in sessions :: SessionCancelledEvent(s) := s
  }

  /** cancelEvent: every cancellable session at once, one SESSION_CANCELLED row each. */
  function CancelEventTx(db: Db, event: EventId, now: Time): Option<Db> {
    match CancelEvent(db.cal, event, now)
    case None => None
    case Some(cal) =>
      if db.cal.events[event].status == EventCancelled then Some(db)
      else
        var sessions := CancellableSessions(db.cal, event);
        if exists s :: s in sessions && SessionCancelledEvent(s) in db.outbox then None
        else
          var ids := ActiveInAny(db.holds, sessions);
          Some(Db(cal, FreeRows(db.rows, ids), SetStatus(db.holds, ids, Released),
                  db.outbox + CancelEvents(sessions)))
  }

  // ------------------------------------------------------------------------
  // Acquisition
  // ------------------------------------------------------------------------

  datatype Request = Request(session: SessionId, user: UserId, key: string, seats: seq<SeatId>)

  datatype Refusal =
    | InvalidRequest
    | UnknownSession
    | NotSellable(reason: BlockReason)
    | UnknownSeat
    | SeatTaken
    | KeyReused
    | AlreadyHolding
    | DuplicateEvent

  datatype TxResult = Committed(db: Db, hold: HoldId) | Thrown(why: Refusal)

  function Keys(session: SessionId, seats: seq<SeatId>): set<RowKey> {
    set s | s in seats :: RowKey(session, s)
  }

  predicate HasInventory(rows: Rows, session: SessionId) {
    exists k :: k in rows && k.session == session
  }

  predicate KeyUsed(holds: seq<Hold>, r: Request) {
    exists h :: 0 <= h < |holds| && holds[h].session == r.session && holds[h].user == r.user && holds[h].key == r.key
  }

  predicate HoldsInSession(holds: seq<Hold>, r: Request) {
    exists h :: 0 <= h < |holds| && holds[h].status == Active && holds[h].session == r.session && holds[h].user == r.user
  }

  function ClaimRows(rows: Rows, keys: set<RowKey>, hold: HoldId, expiresAt: Time): Rows {
    map k | k in rows :: if k in keys then SeatRow(Held, Some(hold), Some(expiresAt)) else rows[k]
  }

  /** The writes of the locked part: the hold's unique indexes, its rows, its announcement. */
  function InsertClaim(db: Db, r: Request, locked: set<RowKey>, expiresAt: Time): TxResult {
    if KeyUsed(db.holds, r) then Thrown(KeyReused)
    else if HoldsInSession(db.holds, r) then Thrown(AlreadyHolding)
    else
      var h := |db.holds|;
      match Enqueue(db.outbox, HoldCreated(h), r.session)
      case None => Thrown(DuplicateEvent)
      case Some(outbox) =>
        Committed(Db(db.cal, ClaimRows(db.rows, locked, h, expiresAt),
                     db.holds + [Hold(r.session, r.user, r.key, r.seats, expiresAt, Active)], outbox), h)
  }

  /** The locked part: reads, tests and writes after this session's overdue holds were expired. */
  function ClaimTx(db: Db, r: Request, now: Time, duration: Time): TxResult {
    var locked := set k | k in Keys(r.session, r.seats) && k in db.rows;
    if r.session >= |db.cal.sessions| || db.cal.sessions[r.session].event >= |db.cal.events| then Thrown(UnknownSession)
    else
      var session := db.cal.sessions[r.session];
      var eligibility := Evaluate(db.cal.events[session.event].status, session, HasInventory(db.rows, r.session), now);
      if eligibility.Blocked? then Thrown(NotSellable(eligibility.reason))
      else if |locked| != |r.seats| then Thrown(UnknownSeat)
      else if exists k :: k in locked && db.rows[k].state != Available then Thrown(SeatTaken)
      else InsertClaim(db, r, locked, now + duration)
  }

  /** The whole transaction of acquireSeatHold. */
  function AcquireTx(db: Db, r: Request, now: Time, duration: Time): TxResult {
    match ExpireHolds(db, OverdueIn(db.holds, r.session, now))
    case None => Thrown(DuplicateEvent)
    case Some(cleaned) => ClaimTx(cleaned, r, now, duration)
  }

  /** seatSelectionsMatch. */
  predicate SeatSelectionsMatch(first: seq<SeatId>, second: seq<SeatId>) {
    |first| == |second| && forall s :: s in second ==> s in first
  }

  /** findUnique on (session, user, key). */
  function FindByKey(holds: seq<Hold>, r: Request): (found: Option<HoldId>)
    ensures found.Some? ==> found.value < |holds|
  {
    if holds == [] then None
    else
      var last := |holds| - 1;
      if holds[last].session == r.session && holds[last].user == r.user && holds[last].key == r.key then Some(last)
      else FindByKey(holds[..last], r)
  }

  datatype AcquireResult =
    | Acquired(hold: HoldId)
    | Replayed(hold: HoldId)
    | Refused(why: Refusal)

  /** tryIdempotentReplay: None when the key is new. */
  function TryReplay(holds: seq<Hold>, r: Request): Option<AcquireResult> {
    match FindByKey(holds, r)
    case None => None
    case Some(h) =>
      if SeatSelectionsMatch(holds[h].seats, r.seats) then Some(Replayed(h)) else Some(Refused(KeyReused))
  }

  /** The request schema: at least one seat, no more than allowed, none twice. */
  predicate ValidRequest(r: Request, maxSeats: nat) {
    1 <= |r.seats| <= maxSeats && |Elements(r.seats)| == |r.seats|
  }

  /** acquireSeatHold when nothing runs between its reads and its transaction. */
  function Acquire(db: Db, r: Request, maxSeats: nat, now: Time, duration: Time): (AcquireResult, Db) {
    if !ValidRequest(r, maxSeats) then (Refused(InvalidRequest), db)
    else
      match TryReplay(db.holds, r)
      case Some(answer) => (answer, db)
      case None =>
        match AcquireTx(db, r, now, duration)
        case Committed(after, h) => (Acquired(h), after)
        case Thrown(why) => (Refused(why), db)
  }

  // ------------------------------------------------------------------------
  // Booking a paid hold
  // ------------------------------------------------------------------------

  datatype OrderStatus = OrderPending | PaymentPending | Fulfilled | OrderFailed | OrderCancelled
                       | OrderExpired | PaidUnfulfilled | OrderReview

  datatype ReviewCode = CodeReleased | CodeExpired | CodeNotActive | CodeCancelled | CodeUnavailable | CodeTerminal

  datatype Fulfilment = Fulfil | Idempotent | Review(code: ReviewCode)

  /** decidePaidFulfillment. */
  function DecideFulfilment(order: OrderStatus, hold: HoldStatus, expiresAt: Time,
                            event: EventStatus, session: SessionStatus, now: Time): Fulfilment {
    if order == Fulfilled then Idempotent
    else if order in {OrderFailed, OrderCancelled, OrderExpired, PaidUnfulfilled, OrderReview} then Review(CodeTerminal)
    else if hold == Released then Review(CodeReleased)
    else if hold == Expired || now >= expiresAt then Review(CodeExpired)
    else if hold != Active then Review(CodeNotActive)
    else if session == Cancelled then Review(CodeCancelled)
    else if event != EventPublished || session !in {Scheduled, OnSale, SalesPaused} then Review(CodeUnavailable)
    else Fulfil
  }

  function BookRows(rows: Rows, keys: set<RowKey>, hold: HoldId): Rows {
    map k | k in rows ::
      if k in keys && rows[k].state == Held && rows[k].currentHold == Some(hold)
      then SeatRow(Booked, None, None) else rows[k]
  }

  /** The inventory rows a hold's order snapshot must match before it is booked. */
  predicate SnapshotsMatch(db: Db, hold: HoldId)
    requires hold < |db.holds|
  {
    var h := db.holds[hold];
    && |h.seats| != 0
    && forall k :: k in Keys(h.session, h.seats) ==>
         k in db.rows && db.rows[k] == SeatRow(Held, Some(hold), Some(h.expiresAt))
  }

  datatype BookResult = BookedSeats(db: Db) | ForReview(db: Db, code: ReviewCode) | Mismatch | AlreadyDone | BookFailed

  /** A verified payment success for the order of `hold`, whose items copy the hold's. */
  function BookTx(db: Db, hold: HoldId, order: OrderStatus, now: Time): BookResult {
    if hold >= |db.holds| || db.holds[hold].session >= |db.cal.sessions|
       || db.cal.sessions[db.holds[hold].session].event >= |db.cal.events| then BookFailed
    else
      var h := db.holds[hold];
      var session := db.cal.sessions[h.session];
      match DecideFulfilment(order, h.status, h.expiresAt, db.cal.events[session.event].status, session.status, now)
      case Idempotent => AlreadyDone
      case Review(code) =>
        if code == CodeExpired && h.status == Active then
          match ExpireHolds(db, OverdueIn(db.holds, h.session, now))
          case None => BookFailed
          case Some(after) => ForReview(after, code)
        else ForReview(db, code)
      case Fulfil =>
        if !SnapshotsMatch(db, hold) then Mismatch
        else
          match Enqueue(db.outbox, InventoryBooked(hold), h.session)
          case None => BookFailed
          case Some(outbox) =>
            BookedSeats(Db(db.cal, BookRows(db.rows, Keys(h.session, h.seats), hold),
                           SetStatus(db.holds, {hold}, Converted), outbox))
  }

  // ------------------------------------------------------------------------
  // Materialised inventory
  // ------------------------------------------------------------------------

  /** createMany with skipDuplicates: existing rows stay as they are. */
  function AddRows(rows: Rows, keys: set<RowKey>): Rows {
    (map k | k in keys :: FREE) + rows
  }

  function RowsOf(rows: Rows, session: SessionId): set<RowKey> {
    set k | k in rows && k.session == session
  }

  /**
   * publishEventSession over the sellable seats derived from the map: the
   * publication fails unless the session's inventory then has exactly that size.
   * The event's deduplication key ends in a random identifier, here `nonce`.
   */
  function PublishTx(db: Db, session: SessionId, seats: seq<SeatId>, priced: bool, nonce: nat, now: Time): Option<Db> {
    match PublishSession(db.cal, session, priced, now)
    case None => None
    case Some(cal) =>
      if cal == db.cal then Some(db)
      else
        var rows := AddRows(db.rows, Keys(session, seats));
        if |RowsOf(rows, session)| != |seats| then None
        else if rows == db.rows then Some(db.(cal := cal))
        else
          match Enqueue(db.outbox, InventoryMaterialized(session, nonce), session)
          case None => None
          case Some(outbox) => Some(Db(cal, rows, db.holds, outbox))
  }
}
