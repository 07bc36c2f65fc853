/**
 * All the refunds of one captured payment: requests, submission, provider events
 * in any order and number, and the database's own checks on every commit.
 */
module Refunds {
  import opened Common
  import opened RefundLifecycle
  import opened RefundPricing

  datatype Refund = Refund(
    key: string,
    amount: int,
    scope: Scope,
    seats: seq<SeatId>,
    status: Status,
    providerId: Option<nat>,
    submittedAt: Option<Time>,
    succeededAt: Option<Time>,
    failedAt: Option<Time>,
    cancelledAt: Option<Time>)

  datatype Seat = Seat(seat: SeatId, price: nat)

  /** `flagged` is the order's financial review state; nothing in the program clears it. */
  datatype Payment = Payment(captured: nat, currency: Currency, seats: seq<Seat>, refunds: seq<Refund>, flagged: bool)

  // ------------------------------------------------------------------------
  // The aggregates a trigger recomputes after every write
  // ------------------------------------------------------------------------

  function SumIf(refunds: seq<Refund>, which: Refund -> bool): int {
    if refunds == [] then 0
    else SumIf(refunds[..|refunds| - 1], which)
         + if which(refunds[|refunds| - 1]) then refunds[|refunds| - 1].amount else 0
  }

  predicate Returned(r: Refund) {
    r.succeededAt.Some?
  }

  predicate Reserved(r: Refund) {
    r.succeededAt.None? && InFlight(r.status)
  }

  /** Live or completed: what covers a seat. */
  predicate Covers(r: Refund) {
    Returned(r) || Reserved(r)
  }

  function RefundedMinor(p: Payment): int {
    SumIf(p.refunds, Returned)
  }

  function InFlightMinor(p: Payment): int {
    SumIf(p.refunds, Reserved)
  }

  function CapacityOf(p: Payment): Capacity {
    Capacity(p.captured, RefundedMinor(p), InFlightMinor(p), p.currency)
  }

  function Covered(refunds: seq<Refund>): set<SeatId> {
    set r, s | r in refunds && Covers(r) && s in r.seats :: s
  }

  function Snapshots(seats: seq<Seat>, covered: set<SeatId>, currency: Currency): seq<Snapshot> {
    seq(|seats|, i requires 0 <= i < |seats| =>
      Snapshot(seats[i].seat, seats[i].price, currency, seats[i].seat in covered))
  }

  function SnapshotsOf(p: Payment): seq<Snapshot> {
    Snapshots(p.seats, Covered(p.refunds), p.currency)
  }

  // ------------------------------------------------------------------------
  // What each transaction writes
  // ------------------------------------------------------------------------

  datatype Choice = Whole | Seats(ids: seq<SeatId>) | Fixed(amount: int)

  datatype Event = Event(status: Status, amount: int, currency: Currency, occurredAt: Option<Time>)

  /** `permitted` stands for authorization and the booking, order and session states. */
  datatype Action =
    | Request(key: string, choice: Choice, permitted: bool)
    | Claim(id: nat, now: Time)
    | RecordSubmission(id: nat, providerId: nat)
    | RecordTimeout(id: nat)
    | Adopt(id: nat, providerId: nat)
    | FailLocally(id: nat, now: Time)
    | Deliver(id: nat, event: Event, now: Time)

  function Calculate(p: Payment, choice: Choice): Calculation {
    match choice
    case Whole => FullBookingRefund(SnapshotsOf(p), CapacityOf(p))
    case Seats(ids) => SeatRefund(SnapshotsOf(p), ids, CapacityOf(p))
    case Fixed(amount) => FixedRefund(amount, CapacityOf(p))
  }

  /** requestRefund: None when the key is a replay or the request is refused. */
  function NewRefund(p: Payment, key: string, choice: Choice, permitted: bool): Option<Refund> {
    if (exists r :: r in p.refunds && r.key == key) || !permitted || p.flagged || Remaining(CapacityOf(p)) <= 0 then None
    else
      match Calculate(p, choice)
      case Rejected(_) => None
      case Eligible(scope, amount, _, seats) =>
        Some(Refund(key, amount, scope, seats, Requested, None, None, None, None, None))
  }

  /** settleRefundFromVerifiedEvent, on the row it finds by provider id. */
  function Settle(r: Refund, currency: Currency, e: Event, now: Time): Refund {
    if e.amount != r.amount || e.currency != currency then r.(status := UnderReview)
    else if Stale(if r.succeededAt.Some? then r.succeededAt else r.failedAt, e.occurredAt) then r
    else
      match RefundLifecycle.Decide(r.status, e.status)
      case Ignore => r
      case Escalate => r.(status := UnderReview)
      case Advance(Succeeded) => r.(status := Succeeded, succeededAt := Some(now))
      case Advance(Failed) => r.(status := Failed, failedAt := Some(now))
      case Advance(status) => r.(status := status, submittedAt := Some(now))
  }

  /** The row a transaction rewrites, as it would leave it. */
  function Rewritten(r: Refund, currency: Currency, a: Action): Refund
    requires !a.Request?
  {
    match a
    case Claim(_, now) =>
      if r.status != Requested then r
      else r.(status := Submitting, submittedAt := if r.submittedAt.Some? then r.submittedAt else Some(now))
    case RecordSubmission(_, id) =>
      if r.status in {Submitting, Processing} then r.(status := Processing, providerId := Some(id)) else r
    case RecordTimeout(_) => if r.status == Submitting then r.(status := Processing) else r
    case Adopt(_, id) => if r.providerId.None? then r.(status := Processing, providerId := Some(id)) else r
    case FailLocally(_, now) =>
      if r.status in {Succeeded, Failed, Withdrawn, UnderReview} then r
      else r.(status := Failed, failedAt := Some(now))
    case Deliver(_, e, now) => if r.providerId.None? then r else Settle(r, currency, e, now)
  }

  /** markRefundUnderReview runs, which also flags the order. */
  predicate Escalates(r: Refund, currency: Currency, a: Action) {
    && a.Deliver? && r.providerId.Some?
    && (a.event.amount != r.amount || a.event.currency != currency
        || (!Stale(if r.succeededAt.Some? then r.succeededAt else r.failedAt, a.event.occurredAt)
            && RefundLifecycle.Decide(r.status, a.event.status).Escalate?))
  }

  /** The rows before the database has checked them. */
  function Attempt(p: Payment, a: Action): Payment {
    if a.Request? then
      match NewRefund(p, a.key, a.choice, a.permitted)
      case None => p
      case Some(r) => p.(refunds := p.refunds + [r])
    else if a.id >= |p.refunds| then p
    else
      var r := Rewritten(p.refunds[a.id], p.currency, a);
      p.(refunds := p.refunds[a.id := r], flagged := p.flagged || Escalates(p.refunds[a.id], p.currency, a))
  }

  // ------------------------------------------------------------------------
  // Constraints and triggers
  // ------------------------------------------------------------------------

  /** Refund_amount_check, Refund_outcome_exclusivity_check and Refund_lifecycle_check. */
  predicate RowCheck(r: Refund) {
    && r.amount > 0
    && (r.succeededAt.Some? ==> r.failedAt.None? && r.cancelledAt.None?)
    && (r.failedAt.Some? ==> r.cancelledAt.None?)
    && match r.status
       case Requested => r.submittedAt.None? && r.succeededAt.None? && r.failedAt.None? && r.cancelledAt.None?
       case Submitting => r.submittedAt.Some? && r.succeededAt.None? && r.failedAt.None? && r.cancelledAt.None?
       case Processing => r.submittedAt.Some? && r.succeededAt.None? && r.failedAt.None? && r.cancelledAt.None?
       case Succeeded => r.succeededAt.Some?
       case Failed => r.failedAt.Some?
       case Withdrawn => r.cancelledAt.Some?
       case UnderReview => true
  }

  predicate WriteOnce<T(==)>(before: Option<T>, after: Option<T>) {
    before.Some? ==> after == before
  }

  /** Refund_protect_identity, on an update that leaves amount, scope, key and seats alone. */
  predicate MayUpdate(before: Refund, after: Refund) {
    && WriteOnce(before.providerId, after.providerId) && WriteOnce(before.submittedAt, after.submittedAt)
    && WriteOnce(before.succeededAt, after.succeededAt) && WriteOnce(before.failedAt, after.failedAt)
    && WriteOnce(before.cancelledAt, after.cancelledAt)
    && (before.status == UnderReview ==> after.status == UnderReview)
    && (Terminal(before.status) ==> after.status == before.status || after.status == UnderReview)
  }

  function SeatPrice(seats: seq<Seat>, ids: set<SeatId>): int {
    if seats == [] then 0 else (if seats[0].seat in ids then seats[0].price else 0) + SeatPrice(seats[1..], ids)
  }

  /** RefundSeat_enforce_snapshot and Refund_verify_seat_total, on an insert. */
  predicate MayInsert(p: Payment, r: Refund) {
    && (forall s :: s in r.seats ==> s !in Covered(p.refunds))
    && (r.scope == SelectedSeats ==> r.seats != [] && r.amount == SeatPrice(p.seats, Elements(r.seats)))
    && (r.scope == FullBooking && r.seats != [] ==> r.amount == SeatPrice(p.seats, Elements(r.seats)))
    && (r.scope == FixedAmount ==> r.seats == [])
  }

  predicate RowsAccepted(p: Payment, a: Action) {
    if a.Request? then
      var r := NewRefund(p, a.key, a.choice, a.permitted);
      r.Some? ==> RowCheck(r.value) && MayInsert(p, r.value)
    else
      a.id < |p.refunds| ==>
        var r := Rewritten(p.refunds[a.id], p.currency, a); RowCheck(r) && MayUpdate(p.refunds[a.id], r)
  }

  /** PaymentAttempt_refund_aggregate_check. */
  predicate AggregateCheck(p: Payment) {
    RefundedMinor(p) >= 0 && InFlightMinor(p) >= 0 && RefundedMinor(p) + InFlightMinor(p) <= p.captured
  }

  /** A transaction commits only what every check accepts. */
  function Step(p: Payment, a: Action): Payment {
    if RowsAccepted(p, a) && AggregateCheck(Attempt(p, a)) then Attempt(p, a) else p
  }

  /** The same without the aggregate CHECK. */
  function UncheckedStep(p: Payment, a: Action): Payment {
    if RowsAccepted(p, a) then Attempt(p, a) else p
  }

  function Run(p: Payment, actions: seq<Action>): Payment
    decreases |actions|
  {
    if actions == [] then p else Run(Step(p, actions[0]), actions[1..])
  }

  function UncheckedRun(p: Payment, actions: seq<Action>): Payment
    decreases |actions|
  {
    if actions == [] then p else UncheckedRun(UncheckedStep(p, actions[0]), actions[1..])
  }

  // ------------------------------------------------------------------------
  // Sums
  // ------------------------------------------------------------------------

  lemma {:induction false} SumUpdate(refunds: seq<Refund>, i: nat, r: Refund, which: Refund -> bool)
    requires i < |refunds|
    ensures SumIf(refunds[i := r], which) == SumIf(refunds, which)
      - (if which(refunds[i]) then refunds[i].amount else 0) + (if which(r) then r.amount else 0)
  {
    var front := refunds[..|refunds| - 1];
    if i == |refunds| - 1 {
      assert refunds[i := r][..|refunds| - 1] == front;
    } else {
      assert refunds[i := r][..|refunds| - 1] == front[i := r];
      SumUpdate(front, i, r, which);
    }
  }

  lemma SumAppend(refunds: seq<Refund>, r: Refund, which: Refund -> bool)
    ensures SumIf(refunds + [r], which) == SumIf(refunds, which) + if which(r) then r.amount else 0
  {
    assert (refunds + [r])[..|refunds|] == refunds;
  }

  lemma {:induction false} SumMonotone(refunds: seq<Refund>, some: Refund -> bool, more: Refund -> bool)
    requires forall r :: r in refunds ==> r.amount > 0 && (some(r) ==> more(r))
    ensures 0 <= SumIf(refunds, some) <= SumIf(refunds, more)
  {
    if refunds != [] {
      SumMonotone(refunds[..|refunds| - 1], some, more);
      assert refunds[|refunds| - 1] in refunds;
    }
  }

  lemma {:induction false} CoversIsBoth(refunds: seq<Refund>)
    ensures SumIf(refunds, Covers) == SumIf(refunds, Returned) + SumIf(refunds, Reserved)
  {
    if refunds != [] { CoversIsBoth(refunds[..|refunds| - 1]); }
  }

  // ------------------------------------------------------------------------
  // Never more than was captured
  // ------------------------------------------------------------------------

  ghost predicate RowsOk(p: Payment) {
    forall i :: 0 <= i < |p.refunds| ==> RowCheck(p.refunds[i])
  }

  /** Money that has moved, or that a refund not under review may still move. */
  predicate Committed(r: Refund) {
    r.succeededAt.Some? || r.status in {Requested, Submitting, Processing}
  }

  ghost predicate Solvent(p: Payment) {
    RowsOk(p) && SumIf(p.refunds, Committed) <= p.captured
  }

  lemma RewriteShape(r: Refund, currency: Currency, a: Action)
    requires !a.Request? && RowCheck(r)
    requires var after := Rewritten(r, currency, a); RowCheck(after) && MayUpdate(r, after)
    ensures var after := Rewritten(r, currency, a);
      && after.amount == r.amount && after.seats == r.seats && after.scope == r.scope && after.key == r.key
      && (Committed(after) ==> Committed(r))
      && (Covers(after) && !Covers(r) ==> a.Deliver? && r.status in {Failed, Withdrawn} && after.status == UnderReview)
  {
  }

  lemma RequestFits(p: Payment, a: Action)
    requires a.Request? && NewRefund(p, a.key, a.choice, a.permitted).Some?
    ensures var r := NewRefund(p, a.key, a.choice, a.permitted).value;
      0 < r.amount <= p.captured - RefundedMinor(p) - InFlightMinor(p)
  {
    var seats, capacity := SnapshotsOf(p), CapacityOf(p);
    match a.choice
    case Whole => EligibleFits(seats, [], 0, capacity, Calculate(p, Whole));
    case Seats(ids) => EligibleFits(seats, ids, 0, capacity, Calculate(p, Seats(ids)));
    case Fixed(amount) => EligibleFits(seats, [], amount, capacity, Calculate(p, Fixed(amount)));
  }

  lemma CommittedIsCovered(p: Payment)
    requires RowsOk(p)
    ensures 0 <= SumIf(p.refunds, Returned) <= SumIf(p.refunds, Committed) <= SumIf(p.refunds, Covers)
    ensures SumIf(p.refunds, Covers) == RefundedMinor(p) + InFlightMinor(p)
    ensures InFlightMinor(p) >= 0
  {
    SumMonotone(p.refunds, Returned, Committed);
    SumMonotone(p.refunds, Committed, Covers);
    SumMonotone(p.refunds, Reserved, Covers);
    CoversIsBoth(p.refunds);
  }

  lemma UncheckedStepKeepsSolvent(p: Payment, a: Action)
    requires Solvent(p)
    ensures Solvent(UncheckedStep(p, a))
  {
    hide NewRefund, Rewritten, Escalates, MayInsert, MayUpdate;
    CommittedIsCovered(p);
    if a.Request? && NewRefund(p, a.key, a.choice, a.permitted).Some? {
      RequestFits(p, a);
      SumAppend(p.refunds, NewRefund(p, a.key, a.choice, a.permitted).value, Committed);
    } else if !a.Request? && a.id < |p.refunds| && RowsAccepted(p, a) {
      var r := Rewritten(p.refunds[a.id], p.currency, a);
      RewriteShape(p.refunds[a.id], p.currency, a);
      SumUpdate(p.refunds, a.id, r, Committed);
    }
  }

  /**
   * Requests of every kind and events in any order, contradictory ones included,
   * never return more than was captured, even without the aggregate CHECK; so
   * the test for a full refund holds only at equality.
   */
  lemma {:induction false} NeverOverRefunded(p: Payment, actions: seq<Action>)
    requires Solvent(p)
    ensures Solvent(UncheckedRun(p, actions))
    ensures 0 <= RefundedMinor(UncheckedRun(p, actions)) <= p.captured
    decreases |actions|
  {
    if actions == [] {
      CommittedIsCovered(p);
    } else {
      UncheckedStepKeepsSolvent(p, actions[0]);
      NeverOverRefunded(UncheckedStep(p, actions[0]), actions[1..]);
    }
  }

  // ------------------------------------------------------------------------
  // When the aggregate CHECK refuses
  // ------------------------------------------------------------------------

  ghost predicate Balanced(p: Payment) {
    RowsOk(p) && AggregateCheck(p)
  }

  /**
   * The event puts a refund that was already released back under review: it
   * finds a failed or cancelled refund by its provider id, and either mismatches
   * it or reports another terminal status that is not stale.
   */
  predicate Reopens(p: Payment, a: Action) {
    && a.Deliver? && a.id < |p.refunds|
    && var r := p.refunds[a.id];
       && r.providerId.Some? && r.status in {Failed, Withdrawn}
       && (a.event.amount != r.amount || a.event.currency != p.currency
           || (Terminal(a.event.status) && a.event.status != r.status && !Stale(r.failedAt, a.event.occurredAt)))
  }

  /** Those are exactly the events that make a refund count which did not. */
  lemma ReopensExactly(p: Payment, a: Action)
    requires RowsOk(p) && !a.Request? && a.id < |p.refunds| && RowsAccepted(p, a)
    ensures Reopens(p, a) <==> !Covers(p.refunds[a.id]) && Covers(Rewritten(p.refunds[a.id], p.currency, a))
  {
    assert RowCheck(p.refunds[a.id]);
  }

  /** And the row's own checks always accept them. */
  lemma ReopeningIsAccepted(p: Payment, a: Action)
    requires RowsOk(p) && Reopens(p, a)
    ensures RowsAccepted(p, a) && Attempt(p, a).flagged
    ensures Rewritten(p.refunds[a.id], p.currency, a) == p.refunds[a.id].(status := UnderReview)
  {
    assert RowCheck(p.refunds[a.id]);
  }

  lemma RequestSums(p: Payment, a: Action)
    requires RowsOk(p) && a.Request? && RowsAccepted(p, a)
    ensures RowsOk(Attempt(p, a)) && Attempt(p, a).captured == p.captured
    ensures SumIf(Attempt(p, a).refunds, Covers) <=
      if NewRefund(p, a.key, a.choice, a.permitted).Some? then p.captured else SumIf(p.refunds, Covers)
  {
    hide NewRefund, MayInsert, RowCheck, Rewritten;
    CommittedIsCovered(p);
    if NewRefund(p, a.key, a.choice, a.permitted).Some? {
      RequestFits(p, a);
      SumAppend(p.refunds, NewRefund(p, a.key, a.choice, a.permitted).value, Covers);
    }
  }

  lemma RewriteSums(p: Payment, a: Action)
    requires RowsOk(p) && !a.Request? && a.id < |p.refunds| && RowsAccepted(p, a)
    ensures RowsOk(Attempt(p, a)) && Attempt(p, a).captured == p.captured
    ensures SumIf(Attempt(p, a).refunds, Covers) <=
      SumIf(p.refunds, Covers) + if Reopens(p, a) then p.refunds[a.id].amount else 0
    ensures Reopens(p, a) ==> SumIf(Attempt(p, a).refunds, Covers) == SumIf(p.refunds, Covers) + p.refunds[a.id].amount
  {
    hide Rewritten, Reopens, Escalates, MayUpdate, MayInsert, NewRefund;
    ReopensExactly(p, a);
    RewriteShape(p.refunds[a.id], p.currency, a);
    SumUpdate(p.refunds, a.id, Rewritten(p.refunds[a.id], p.currency, a), Covers);
    assert RowCheck(p.refunds[a.id]);
  }

  lemma SumsAfter(p: Payment, a: Action)
    requires RowsOk(p) && RowsAccepted(p, a)
    ensures RowsOk(Attempt(p, a)) && Attempt(p, a).captured == p.captured
    ensures SumIf(Attempt(p, a).refunds, Covers) <= if Reopens(p, a)
      then SumIf(p.refunds, Covers) + p.refunds[a.id].amount
      else if a.Request? && NewRefund(p, a.key, a.choice, a.permitted).Some? then p.captured
      else SumIf(p.refunds, Covers)
    ensures Reopens(p, a) ==> SumIf(Attempt(p, a).refunds, Covers) == SumIf(p.refunds, Covers) + p.refunds[a.id].amount
  {
    hide NewRefund, RowsAccepted, Rewritten, Escalates, SumIf, RowCheck;
    if a.Request? { RequestSums(p, a); } else if a.id < |p.refunds| { RewriteSums(p, a); }
  }

  /** The CHECK refuses exactly the events that reopen a released refund worth more than is left. */
  lemma AggregateRefusesExactly(p: Payment, a: Action)
    requires Balanced(p) && RowsAccepted(p, a)
    ensures AggregateCheck(Attempt(p, a)) <==> !(Reopens(p, a) && p.refunds[a.id].amount > Remaining(CapacityOf(p)))
  {
    SumsAfter(p, a);
    CommittedIsCovered(p);
    CommittedIsCovered(Attempt(p, a));
  }

  /** A payment without refunds satisfies both invariants. */
  lemma FreshPayment(p: Payment)
    requires p.refunds == []
    ensures Solvent(p) && Balanced(p)
  {
  }

  lemma StepKeepsBalanced(p: Payment, a: Action)
    requires Balanced(p)
    ensures Balanced(Step(p, a))
  {
    hide NewRefund, RowsAccepted, Rewritten, Escalates, SumIf, RowCheck, Attempt;
    if RowsAccepted(p, a) { SumsAfter(p, a); }
  }

  lemma {:induction false} RunKeepsBalanced(p: Payment, actions: seq<Action>)
    requires Balanced(p)
    ensures Balanced(Run(p, actions))
    decreases |actions|
  {
    if actions != [] {
      StepKeepsBalanced(p, actions[0]);
      RunKeepsBalanced(Step(p, actions[0]), actions[1..]);
    }
  }

  // ------------------------------------------------------------------------
  // From request to outcome
  // ------------------------------------------------------------------------

  function With(p: Payment, id: nat, r: Refund): Payment
    requires id < |p.refunds|
  {
    p.(refunds := p.refunds[id := r])
  }

  /** A step on a refund that counts, accepted by its row and escalating nothing, commits. */
  lemma RewriteCommits(p: Payment, id: nat, a: Action)
    requires Balanced(p) && id < |p.refunds| && !a.Request? && a.id == id && Covers(p.refunds[id])
    requires !Escalates(p.refunds[id], p.currency, a)
    requires var r := Rewritten(p.refunds[id], p.currency, a); RowCheck(r) && MayUpdate(p.refunds[id], r)
    ensures Step(p, a) == With(p, id, Rewritten(p.refunds[id], p.currency, a)) && Balanced(Step(p, a))
  {
    StepKeepsBalanced(p, a);
    AggregateRefusesExactly(p, a);
    assert RowCheck(p.refunds[id]);
  }

  lemma TwoRuns(p: Payment, a: Action, rest: seq<Action>)
    ensures Run(p, [a] + rest) == Run(Step(p, a), rest)
  {
    assert ([a] + rest)[1..] == rest;
  }

  /** A new request, claimed and submitted at `sent`. */
  function Sent(r: Refund, sent: Time, providerId: nat): Refund {
    r.(status := Processing, submittedAt := Some(sent), providerId := Some(providerId))
  }

  lemma Submitted(p: Payment, id: nat, at: Time, providerId: nat)
    requires Balanced(p) && id < |p.refunds| && p.refunds[id].status == Requested && p.refunds[id].providerId.None?
    ensures var r := p.refunds[id];
      && Balanced(With(p, id, Sent(r, at, providerId)))
      && Run(p, [Claim(id, at), RecordSubmission(id, providerId)]) == With(p, id, Sent(r, at, providerId))
  {
    hide Balanced, AggregateCheck, NewRefund, RowsAccepted;
    var r := p.refunds[id];
    assert RowCheck(r) by { RowOf(p, id); }
    RewriteCommits(p, id, Claim(id, at));
    var claimed := Step(p, Claim(id, at));
    RewriteCommits(claimed, id, RecordSubmission(id, providerId));
    var sent := Step(claimed, RecordSubmission(id, providerId));
    assert sent.refunds == p.refunds[id := Sent(r, at, providerId)];
    assert sent == With(p, id, Sent(r, at, providerId));
    TwoRuns(p, Claim(id, at), [RecordSubmission(id, providerId)]);
    TwoRuns(claimed, RecordSubmission(id, providerId), []);
    assert [Claim(id, at)] + [RecordSubmission(id, providerId)] == [Claim(id, at), RecordSubmission(id, providerId)];
    assert [RecordSubmission(id, providerId)] + [] == [RecordSubmission(id, providerId)];
  }

  /** The same refund when the submission timed out and the provider's id was found later. */
  lemma Adopted(p: Payment, id: nat, sent: Time, providerId: nat)
    requires Balanced(p) && id < |p.refunds| && p.refunds[id].status == Requested && p.refunds[id].providerId.None?
    ensures var r := p.refunds[id]; var lost := With(p, id, r.(status := Processing, submittedAt := Some(sent)));
      && Run(p, [Claim(id, sent), RecordTimeout(id)]) == lost
      && Step(lost, Adopt(id, providerId)) == With(p, id, Sent(r, sent, providerId))
  {
    hide Balanced, AggregateCheck, NewRefund, RowsAccepted;
    var r := p.refunds[id];
    assert RowCheck(r) by { RowOf(p, id); }
    RewriteCommits(p, id, Claim(id, sent));
    var claimed := Step(p, Claim(id, sent));
    RewriteCommits(claimed, id, RecordTimeout(id));
    var lost := Step(claimed, RecordTimeout(id));
    assert lost.refunds == p.refunds[id := r.(status := Processing, submittedAt := Some(sent))];
    RewriteCommits(lost, id, Adopt(id, providerId));
    TwoRuns(p, Claim(id, sent), [RecordTimeout(id)]);
    TwoRuns(claimed, RecordTimeout(id), []);
    assert [Claim(id, sent)] + [RecordTimeout(id)] == [Claim(id, sent), RecordTimeout(id)];
    assert [RecordTimeout(id)] + [] == [RecordTimeout(id)];
  }

  lemma RowOf(p: Payment, id: nat)
    requires Balanced(p) && id < |p.refunds|
    ensures RowCheck(p.refunds[id])
  {
  }

  /** A matching success or failure settles a submitted refund: the money has moved, or may be refunded again. */
  lemma SettledBy(p: Payment, id: nat, outcome: Status, occurredAt: Option<Time>, now: Time)
    requires Balanced(p) && id < |p.refunds| && p.refunds[id].status == Processing && p.refunds[id].providerId.Some?
    requires outcome in {Succeeded, Failed}
    ensures var r := p.refunds[id]; var after := Step(p, Deliver(id, Event(outcome, r.amount, p.currency, occurredAt), now));
      && after == With(p, id, if outcome == Succeeded then r.(status := Succeeded, succeededAt := Some(now))
                              else r.(status := Failed, failedAt := Some(now)))
      && InFlightMinor(after) == InFlightMinor(p) - r.amount
      && RefundedMinor(after) == RefundedMinor(p) + if outcome == Succeeded then r.amount else 0
  {
    var r, a := p.refunds[id], Deliver(id, Event(outcome, p.refunds[id].amount, p.currency, occurredAt), now);
    assert RowCheck(r);
    RewriteCommits(p, id, a);
    var after := Rewritten(r, p.currency, a);
    SumUpdate(p.refunds, id, after, Returned);
    SumUpdate(p.refunds, id, after, Reserved);
  }

  /** A refund that fails before the provider has it is released at once. */
  lemma ReleasedByFailure(p: Payment, id: nat, now: Time)
    requires Balanced(p) && id < |p.refunds| && p.refunds[id].status in {Requested, Submitting, Processing}
    ensures var r := p.refunds[id]; var after := Step(p, FailLocally(id, now));
      && after == With(p, id, r.(status := Failed, failedAt := Some(now)))
      && InFlightMinor(after) == InFlightMinor(p) - r.amount && RefundedMinor(after) == RefundedMinor(p)
  {
    var r := p.refunds[id];
    assert RowCheck(r);
    RewriteCommits(p, id, FailLocally(id, now));
    var after := r.(status := Failed, failedAt := Some(now));
    SumUpdate(p.refunds, id, after, Returned);
    SumUpdate(p.refunds, id, after, Reserved);
  }

  /** A replayed request key never reserves a second amount. */
  lemma ReplayChangesNothing(p: Payment, key: string, choice: Choice, permitted: bool)
    requires exists r :: r in p.refunds && r.key == key
    ensures Step(p, Request(key, choice, permitted)) == p
  {
  }

  /** A provider's cancellation of a live refund can never commit: nothing sets its cancellation time. */
  lemma CancellationNeverCommits(p: Payment, id: nat, e: Event, now: Time)
    requires Balanced(p) && id < |p.refunds| && e.status == Withdrawn
    requires e.amount == p.refunds[id].amount && e.currency == p.currency
    requires p.refunds[id].status in {Requested, Submitting, Processing}
    ensures Step(p, Deliver(id, e, now)) == p
  {
    var r := p.refunds[id];
    assert RowCheck(r);
    if r.providerId.None? {
      assert p.refunds[id := r] == p.refunds;
    }
  }
}
