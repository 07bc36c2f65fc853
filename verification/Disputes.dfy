/**
 * One dispute over one captured payment: verified provider events in any order,
 * the ledger entries they write and the tickets they revoke.
 */
module Disputes {
  import opened Common

  // ------------------------------------------------------------------------
  // The ledger
  // ------------------------------------------------------------------------

  datatype EntryType =
    | PaymentAuthorized | PaymentCaptured | PaymentFailed
    | RefundRequested | RefundProcessing | RefundSucceeded | RefundFailed | RefundCancelled
    | DisputeOpened | DisputeUpdated | DisputeWon | DisputeLost | ChargebackRecorded
    | ManualAdjustmentRequested

  datatype Direction = Credit | Debit

  function DirectionOf(t: EntryType): Direction {
    match t
    case PaymentAuthorized => Credit
    case PaymentCaptured => Credit
    case RefundFailed => Credit
    case RefundCancelled => Credit
    case DisputeWon => Credit
    case _ => Debit
  }

  predicate Settling(t: EntryType) {
    t in {PaymentCaptured, RefundSucceeded, DisputeLost, ChargebackRecorded}
  }

  /** What an entry is about: the webhook itself, or the chargeback it caused. */
  datatype Cause = Webhook(id: nat) | Chargeback(id: nat)

  /** Type and cause are the entry's unique key. */
  datatype Entry = Entry(kind: EntryType, cause: Cause, amount: nat)

  predicate HasKey(ledger: seq<Entry>, kind: EntryType, cause: Cause) {
    exists e :: e in ledger && e.kind == kind && e.cause == cause
  }

  /** appendLedgerEntry: a repeated key is skipped. */
  function Append(ledger: seq<Entry>, e: Entry): seq<Entry> {
    if HasKey(ledger, e.kind, e.cause) then ledger else ledger + [e]
  }

  ghost predicate UniqueKeys(ledger: seq<Entry>) {
    forall i, j :: 0 <= i < j < |ledger| ==> ledger[i].kind != ledger[j].kind || ledger[i].cause != ledger[j].cause
  }

  /**
   * What appending is for: the key is there afterwards, once, whatever was there
   * before stays, and no other key comes or goes.
   */
  lemma AppendOnce(ledger: seq<Entry>, e: Entry)
    ensures var after := Append(ledger, e);
      && HasKey(after, e.kind, e.cause) && ledger <= after && Append(after, e) == after
      && (UniqueKeys(ledger) ==> UniqueKeys(after))
      && (e !in ledger && e in after <==> !HasKey(ledger, e.kind, e.cause))
      && forall kind, cause :: kind != e.kind || cause != e.cause ==>
           HasKey(after, kind, cause) == HasKey(ledger, kind, cause)
  {
    var after := Append(ledger, e);
    if !HasKey(ledger, e.kind, e.cause) {
      assert after[|ledger|] == e;
      if UniqueKeys(ledger) {
        forall i | 0 <= i < |ledger| ensures ledger[i].kind != e.kind || ledger[i].cause != e.cause {
          assert ledger[i] in ledger;
        }
      }
    }
  }

  function Settled(e: Entry): int {
    if !Settling(e.kind) then 0 else if DirectionOf(e.kind) == Credit then e.amount else -(e.amount as int)
  }

  /** calculateSettledBalanceMinor. */
  function SettledBalance(ledger: seq<Entry>): int {
    if ledger == [] then 0 else SettledBalance(ledger[..|ledger| - 1]) + Settled(ledger[|ledger| - 1])
  }

  /** detectLedgerDivergence. */
  predicate Diverged(d: Desk) {
    d.captured - d.refunded != SettledBalance(d.ledger)
  }

  // ------------------------------------------------------------------------
  // Dispute and ticket decisions
  // ------------------------------------------------------------------------

  datatype Status = Open | NeedsResponse | BeingReviewed | Won | Lost | Closed | RequiresReview

  datatype Outcome = OutcomeWon | OutcomeLost

  datatype Decision = Advance(status: Status) | Ignore | Escalate

  predicate Terminal(s: Status) {
    s in {Won, Lost, Closed}
  }

  function OutcomeFor(s: Status): Option<Outcome> {
    if s == Won then Some(OutcomeWon) else if s == Lost then Some(OutcomeLost) else None
  }

  /** decideDisputeTransition. */
  function Decide(current: Status, incoming: Status): Decision {
    if current == RequiresReview then Ignore
    else if current == incoming then Ignore
    else if incoming == RequiresReview then Escalate
    else if Terminal(current) then (if Terminal(incoming) then Escalate else Ignore)
    else Advance(incoming)
  }

  datatype TicketStatus = Admits | Revoked | Used

  /** decideDisputeTicketConsequence for a lost dispute: whether to revoke. */
  predicate RevokesOnLoss(t: TicketStatus) {
    t != Used && t != Revoked
  }

  function RevokeUnused(tickets: seq<TicketStatus>): seq<TicketStatus> {
    seq(|tickets|, i requires 0 <= i < |tickets| => if RevokesOnLoss(tickets[i]) then Revoked else tickets[i])
  }

  /** How many of the tickets still admit. */
  function Admitting(tickets: seq<TicketStatus>): nat {
    if tickets == [] then 0
    else Admitting(tickets[..|tickets| - 1]) + if tickets[|tickets| - 1] == Admits then 1 else 0
  }

  // ------------------------------------------------------------------------
  // One event
  // ------------------------------------------------------------------------

  datatype Dispute = Dispute(status: Status, outcome: Option<Outcome>, closedAt: Option<Time>, amount: int)

  datatype Flag = NoReview | RefundReview | DisputeReview | ChargebackReview

  /** `booked` says whether the payment has a booking, and so tickets. */
  datatype Desk = Desk(
    captured: nat,
    refunded: nat,
    booked: bool,
    dispute: Option<Dispute>,
    ledger: seq<Entry>,
    tickets: seq<TicketStatus>,
    flag: Flag)

  datatype Event = Event(webhook: nat, status: Status, amount: int, now: Time)

  /** PaymentDispute_lifecycle_check. */
  predicate LifecycleCheck(d: Dispute) {
    match d.status
    case Won => d.closedAt.Some? && d.outcome == Some(OutcomeWon)
    case Lost => d.closedAt.Some? && d.outcome == Some(OutcomeLost)
    case Closed => d.closedAt.Some? && d.outcome.Some?
    case RequiresReview => true
    case _ => d.closedAt.None? && d.outcome.None?
  }

  function EntryTypeFor(s: Status): Option<EntryType> {
    match s
    case Open => Some(DisputeOpened)
    case NeedsResponse => Some(DisputeUpdated)
    case BeingReviewed => Some(DisputeUpdated)
    case Won => Some(DisputeWon)
    case Lost => Some(DisputeLost)
    case Closed => Some(DisputeUpdated)
    case RequiresReview => None
  }

  function StatusEntry(ledger: seq<Entry>, status: Status, webhook: nat, amount: nat): seq<Entry> {
    match EntryTypeFor(status)
    case None => ledger
    case Some(kind) => Append(ledger, Entry(kind, Webhook(webhook), amount))
  }

  /** recordDisputeLedgerAndConsequences. */
  function Consequences(d: Desk, status: Status, webhook: nat, amount: nat): Desk {
    var ledger := StatusEntry(d.ledger, status, webhook, amount);
    var overlapping := d.refunded > 0 && amount > 0;
    var flag := if !overlapping then d.flag
                else if d.refunded + amount > d.captured then ChargebackReview else DisputeReview;
    if status != Lost then d.(ledger := ledger, flag := flag)
    else d.(ledger := Append(ledger, Entry(ChargebackRecorded, Chargeback(webhook), amount)),
            flag := ChargebackReview,
            tickets := if d.booked then RevokeUnused(d.tickets) else d.tickets)
  }

  /** openDispute; None when the database refuses the row. */
  function OpenDispute(d: Desk, e: Event): Option<Desk> {
    var row := Dispute(e.status, OutcomeFor(e.status), if Terminal(e.status) then Some(e.now) else None, e.amount);
    if !LifecycleCheck(row) || e.amount <= 0 || e.amount > d.captured then None
    else Some(Consequences(d.(dispute := Some(row), flag := DisputeReview), e.status, e.webhook, e.amount))
  }

  /** applyDisputeFromVerifiedEvent; None when the transaction aborts. */
  function ApplyEvent(d: Desk, e: Event): Option<Desk> {
    if d.dispute.None? then OpenDispute(d, e)
    else
      var row := d.dispute.value;
      match Decide(row.status, e.status)
      case Ignore => Some(d)
      case Escalate => Some(d.(dispute := Some(row.(status := RequiresReview)), flag := DisputeReview))
      case Advance(status) =>
        var row' := Dispute(status, OutcomeFor(status), if Terminal(status) then Some(e.now) else None, row.amount);
        if !LifecycleCheck(row') || row.amount < 0 then None
        else Some(Consequences(d.(dispute := Some(row')), status, e.webhook, row.amount))
  }

  function Step(d: Desk, e: Event): Desk {
    match ApplyEvent(d, e) case Some(after) => after case None => d
  }

  function Run(d: Desk, events: seq<Event>): Desk
    decreases |events|
  {
    if events == [] then d else Run(Step(d, events[0]), events[1..])
  }

  // ------------------------------------------------------------------------
  // The service, statement by statement
  // ------------------------------------------------------------------------

  class DisputeService {
    const captured: nat
    const refunded: nat
    const booked: bool
    var dispute: Option<Dispute>
    var ledger: seq<Entry>
    var tickets: seq<TicketStatus>
    var flag: Flag

    constructor (captured: nat, refunded: nat, booked: bool, ledger: seq<Entry>, tickets: seq<TicketStatus>)
      ensures View() == Desk(captured, refunded, booked, None, ledger, tickets, NoReview)
    {
      this.captured, this.refunded, this.booked := captured, refunded, booked;
      this.dispute, this.ledger, this.tickets, this.flag := None, ledger, tickets, NoReview;
    }

    function View(): Desk
      reads this
    {
      Desk(captured, refunded, booked, dispute, ledger, tickets, flag)
    }

    method AppendLedgerEntry(e: Entry)
      modifies this`ledger
      ensures HasKey(ledger, e.kind, e.cause) && (UniqueKeys(old(ledger)) ==> UniqueKeys(ledger))
      ensures old(ledger) <= ledger && (|ledger| > |old(ledger)| <==> !HasKey(old(ledger), e.kind, e.cause))
      ensures forall kind, cause :: kind != e.kind || cause != e.cause ==>
        HasKey(ledger, kind, cause) == HasKey(old(ledger), kind, cause)
      ensures ledger == Append(old(ledger), e)
    {
      AppendOnce(ledger, e);
      var known := HasKey(ledger, e.kind, e.cause);
      if !known { ledger := ledger + [e]; }
    }

    /** The loop over the booking's tickets; each is revoked by its own update. */
    method RevokeUnusedTickets() returns (revoked: nat)
      modifies this`tickets
      ensures tickets == RevokeUnused(old(tickets))
      ensures revoked == Admitting(old(tickets))
    {
      ghost var before := tickets;
      var count := |tickets|;
      revoked := 0;
      for i := 0 to count
        invariant |tickets| == count == |before| && forall k :: i <= k < count ==> tickets[k] == before[k]
        invariant forall k :: 0 <= k < i ==> tickets[k] == RevokeUnused(before)[k]
        invariant revoked == Admitting(before[..i])
      {
        assert before[..i + 1][..i] == before[..i];
        if RevokesOnLoss(tickets[i]) {
          tickets := tickets[i := Revoked];
          revoked := revoked + 1;
        }
      }
      assert before[..count] == before;
    }

    method RecordConsequences(status: Status, webhook: nat, amount: nat)
      modifies this
      ensures View() == Consequences(old(View()), status, webhook, amount)
    {
      hide HasKey, UniqueKeys, Append;
      var kind := EntryTypeFor(status);
      if kind.Some? { AppendLedgerEntry(Entry(kind.value, Webhook(webhook), amount)); }
      if refunded > 0 && amount > 0 {
        flag := if refunded + amount > captured then ChargebackReview else DisputeReview;
      }
      if status == Lost {
        AppendLedgerEntry(Entry(ChargebackRecorded, Chargeback(webhook), amount));
        flag := ChargebackReview;
        if booked { var _ := RevokeUnusedTickets(); }
      }
    }

    method OpenNew(e: Event) returns (ok: bool)
      requires dispute.None?
      modifies this
      ensures ok == OpenDispute(old(View()), e).Some?
      ensures View() == if ok then OpenDispute(old(View()), e).value else old(View())
    {
      var row := Dispute(e.status, OutcomeFor(e.status), if Terminal(e.status) then Some(e.now) else None, e.amount);
      if !LifecycleCheck(row) || e.amount <= 0 || e.amount > captured { return false; }
      dispute := Some(row);
      flag := DisputeReview;
      RecordConsequences(e.status, e.webhook, e.amount);
      ok := true;
    }

    /** The transaction of one verified event; false means it aborted. */
    method ApplyVerifiedEvent(e: Event) returns (ok: bool)
      modifies this
      ensures ok == ApplyEvent(old(View()), e).Some?
      ensures View() == Step(old(View()), e)
    {
      if dispute.None? {
        ok := OpenNew(e);
        return;
      }
      var row := dispute.value;
      var decision := Decide(row.status, e.status);
      match decision
      case Ignore => ok := true;
      case Escalate =>
        dispute := Some(row.(status := RequiresReview));
        flag := DisputeReview;
        ok := true;
      case Advance(status) =>
        var row' := Dispute(status, OutcomeFor(status), if Terminal(status) then Some(e.now) else None, row.amount);
        if !LifecycleCheck(row') || row.amount < 0 { return false; }
        dispute := Some(row');
        RecordConsequences(status, e.webhook, row.amount);
        ok := true;
    }
  }

  // ------------------------------------------------------------------------
  // Money and tickets over a whole run
  // ------------------------------------------------------------------------

  /** The dispute has been lost at some point; review never erases that. */
  predicate LostOnce(d: Desk) {
    d.dispute.Some? && d.dispute.value.outcome == Some(OutcomeLost)
  }

  /** How many entries of a type the ledger holds. */
  function Count(ledger: seq<Entry>, kind: EntryType): nat {
    if ledger == [] then 0
    else Count(ledger[..|ledger| - 1], kind) + if ledger[|ledger| - 1].kind == kind then 1 else 0
  }

  lemma AppendCount(ledger: seq<Entry>, e: Entry, kind: EntryType)
    ensures Count(ledger + [e], kind) == Count(ledger, kind) + if e.kind == kind then 1 else 0
    ensures SettledBalance(ledger + [e]) == SettledBalance(ledger) + Settled(e)
  {
    assert (ledger + [e])[..|ledger|] == ledger;
  }

  lemma {:induction false} NoneCounted(ledger: seq<Entry>, kind: EntryType)
    ensures Count(ledger, kind) == 0 <==> forall e :: e in ledger ==> e.kind != kind
  {
    if ledger != [] {
      NoneCounted(ledger[..|ledger| - 1], kind);
      assert ledger == ledger[..|ledger| - 1] + [ledger[|ledger| - 1]];
    }
  }

  /** What the books of a dispute say: its row is consistent and a loss is entered exactly twice. */
  ghost predicate Books(d: Desk) {
    && (d.dispute.Some? ==>
          && 0 < d.dispute.value.amount <= d.captured
          && (d.dispute.value.status == Lost <==> LostOnce(d) && d.dispute.value.status != RequiresReview)
          && (d.dispute.value.status in {Open, NeedsResponse, BeingReviewed} ==> d.dispute.value.outcome.None?)
          && d.dispute.value.status != Closed)
    && Count(d.ledger, DisputeLost) == (if LostOnce(d) then 1 else 0)
    && Count(d.ledger, ChargebackRecorded) == (if LostOnce(d) then 1 else 0)
  }

  /** Before its first dispute a payment's books are in order exactly when its ledger records no loss. */
  lemma FreshBooks(d: Desk)
    requires d.dispute.None?
    ensures Books(d) <==> forall e :: e in d.ledger ==> e.kind !in {DisputeLost, ChargebackRecorded}
  {
    NoneCounted(d.ledger, DisputeLost);
    NoneCounted(d.ledger, ChargebackRecorded);
  }

  /** `after` follows `before`: what may change, and what a loss costs. */
  ghost predicate Follows(before: Desk, after: Desk) {
    && after.captured == before.captured && after.refunded == before.refunded && after.booked == before.booked
    && (LostOnce(before) ==> LostOnce(after))
    && (before.dispute.Some? ==> after.dispute.Some? && after.dispute.value.amount == before.dispute.value.amount)
    && (LostOnce(before) || !LostOnce(after) ==>
          SettledBalance(after.ledger) == SettledBalance(before.ledger) && after.tickets == before.tickets)
    && (!LostOnce(before) && LostOnce(after) ==>
          && SettledBalance(after.ledger) == SettledBalance(before.ledger) - 2 * after.dispute.value.amount
          && after.tickets == if before.booked then RevokeUnused(before.tickets) else before.tickets)
  }

  /** A status entry of a dispute that is not lost settles nothing. */
  lemma NoteCosts(ledger: seq<Entry>, status: Status, webhook: nat, amount: nat)
    requires status != Lost
    ensures var after := StatusEntry(ledger, status, webhook, amount);
      && Count(after, DisputeLost) == Count(ledger, DisputeLost)
      && Count(after, ChargebackRecorded) == Count(ledger, ChargebackRecorded)
      && SettledBalance(after) == SettledBalance(ledger)
  {
    var kind := EntryTypeFor(status);
    if kind.Some? {
      var e := Entry(kind.value, Webhook(webhook), amount);
      AppendCount(ledger, e, DisputeLost);
      AppendCount(ledger, e, ChargebackRecorded);
    }
  }

  /** A settling entry of a type the ledger does not hold yet is written, and costs its amount. */
  lemma FirstOfItsKind(ledger: seq<Entry>, e: Entry)
    requires Count(ledger, e.kind) == 0 && e.kind in {DisputeLost, ChargebackRecorded}
    ensures forall kind :: Count(Append(ledger, e), kind) == Count(ledger, kind) + if e.kind == kind then 1 else 0
    ensures SettledBalance(Append(ledger, e)) == SettledBalance(ledger) - e.amount
  {
    NoneCounted(ledger, e.kind);
    forall kind ensures Count(ledger + [e], kind) == Count(ledger, kind) + if e.kind == kind then 1 else 0 {
      AppendCount(ledger, e, kind);
    }
    AppendCount(ledger, e, DisputeLost);
  }

  lemma ConsequencesOf(d: Desk, status: Status, webhook: nat, amount: nat)
    requires status != Lost || (Count(d.ledger, DisputeLost) == 0 && Count(d.ledger, ChargebackRecorded) == 0)
    ensures var after := Consequences(d, status, webhook, amount).ledger; var loss := if status == Lost then 1 else 0;
      && Count(after, DisputeLost) == Count(d.ledger, DisputeLost) + loss
      && Count(after, ChargebackRecorded) == Count(d.ledger, ChargebackRecorded) + loss
      && SettledBalance(after) == SettledBalance(d.ledger) - (if status == Lost then 2 * amount else 0)
  {
    hide Count, SettledBalance, Append;
    if status == Lost {
      FirstOfItsKind(d.ledger, Entry(DisputeLost, Webhook(webhook), amount));
      var ledger := Append(d.ledger, Entry(DisputeLost, Webhook(webhook), amount));
      FirstOfItsKind(ledger, Entry(ChargebackRecorded, Chargeback(webhook), amount));
    } else {
      NoteCosts(d.ledger, status, webhook, amount);
    }
  }

  lemma OpeningKeepsBooks(d: Desk, e: Event)
    requires Books(d) && d.dispute.None?
    ensures Books(Step(d, e)) && Follows(d, Step(d, e))
  {
    hide Count, SettledBalance, StatusEntry, Append;
    if e.amount > 0 { ConsequencesOf(d.(dispute := Step(d, e).dispute, flag := DisputeReview), e.status, e.webhook, e.amount); }
  }

  lemma UpdateKeepsBooks(d: Desk, e: Event)
    requires Books(d) && d.dispute.Some?
    ensures Books(Step(d, e)) && Follows(d, Step(d, e))
  {
    hide Count, SettledBalance, StatusEntry, Append;
    if Decide(d.dispute.value.status, e.status).Advance? {
      ConsequencesOf(d.(dispute := Step(d, e).dispute), e.status, e.webhook, d.dispute.value.amount);
    }
  }

  lemma StepKeepsBooks(d: Desk, e: Event)
    requires Books(d)
    ensures Books(Step(d, e)) && Follows(d, Step(d, e))
  {
    if d.dispute.None? { OpeningKeepsBooks(d, e); } else { UpdateKeepsBooks(d, e); }
  }

  lemma FollowsTransitive(a: Desk, b: Desk, c: Desk)
    requires Follows(a, b) && Follows(b, c)
    ensures Follows(a, c)
  {
    if LostOnce(a) {
      assert LostOnce(b) && LostOnce(c);
    }
  }

  /**
   * Over any events, opening one included: a loss is entered as DISPUTE_LOST and
   * CHARGEBACK_RECORDED together and once, nothing else moves the settled balance,
   * and tickets change only by losing, when exactly the unused ones are revoked.
   */
  lemma {:induction false} RunKeepsBooks(d: Desk, events: seq<Event>)
    requires Books(d)
    ensures Books(Run(d, events)) && Follows(d, Run(d, events))
    decreases |events|
  {
    if events != [] {
      StepKeepsBooks(d, events[0]);
      RunKeepsBooks(Step(d, events[0]), events[1..]);
      FollowsTransitive(d, Step(d, events[0]), Run(d, events));
    }
  }

  // ------------------------------------------------------------------------
  // Terminal outcomes
  // ------------------------------------------------------------------------

  function StatusOf(d: Desk): Option<Status> {
    if d.dispute.None? then None else Some(d.dispute.value.status)
  }

  /** The event was applied and closed the dispute. */
  predicate Settles(d: Desk, e: Event) {
    ApplyEvent(d, e).Some? && Terminal(e.status) && StatusOf(d) != Some(e.status)
    && StatusOf(Step(d, e)) == Some(e.status)
  }

  function Settlements(d: Desk, events: seq<Event>): nat
    decreases |events|
  {
    if events == [] then 0 else (if Settles(d, events[0]) then 1 else 0) + Settlements(Step(d, events[0]), events[1..])
  }

  predicate Decided(d: Desk) {
    d.dispute.Some? && (Terminal(d.dispute.value.status) || d.dispute.value.status == RequiresReview)
  }

  /** At most one terminal outcome is ever applied. */
  lemma {:induction false} OneSettlement(d: Desk, events: seq<Event>)
    ensures Settlements(d, events) <= if Decided(d) then 0 else 1
    decreases |events|
  {
    if events != [] { OneSettlement(Step(d, events[0]), events[1..]); }
  }

  /** A CLOSED event never closes a dispute: its row would need an outcome it is not given. */
  lemma ClosedNeverCommits(d: Desk, e: Event)
    requires e.status == Closed && !Decided(d)
    ensures ApplyEvent(d, e).None? && Step(d, e) == d
  {
  }

  /** Whether an event is looked at: an open dispute reads any, and only a payable amount opens one. */
  predicate Enters(captured: nat, open: bool, e: Event) {
    open || 0 < e.amount <= captured
  }

  /** The first event that wins, loses or freezes a live dispute. */
  function FirstDecisive(captured: nat, open: bool, events: seq<Event>): (first: Option<nat>)
    ensures first.Some? ==> first.value < |events|
    decreases |events|
  {
    if events == [] then None
    else if Enters(captured, open, events[0]) && events[0].status in {Won, Lost, RequiresReview} then Some(0)
    else
      var opens := Enters(captured, open, events[0]) && events[0].status != Closed;
      match FirstDecisive(captured, open || opens, events[1..])
      case None => None
      case Some(i) => Some(i + 1)
  }

  /** Of the events that decide a dispute, a loss comes first. */
  predicate LossComesFirst(d: Desk, events: seq<Event>) {
    var first := FirstDecisive(d.captured, d.dispute.Some?, events);
    first.Some? && events[first.value].status == Lost
  }

  /** Some event after position i would contradict or freeze the outcome. */
  predicate Upset(events: seq<Event>, outcome: Status) {
    exists e :: e in events && (Terminal(e.status) || e.status == RequiresReview) && e.status != outcome
  }

  lemma {:induction false} FrozenStays(d: Desk, events: seq<Event>)
    requires StatusOf(d) == Some(RequiresReview)
    ensures StatusOf(Run(d, events)) == Some(RequiresReview)
    decreases |events|
  {
    if events != [] { FrozenStays(Step(d, events[0]), events[1..]); }
  }

  lemma {:induction false} SettledRun(d: Desk, events: seq<Event>, outcome: Status)
    requires StatusOf(d) == Some(outcome) && outcome in {Won, Lost}
    ensures StatusOf(Run(d, events)) == Some(if Upset(events, outcome) then RequiresReview else outcome)
    decreases |events|
  {
    if events != [] {
      var rest := events[1..];
      assert events == [events[0]] + rest;
      if StatusOf(Step(d, events[0])) == Some(outcome) {
        SettledRun(Step(d, events[0]), rest, outcome);
      } else {
        FrozenStays(Step(d, events[0]), rest);
        assert events[0] in events;
      }
    }
  }

  /** An undecided dispute takes the status of any event that enters, but CLOSED. */
  lemma LiveStep(d: Desk, e: Event)
    requires Books(d) && !Decided(d)
    ensures StatusOf(Step(d, e)) ==
      if Enters(d.captured, d.dispute.Some?, e) && e.status != Closed then Some(e.status) else StatusOf(d)
    ensures Books(Step(d, e)) && Step(d, e).captured == d.captured
  {
    StepKeepsBooks(d, e);
  }

  /** The final status, in closed form, of a dispute that is not yet decided or not yet open. */
  lemma {:induction false} FinalStatus(d: Desk, events: seq<Event>)
    requires Books(d) && !Decided(d)
    ensures match FirstDecisive(d.captured, d.dispute.Some?, events)
      case None => !Decided(Run(d, events))
      case Some(i) =>
        var first := events[i].status;
        StatusOf(Run(d, events)) ==
          Some(if first == RequiresReview || Upset(events[i + 1..], first) then RequiresReview else first)
    decreases |events|
  {
    hide Books, Step;
    if events != [] {
      var rest := events[1..];
      var d' := Step(d, events[0]);
      LiveStep(d, events[0]);
      if !Decided(d') {
        FinalStatus(d', rest);
        var i := FirstDecisive(d.captured, d'.dispute.Some?, rest);
        if i.Some? { assert rest[i.value] == events[i.value + 1] && rest[i.value + 1..] == events[i.value + 2..]; }
      } else if events[0].status == RequiresReview {
        FrozenStays(d', rest);
      } else {
        SettledRun(d', rest, events[0].status);
      }
    }
  }

  // ------------------------------------------------------------------------
  // What a loss costs
  // ------------------------------------------------------------------------

  lemma {:induction false} OutcomeStays(d: Desk, events: seq<Event>)
    requires Decided(d)
    ensures Decided(Run(d, events)) && Run(d, events).dispute.value.outcome == d.dispute.value.outcome
    decreases |events|
  {
    if events != [] { OutcomeStays(Step(d, events[0]), events[1..]); }
  }

  /** Which runs lose: an undecided dispute is lost exactly when a loss is the first decisive event. */
  lemma {:induction false} LostExactly(d: Desk, events: seq<Event>)
    requires Books(d)
    ensures LostOnce(Run(d, events)) <==> if Decided(d) then LostOnce(d) else LossComesFirst(d, events)
    decreases |events|
  {
    hide Count;
    if Decided(d) {
      OutcomeStays(d, events);
    } else if events != [] {
      LiveStep(d, events[0]);
      LostExactly(Step(d, events[0]), events[1..]);
    }
  }

  /**
   * A payment whose ledger agreed with its aggregates disagrees exactly when a
   * loss is the first decisive event, and then by twice the disputed amount.
   */
  lemma LossDoublesInLedger(d: Desk, events: seq<Event>)
    requires Books(d) && !Diverged(d)
    ensures var end := Run(d, events); var lost := !Decided(d) && LossComesFirst(d, events);
      && (Diverged(end) <==> lost)
      && (lost ==> (
            && end.dispute.Some?
            && (end.captured - end.refunded) - SettledBalance(end.ledger) == 2 * end.dispute.value.amount))
  {
    hide SettledBalance, Run, Count, LossComesFirst;
    RunKeepsBooks(d, events);
    LostExactly(d, events);
  }

  /** USED tickets are never altered, REVOKED is final, and a ticket is revoked exactly by a booked payment's loss. */
  lemma TicketsOverRun(d: Desk, events: seq<Event>, i: nat)
    requires Books(d) && i < |d.tickets|
    ensures var end := Run(d, events);
      && |end.tickets| == |d.tickets|
      && (d.tickets[i] in {Used, Revoked} ==> end.tickets[i] == d.tickets[i])
      && (d.tickets[i] == Admits ==>
            (end.tickets[i] == Revoked <==> !Decided(d) && LossComesFirst(d, events) && d.booked)
            && end.tickets[i] in {Admits, Revoked})
  {
    hide SettledBalance, Run, Count, LossComesFirst;
    RunKeepsBooks(d, events);
    LostExactly(d, events);
  }

  // ------------------------------------------------------------------------
  // Which entries and which flag
  // ------------------------------------------------------------------------

  /** What each status is entered as. */
  ghost function KindFor(s: Status): EntryType
    requires s != RequiresReview
  {
    if s == Open then DisputeOpened
    else if s == Won then DisputeWon
    else if s == Lost then DisputeLost
    else DisputeUpdated
  }

  /** The event opened the dispute or moved it to another status that is not a review. */
  ghost predicate TakesEffect(d: Desk, e: Event) {
    e.status != RequiresReview && StatusOf(d) != Some(e.status) && StatusOf(Step(d, e)) == Some(e.status)
  }

  /** Such an event is entered under its own webhook, a loss with a chargeback beside it; any other event enters nothing. */
  lemma StepEntries(d: Desk, e: Event)
    requires Books(d)
    ensures var after := Step(d, e).ledger;
      && (TakesEffect(d, e) ==>
            && HasKey(after, KindFor(e.status), Webhook(e.webhook))
            && (e.status == Lost ==> HasKey(after, ChargebackRecorded, Chargeback(e.webhook))))
      && (!TakesEffect(d, e) ==> after == d.ledger)
      && d.ledger <= after && |after| <= |d.ledger| + if e.status == Lost then 2 else 1
  {
    hide HasKey, UniqueKeys, Append, Count, SettledBalance;
    if TakesEffect(d, e) {
      var amount := if d.dispute.None? then e.amount else d.dispute.value.amount;
      StatusEntered(d.ledger, e.status, e.webhook, amount);
    }
  }

  /** The row: an opening takes the event's amount, an outcome is recorded with its time, and a review keeps what was recorded. */
  lemma StepRow(d: Desk, e: Event)
    requires Books(d) && Step(d, e).dispute != d.dispute
    ensures var row := Step(d, e).dispute;
      && row.Some?
      && row.value.amount == (if d.dispute.None? then e.amount else d.dispute.value.amount)
      && (TakesEffect(d, e) ==>
            && row.value.outcome == (if e.status == Won then Some(OutcomeWon) else if e.status == Lost then Some(OutcomeLost) else None)
            && row.value.closedAt == if e.status in {Won, Lost} then Some(e.now) else None)
      && (!TakesEffect(d, e) ==>
            && row.value.status == RequiresReview
            && row.value.outcome == (if d.dispute.None? then None else d.dispute.value.outcome)
            && row.value.closedAt == if d.dispute.None? then None else d.dispute.value.closedAt)
  {
    hide HasKey, Count, SettledBalance, StatusEntry, Append;
  }

  lemma StatusEntered(ledger: seq<Entry>, status: Status, webhook: nat, amount: nat)
    requires status != RequiresReview
    ensures var noted := StatusEntry(ledger, status, webhook, amount);
      && HasKey(noted, KindFor(status), Webhook(webhook)) && ledger <= noted && |noted| <= |ledger| + 1
      && var lost := Append(noted, Entry(ChargebackRecorded, Chargeback(webhook), amount));
         && HasKey(lost, ChargebackRecorded, Chargeback(webhook)) && HasKey(lost, KindFor(status), Webhook(webhook))
         && ledger <= lost && |lost| <= |ledger| + 2
  {
    hide UniqueKeys;
    var noted := StatusEntry(ledger, status, webhook, amount);
    AppendOnce(ledger, Entry(KindFor(status), Webhook(webhook), amount));
    AppendOnce(noted, Entry(ChargebackRecorded, Chargeback(webhook), amount));
  }

  /** The entry comes from one of the events: it carries its webhook, what its status is entered as, and the disputed amount. */
  ghost predicate Traced(x: Entry, events: seq<Event>, amount: int) {
    exists e :: e in events && x.amount == amount && (
      || (e.status != RequiresReview && x.kind == KindFor(e.status) && x.cause == Webhook(e.webhook))
      || (e.status == Lost && x.kind == ChargebackRecorded && x.cause == Chargeback(e.webhook)))
  }

  lemma StepTraces(d: Desk, e: Event, x: Entry)
    requires Books(d) && x in Step(d, e).ledger && x !in d.ledger
    ensures Step(d, e).dispute.Some? && Traced(x, [e], Step(d, e).dispute.value.amount)
  {
    hide HasKey, Count, SettledBalance;
    assert e in [e];
  }

  /** Every entry a run adds to the ledger comes from one of its events. */
  lemma {:induction false} EntriesTrace(d: Desk, events: seq<Event>, x: Entry)
    requires Books(d) && x in Run(d, events).ledger && x !in d.ledger
    ensures Run(d, events).dispute.Some? && Traced(x, events, Run(d, events).dispute.value.amount)
    decreases |events|
  {
    hide Books, Step, Append;
    if events != [] {
      var mid, rest := Step(d, events[0]), events[1..];
      StepKeepsBooks(d, events[0]);
      assert events == [events[0]] + rest;
      if x in mid.ledger {
        StepTraces(d, events[0], x);
        RunKeepsBooks(mid, rest);
      } else {
        EntriesTrace(mid, rest, x);
      }
    }
  }

  /** The flag a live dispute puts on the order: graver when it and the refunds together exceed what was captured. */
  ghost function FlagFor(d: Desk): Flag
    requires d.dispute.Some?
  {
    if d.refunded > 0 && d.refunded + d.dispute.value.amount > d.captured then ChargebackReview else DisputeReview
  }

  ghost predicate Flagged(d: Desk) {
    d.dispute.Some? ==>
      match d.dispute.value.status
      case Lost => d.flag == ChargebackReview
      case RequiresReview => d.flag == DisputeReview || d.flag == FlagFor(d)
      case _ => d.flag == FlagFor(d)
  }

  lemma StepFlags(d: Desk, e: Event)
    requires Books(d) && Flagged(d)
    ensures Flagged(Step(d, e)) && (Step(d, e).dispute.None? ==> Step(d, e).flag == d.flag)
  {
    hide Count, SettledBalance, StatusEntry, Append;
  }

  /** Over any events a disputed payment's order is flagged for review, with that flag, and an undisputed one keeps its own. */
  lemma {:induction false} RunFlags(d: Desk, events: seq<Event>)
    requires Books(d) && Flagged(d)
    ensures Flagged(Run(d, events)) && (Run(d, events).dispute.None? ==> Run(d, events).flag == d.flag)
    decreases |events|
  {
    if events != [] {
      hide Books, Step, Flagged;
      StepKeepsBooks(d, events[0]);
      StepFlags(d, events[0]);
      RunFlags(Step(d, events[0]), events[1..]);
      RunKeepsBooks(Step(d, events[0]), events[1..]);
    }
  }

  // ------------------------------------------------------------------------
  // What the ledger settles
  // ------------------------------------------------------------------------

  /** The sum of the entries of a type. */
  function SumOf(ledger: seq<Entry>, kind: EntryType): int {
    if ledger == [] then 0
    else SumOf(ledger[..|ledger| - 1], kind) + if ledger[|ledger| - 1].kind == kind then ledger[|ledger| - 1].amount else 0
  }

  /** The settled balance: what was captured, less refunds that succeeded, lost disputes and chargebacks. */
  lemma {:induction false} BalanceExactly(ledger: seq<Entry>)
    ensures SettledBalance(ledger) == SumOf(ledger, PaymentCaptured) - SumOf(ledger, RefundSucceeded)
      - SumOf(ledger, DisputeLost) - SumOf(ledger, ChargebackRecorded)
  {
    if ledger != [] { BalanceExactly(ledger[..|ledger| - 1]); }
  }

  /** A ledger that enters the capture and the refunds, and no loss, agrees with the payment. */
  lemma EnteredInFull(d: Desk)
    requires SumOf(d.ledger, PaymentCaptured) == d.captured && SumOf(d.ledger, RefundSucceeded) == d.refunded
    requires SumOf(d.ledger, DisputeLost) == 0 && SumOf(d.ledger, ChargebackRecorded) == 0
    ensures !Diverged(d)
  {
    BalanceExactly(d.ledger);
  }

  /** The entry that a failed or withdrawn claim on the payment takes back. */
  ghost function Reverses(t: EntryType): Option<EntryType> {
    match t
    case RefundFailed => Some(RefundRequested)
    case RefundCancelled => Some(RefundRequested)
    case DisputeWon => Some(DisputeOpened)
    case _ => None
  }

  /** Money coming in is a credit, and so is taking back a debit; everything else is a debit, every refund and chargeback included. */
  lemma DirectionsExactly(t: EntryType)
    ensures DirectionOf(t) == Credit <==>
      t in {PaymentAuthorized, PaymentCaptured} || (Reverses(t).Some? && DirectionOf(Reverses(t).value) == Debit)
    ensures Settling(t) && t != PaymentCaptured ==> DirectionOf(t) == Debit
  {
  }

  ghost function RevokedAt(tickets: seq<TicketStatus>): set<nat> {
    set i | 0 <= i < |tickets| && RevokeUnused(tickets)[i] != tickets[i]
  }

  lemma OneMoreTicket(front: seq<TicketStatus>, last: TicketStatus)
    ensures |RevokedAt(front + [last])| == |RevokedAt(front)| + if last == Admits then 1 else 0
  {
    var tickets := front + [last];
    assert forall i :: 0 <= i < |front| ==> tickets[i] == front[i] && RevokeUnused(tickets)[i] == RevokeUnused(front)[i];
    assert RevokedAt(tickets) == RevokedAt(front) + if last == Admits then {|front|} else {};
  }

  /** The tickets that revoking changes, counted. */
  lemma {:induction false} AdmittingAreRevoked(tickets: seq<TicketStatus>)
    ensures Admitting(tickets) == |set i | 0 <= i < |tickets| && RevokeUnused(tickets)[i] != tickets[i]|
  {
    assert RevokedAt(tickets) == set i | 0 <= i < |tickets| && RevokeUnused(tickets)[i] != tickets[i];
    if tickets == [] {
      assert RevokedAt(tickets) == {};
    } else {
      hide RevokeUnused;
      var front, last := tickets[..|tickets| - 1], tickets[|tickets| - 1];
      AdmittingAreRevoked(front);
      OneMoreTicket(front, last);
      assert tickets == front + [last];
    }
  }
}
