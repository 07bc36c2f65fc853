/** Refunds priced by seat: what they cover, and when "refund the rest" is exact. */
module RefundSeats {
  import opened Common
  import opened RefundLifecycle
  import opened RefundPricing
  import opened Refunds

  // ------------------------------------------------------------------------
  // Seat prices
  // ------------------------------------------------------------------------

  function SeatIds(seats: seq<Seat>): set<SeatId> {
    set s | s in seats :: s.seat
  }

  ghost predicate UniqueIds(seats: seq<Seat>) {
    forall i, j :: 0 <= i < j < |seats| ==> seats[i].seat != seats[j].seat
  }

  lemma {:induction false} SnapshotPrice(seats: seq<Seat>, covered: set<SeatId>, currency: Currency, ids: set<SeatId>)
    ensures PriceOf(Snapshots(seats, covered, currency), ids) == SeatPrice(seats, ids)
  {
    if seats != [] {
      SnapshotPrice(seats[1..], covered, currency, ids);
      assert Snapshots(seats, covered, currency)[1..] == Snapshots(seats[1..], covered, currency);
    }
  }

  lemma SnapshotsShape(p: Payment)
    requires UniqueIds(p.seats)
    ensures UniqueSeats(SnapshotsOf(p)) && forall s :: s in SnapshotsOf(p) ==> s.currency == p.currency
    ensures OpenIds(SnapshotsOf(p)) == SeatIds(p.seats) - Covered(p.refunds)
    ensures forall id :: Refundable(SnapshotsOf(p), id) <==> id in SeatIds(p.seats) - Covered(p.refunds)
  {
    var snaps, covered := SnapshotsOf(p), Covered(p.refunds);
    forall id | id in SeatIds(p.seats) - covered ensures Refundable(snaps, id) && id in OpenIds(snaps) {
      var i :| 0 <= i < |p.seats| && p.seats[i].seat == id;
      assert snaps[i] in snaps;
    }
  }

  lemma {:induction false} SeatPriceSplits(seats: seq<Seat>, a: set<SeatId>, b: set<SeatId>)
    requires a !! b
    ensures SeatPrice(seats, a + b) == SeatPrice(seats, a) + SeatPrice(seats, b)
    ensures SeatPrice(seats, a) >= 0
  {
    if seats != [] { SeatPriceSplits(seats[1..], a, b); }
  }

  lemma {:induction false} NothingCosts(seats: seq<Seat>)
    ensures SeatPrice(seats, {}) == 0
  {
    if seats != [] { NothingCosts(seats[1..]); }
  }

  /** The priced items a booking's checkout was totalled from. */
  function ItemsOf(seats: seq<Seat>, currency: Currency): seq<Item> {
    seq(|seats|, i requires 0 <= i < |seats| => Item(seats[i].price, currency))
  }

  lemma {:induction false} SeatPriceAppend(seats: seq<Seat>, s: Seat, ids: set<SeatId>)
    ensures SeatPrice(seats + [s], ids) == SeatPrice(seats, ids) + if s.seat in ids then s.price else 0
  {
    if seats == [] {
      assert seats + [s] == [s];
    } else {
      assert (seats + [s])[1..] == seats[1..] + [s];
      SeatPriceAppend(seats[1..], s, ids);
    }
  }

  lemma {:induction false} ItemsCost(seats: seq<Seat>, currency: Currency, ids: set<SeatId>)
    requires forall s :: s in seats ==> s.seat in ids
    ensures Sum(ItemsOf(seats, currency)) == SeatPrice(seats, ids)
  {
    if seats != [] {
      var front, last := seats[..|seats| - 1], seats[|seats| - 1];
      assert seats == front + [last];
      ItemsCost(front, currency, ids);
      SeatPriceAppend(front, last, ids);
      assert ItemsOf(seats, currency)[..|seats| - 1] == ItemsOf(front, currency);
    }
  }

  /** The checkout total of a booking is the price of all its seats. */
  lemma CheckoutTotalIsSeatPrice(seats: seq<Seat>, currency: Currency)
    ensures Sum(ItemsOf(seats, currency)) == SeatPrice(seats, SeatIds(seats))
  {
    ItemsCost(seats, currency, SeatIds(seats));
  }

  // ------------------------------------------------------------------------
  // Disjoint cover
  // ------------------------------------------------------------------------

  /** A refund of seats of the booking, at exactly their prices. */
  ghost predicate SeatScoped(p: Payment, r: Refund) {
    Elements(r.seats) <= SeatIds(p.seats) && r.amount == SeatPrice(p.seats, Elements(r.seats))
  }

  ghost predicate DisjointCover(refunds: seq<Refund>) {
    forall i, j :: 0 <= i < |refunds| && 0 <= j < |refunds| && i != j && Covers(refunds[i]) && Covers(refunds[j])
      ==> Elements(refunds[i].seats) !! Elements(refunds[j].seats)
  }

  /** A booking refunded seat by seat only, captured at its checkout total. */
  ghost predicate BySeat(p: Payment) {
    && UniqueIds(p.seats) && p.captured == SeatPrice(p.seats, SeatIds(p.seats))
    && forall i :: 0 <= i < |p.refunds| ==> SeatScoped(p, p.refunds[i])
  }

  /** The covering refunds are priced at exactly the seats they cover between them. */
  lemma {:induction false} CoverCosts(p: Payment, refunds: seq<Refund>)
    requires DisjointCover(refunds) && forall i :: 0 <= i < |refunds| ==> SeatScoped(p, refunds[i])
    ensures SumIf(refunds, Covers) == SeatPrice(p.seats, Covered(refunds))
    ensures Covered(refunds) <= SeatIds(p.seats)
  {
    if refunds == [] {
      NothingCosts(p.seats);
      assert Covered(refunds) == {};
    } else {
      var front, last := refunds[..|refunds| - 1], refunds[|refunds| - 1];
      assert refunds == front + [last];
      CoverCosts(p, front);
      CoveredAppend(front, last);
      if Covers(last) {
        assert Covered(front) !! Elements(last.seats);
        SeatPriceSplits(p.seats, Covered(front), Elements(last.seats));
      } else {
        assert Covered(refunds) == Covered(front);
      }
    }
  }

  lemma CoveredAppend(front: seq<Refund>, last: Refund)
    ensures Covered(front + [last]) == Covered(front) + (if Covers(last) then Elements(last.seats) else {})
  {
  }

  /** What is left to refund is exactly the price of the open seats. */
  lemma RemainingIsOpenSeats(p: Payment)
    requires BySeat(p) && DisjointCover(p.refunds)
    ensures p.captured - RefundedMinor(p) - InFlightMinor(p) == Remaining(CapacityOf(p))
    ensures Remaining(CapacityOf(p)) == SeatPrice(p.seats, SeatIds(p.seats) - Covered(p.refunds))
  {
    CoverCosts(p, p.refunds);
    CoversIsBoth(p.refunds);
    var covered := Covered(p.refunds);
    SeatPriceSplits(p.seats, covered, SeatIds(p.seats) - covered);
    SeatPriceSplits(p.seats, SeatIds(p.seats) - covered, covered);
    assert covered + (SeatIds(p.seats) - covered) == SeatIds(p.seats);
  }

  // ------------------------------------------------------------------------
  // Requests
  // ------------------------------------------------------------------------

  /** An accepted request by seat covers open seats only, at exactly their prices. */
  lemma RequestIsSeatScoped(p: Payment, a: Action)
    requires UniqueIds(p.seats) && a.Request? && !a.choice.Fixed? && RowsAccepted(p, a)
    requires NewRefund(p, a.key, a.choice, a.permitted).Some?
    ensures var r := NewRefund(p, a.key, a.choice, a.permitted).value;
      SeatScoped(p, r) && Elements(r.seats) !! Covered(p.refunds) && r.status == Requested
  {
    SnapshotsShape(p);
    var snaps, r := SnapshotsOf(p), NewRefund(p, a.key, a.choice, a.permitted).value;
    match a.choice
    case Whole =>
      FullRefundExact(snaps, CapacityOf(p));
      SnapshotPrice(p.seats, Covered(p.refunds), p.currency, OpenIds(snaps));
    case Seats(ids) =>
      SeatRefundExact(snaps, ids, CapacityOf(p));
      SnapshotPrice(p.seats, Covered(p.refunds), p.currency, Elements(ids));
      assert forall id :: id in Elements(ids) ==> Refundable(snaps, id);
  }

  function OpenPrice(p: Payment): int {
    SeatPrice(p.seats, SeatIds(p.seats) - Covered(p.refunds))
  }

  /** A request with a new key that nothing but its amount can refuse. */
  ghost predicate Admissible(p: Payment, key: string, permitted: bool) {
    permitted && !p.flagged && forall r :: r in p.refunds ==> r.key != key
  }

  /** What a request for the whole booking asks for. */
  lemma WholeAsksFor(p: Payment, key: string, permitted: bool)
    requires UniqueIds(p.seats)
    ensures var r := NewRefund(p, key, Whole, permitted);
      && (r.Some? <==> Admissible(p, key, permitted) && Remaining(CapacityOf(p)) > 0 && OpenPrice(p) > 0)
      && (r.Some? ==>
            && Elements(r.value.seats) == SeatIds(p.seats) - Covered(p.refunds)
            && r.value.status == Requested && r.value.succeededAt.None?
            && (OpenPrice(p) <= Remaining(CapacityOf(p)) ==> r.value.amount == OpenPrice(p) && r.value.scope == FullBooking)
            && (OpenPrice(p) > Remaining(CapacityOf(p)) ==> r.value.amount != OpenPrice(p) && r.value.scope == SelectedSeats))
  {
    hide FullBookingRefund, PriceOf, UniqueSeats;
    SnapshotsShape(p);
    var snaps := SnapshotsOf(p);
    FullRefundExact(snaps, CapacityOf(p));
    SnapshotPrice(p.seats, Covered(p.refunds), p.currency, OpenIds(snaps));
  }

  /** The checks on the inserted row accept exactly a request that is not capped. */
  lemma WholeIsAccepted(p: Payment, key: string, permitted: bool)
    requires UniqueIds(p.seats) && NewRefund(p, key, Whole, permitted).Some?
    ensures RowsAccepted(p, Request(key, Whole, permitted)) <==> OpenPrice(p) <= Remaining(CapacityOf(p))
  {
    hide Calculate, SeatPrice;
    WholeAsksFor(p, key, permitted);
    NewIsEmpty(p, key, Whole, permitted);
    var r := NewRefund(p, key, Whole, permitted).value;
    assert forall s :: s in r.seats <==> s in Elements(r.seats);
  }

  lemma NewIsEmpty(p: Payment, key: string, choice: Choice, permitted: bool)
    requires NewRefund(p, key, choice, permitted).Some?
    ensures var r := NewRefund(p, key, choice, permitted).value;
      r == Refund(key, r.amount, r.scope, r.seats, Requested, None, None, None, None, None)
  {
    hide Calculate;
  }

  /**
   * A request for the whole booking commits exactly when its key is new, it is
   * permitted, the order is not flagged, and the open seats cost something that
   * still fits; then it takes them all at their full price.
   */
  lemma WholeCommitsExactly(p: Payment, key: string, permitted: bool)
    requires Balanced(p) && UniqueIds(p.seats)
    ensures var after := Step(p, Request(key, Whole, permitted));
      && (after != p <==> Admissible(p, key, permitted) && 0 < OpenPrice(p) <= Remaining(CapacityOf(p)))
      && (after != p ==>
            && |after.refunds| == |p.refunds| + 1 && after.refunds[..|p.refunds|] == p.refunds
            && after.refunds[|p.refunds|].amount == OpenPrice(p)
            && Elements(after.refunds[|p.refunds|].seats) == SeatIds(p.seats) - Covered(p.refunds)
            && after.refunds[|p.refunds|].scope == FullBooking)
  {
    hide Calculate, NewRefund, RowsAccepted, SeatPrice;
    var a := Request(key, Whole, permitted);
    WholeAsksFor(p, key, permitted);
    if NewRefund(p, key, Whole, permitted).Some? {
      WholeIsAccepted(p, key, permitted);
      if RowsAccepted(p, a) { AggregateRefusesExactly(p, a); }
      assert |Attempt(p, a).refunds| == |p.refunds| + 1;
    }
  }

  /** The request adds this one refund, with its amount, scope and seats, and changes nothing else. */
  ghost predicate Adds(p: Payment, after: Payment, key: string, amount: int, scope: Scope, seats: set<SeatId>) {
    && |after.refunds| == |p.refunds| + 1 && after == p.(refunds := after.refunds)
    && after.refunds[..|p.refunds|] == p.refunds
    && var r := after.refunds[|p.refunds|];
       && r.key == key && r.amount == amount && r.scope == scope && Elements(r.seats) == seats
       && r.status == Requested && r.providerId.None?
  }

  /** What a request for chosen seats asks for. */
  lemma SeatsAskFor(p: Payment, key: string, ids: seq<SeatId>, permitted: bool)
    requires UniqueIds(p.seats)
    ensures var r := NewRefund(p, key, Seats(ids), permitted); var price := SeatPrice(p.seats, Elements(ids));
      && (r.Some? <==>
            Admissible(p, key, permitted) && ids != [] && Elements(ids) <= SeatIds(p.seats) - Covered(p.refunds)
            && 0 < price <= Remaining(CapacityOf(p)))
      && (r.Some? ==> r.value.amount == price && r.value.scope == SelectedSeats && Elements(r.value.seats) == Elements(ids))
  {
    hide SeatRefund, FullBookingRefund, PriceOf, UniqueSeats, Remaining;
    SnapshotsShape(p);
    var snaps := SnapshotsOf(p);
    SeatRefundExact(snaps, ids, CapacityOf(p));
    SnapshotPrice(p.seats, Covered(p.refunds), p.currency, Elements(ids));
    assert forall id :: id in ids <==> id in Elements(ids);
  }

  /**
   * A request for chosen seats commits exactly when its key is new, it is
   * permitted, the order is not flagged, and the seats are open, at least one, and
   * cost something that still fits; then it takes exactly those seats at their price.
   */
  lemma SeatsCommitExactly(p: Payment, key: string, ids: seq<SeatId>, permitted: bool)
    requires Balanced(p) && UniqueIds(p.seats)
    ensures var after := Step(p, Request(key, Seats(ids), permitted)); var price := SeatPrice(p.seats, Elements(ids));
      && (after != p <==>
            Admissible(p, key, permitted) && ids != [] && Elements(ids) <= SeatIds(p.seats) - Covered(p.refunds)
            && 0 < price <= Remaining(CapacityOf(p)))
      && (after != p ==> Adds(p, after, key, price, SelectedSeats, Elements(ids)))
  {
    hide Calculate, NewRefund, RowsAccepted, SeatPrice, Remaining, SumIf;
    var a := Request(key, Seats(ids), permitted);
    SeatsAskFor(p, key, ids, permitted);
    if NewRefund(p, key, Seats(ids), permitted).Some? {
      SeatsAreAccepted(p, key, ids, permitted);
      AggregateRefusesExactly(p, a);
      NewIsEmpty(p, key, Seats(ids), permitted);
      assert |Attempt(p, a).refunds| == |p.refunds| + 1;
    }
  }

  lemma SeatsAreAccepted(p: Payment, key: string, ids: seq<SeatId>, permitted: bool)
    requires UniqueIds(p.seats) && NewRefund(p, key, Seats(ids), permitted).Some?
    ensures RowsAccepted(p, Request(key, Seats(ids), permitted))
  {
    hide Calculate, SeatPrice;
    SeatsAskFor(p, key, ids, permitted);
    NewIsEmpty(p, key, Seats(ids), permitted);
    var r := NewRefund(p, key, Seats(ids), permitted).value;
    assert forall s :: s in r.seats <==> s in Elements(r.seats);
    assert ids[0] in Elements(ids);
  }

  /** A fixed request commits exactly when it is admissible and its amount is positive and fits; it takes that amount and no seat. */
  lemma FixedCommitsExactly(p: Payment, key: string, amount: int, permitted: bool)
    requires Balanced(p)
    ensures var after := Step(p, Request(key, Fixed(amount), permitted));
      && (after != p <==>
            Admissible(p, key, permitted) && amount <= 0x1F_FFFF_FFFF_FFFF && 0 < amount <= Remaining(CapacityOf(p)))
      && (after != p ==> Adds(p, after, key, amount, FixedAmount, {}))
  {
    hide RowsAccepted, SumIf, FullBookingRefund, SeatRefund, Remaining;
    var a := Request(key, Fixed(amount), permitted);
    if NewRefund(p, key, Fixed(amount), permitted).Some? {
      FixedIsAccepted(p, key, amount, permitted);
      AggregateRefusesExactly(p, a);
      assert |Attempt(p, a).refunds| == |p.refunds| + 1;
    }
  }

  lemma FixedIsAccepted(p: Payment, key: string, amount: int, permitted: bool)
    requires NewRefund(p, key, Fixed(amount), permitted).Some?
    ensures RowsAccepted(p, Request(key, Fixed(amount), permitted))
  {
  }

  /** A request capped below the price of its seats never commits. */
  lemma CappedNeverCommits(p: Payment, key: string, permitted: bool)
    requires Balanced(p) && UniqueIds(p.seats) && OpenPrice(p) > Remaining(CapacityOf(p))
    ensures Step(p, Request(key, Whole, permitted)) == p
  {
    hide Step, OpenPrice;
    WholeCommitsExactly(p, key, permitted);
  }

  /** One covering refund more leaves that much less. */
  lemma RemainingAfter(p: Payment, after: Payment, r: Refund)
    requires after.refunds == p.refunds + [r] && Covers(r) && after.captured == p.captured
    ensures RefundedMinor(after) + InFlightMinor(after) == RefundedMinor(p) + InFlightMinor(p) + r.amount
  {
    SumAppend(p.refunds, r, Covers);
    CoversIsBoth(p.refunds);
    CoversIsBoth(after.refunds);
  }

  /** While the cover is disjoint, refunding the rest is never capped and leaves nothing. */
  lemma RefundTheRest(p: Payment, key: string)
    requires Balanced(p) && BySeat(p) && DisjointCover(p.refunds) && !p.flagged
    requires OpenPrice(p) > 0 && forall r :: r in p.refunds ==> r.key != key
    ensures var after := Step(p, Request(key, Whole, true));
      && |after.refunds| == |p.refunds| + 1
      && after.refunds[|p.refunds|].amount == OpenPrice(p)
      && Elements(after.refunds[|p.refunds|].seats) == SeatIds(p.seats) - Covered(p.refunds)
      && after.refunds[|p.refunds|].scope == FullBooking
      && Remaining(CapacityOf(after)) == 0
  {
    hide Step, DisjointCover, SeatScoped, RefundedMinor, InFlightMinor, OpenPrice, Covered;
    assert OpenPrice(p) == Remaining(CapacityOf(p)) by { RemainingIsOpenPrice(p); }
    WholeCommitsExactly(p, key, true);
    WholeLeaves(p, key);
  }

  lemma RemainingIsOpenPrice(p: Payment)
    requires BySeat(p) && DisjointCover(p.refunds)
    ensures OpenPrice(p) == Remaining(CapacityOf(p)) == p.captured - RefundedMinor(p) - InFlightMinor(p)
  {
    RemainingIsOpenSeats(p);
  }

  lemma WholeLeaves(p: Payment, key: string)
    requires Balanced(p) && UniqueIds(p.seats) && Step(p, Request(key, Whole, true)) != p
    ensures var after := Step(p, Request(key, Whole, true));
      Remaining(CapacityOf(after)) == Remaining(CapacityOf(p)) - OpenPrice(p)
  {
    hide Calculate, NewRefund, RowsAccepted, SeatPrice, OpenPrice, RefundedMinor, InFlightMinor;
    WholeCommitsExactly(p, key, true);
    WholeAsksFor(p, key, true);
    var r := NewRefund(p, key, Whole, true).value;
    assert Step(p, Request(key, Whole, true)).refunds == p.refunds + [r];
    assert Covers(r);
    RemainingAfter(p, Step(p, Request(key, Whole, true)), r);
  }

  // ------------------------------------------------------------------------
  // Runs
  // ------------------------------------------------------------------------

  /**
   * An event reopens a released refund that fits what is left, and some of whose
   * seats another refund covers by now.
   */
  predicate Overlaps(p: Payment, a: Action) {
    && Reopens(p, a) && p.refunds[a.id].amount <= Remaining(CapacityOf(p))
    && exists s :: s in p.refunds[a.id].seats && s in Covered(p.refunds)
  }

  predicate Commits(p: Payment, a: Action) {
    RowsAccepted(p, a) && AggregateCheck(Attempt(p, a))
  }

  predicate IsFixed(a: Action) {
    a.Request? && a.choice.Fixed?
  }

  /** Reopening commits exactly when the refund fits what is left. */
  lemma ReopeningCommits(p: Payment, a: Action)
    requires Balanced(p) && Reopens(p, a)
    ensures Commits(p, a) <==> p.refunds[a.id].amount <= Remaining(CapacityOf(p))
  {
    ReopeningIsAccepted(p, a);
    AggregateRefusesExactly(p, a);
  }

  lemma StepKeepsBySeat(p: Payment, a: Action)
    requires Balanced(p) && BySeat(p) && !IsFixed(a)
    ensures BySeat(Step(p, a)) && Balanced(Step(p, a))
  {
    hide NewRefund, Rewritten, Escalates, MayInsert, MayUpdate, RowCheck, SumIf, SeatPrice;
    StepKeepsBalanced(p, a);
    if Commits(p, a) {
      if a.Request? {
        if NewRefund(p, a.key, a.choice, a.permitted).Some? { RequestIsSeatScoped(p, a); }
      } else if a.id < |p.refunds| {
        assert RowCheck(p.refunds[a.id]);
        RewriteShape(p.refunds[a.id], p.currency, a);
      }
    }
  }

  lemma AppendKeepsDisjoint(refunds: seq<Refund>, r: Refund)
    requires DisjointCover(refunds) && Elements(r.seats) !! Covered(refunds)
    ensures DisjointCover(refunds + [r])
  {
    assert forall i, s :: 0 <= i < |refunds| && Covers(refunds[i]) && s in refunds[i].seats ==> s in Covered(refunds);
  }

  /** Rewriting one refund keeps the cover disjoint unless it starts to cover seats that are already covered. */
  lemma RewriteDisjoint(refunds: seq<Refund>, id: nat, r: Refund)
    requires DisjointCover(refunds) && id < |refunds| && r.seats == refunds[id].seats
    requires Covers(r) ==> Covers(refunds[id]) || Elements(r.seats) !! Covered(refunds)
    ensures DisjointCover(refunds[id := r])
  {
    assert forall i, s :: 0 <= i < |refunds| && Covers(refunds[i]) && s in refunds[i].seats ==> s in Covered(refunds);
  }

  lemma OverlapBreaks(refunds: seq<Refund>, id: nat, r: Refund, s: SeatId)
    requires id < |refunds| && r.seats == refunds[id].seats && !Covers(refunds[id]) && Covers(r)
    requires s in r.seats && s in Covered(refunds)
    ensures !DisjointCover(refunds[id := r])
  {
    var other :| other in refunds && Covers(other) && s in other.seats;
    var j :| 0 <= j < |refunds| && refunds[j] == other;
    var after := refunds[id := r];
    assert j != id && after[j] == other && after[id] == r;
    assert s in Elements(after[id].seats) && s in Elements(after[j].seats);
  }

  /** Exactly one kind of event breaks the disjoint cover. */
  lemma CoverBreaksExactly(p: Payment, a: Action)
    requires Balanced(p) && BySeat(p) && DisjointCover(p.refunds) && !IsFixed(a)
    ensures DisjointCover(Step(p, a).refunds) <==> !Overlaps(p, a)
  {
    hide Calculate, Settle;
    if Reopens(p, a) { ReopeningCommits(p, a); }
    if Commits(p, a) {
      if a.Request? {
        if NewRefund(p, a.key, a.choice, a.permitted).Some? {
          RequestIsSeatScoped(p, a);
          AppendKeepsDisjoint(p.refunds, NewRefund(p, a.key, a.choice, a.permitted).value);
        }
      } else if a.id < |p.refunds| {
        RewriteCover(p, a);
      }
    }
  }

  lemma RewriteCover(p: Payment, a: Action)
    requires Balanced(p) && DisjointCover(p.refunds) && !a.Request? && a.id < |p.refunds| && RowsAccepted(p, a)
    ensures var after := p.refunds[a.id := Rewritten(p.refunds[a.id], p.currency, a)];
      DisjointCover(after) <==> !(Reopens(p, a) && exists s :: s in p.refunds[a.id].seats && s in Covered(p.refunds))
  {
    hide Rewritten, MayUpdate;
    var before, r := p.refunds[a.id], Rewritten(p.refunds[a.id], p.currency, a);
    RewriteShape(before, p.currency, a);
    ReopensExactly(p, a);
    if s :| Reopens(p, a) && s in before.seats && s in Covered(p.refunds) {
      OverlapBreaks(p.refunds, a.id, r, s);
    } else {
      if Reopens(p, a) { assert Elements(r.seats) !! Covered(p.refunds); }
      RewriteDisjoint(p.refunds, a.id, r);
    }
  }

  /**
   * Whatever breaks the cover also puts the order under review, which nothing
   * lifts and under which no refund is requested any more.
   */
  ghost predicate FlaggedOrDisjoint(p: Payment) {
    p.flagged || DisjointCover(p.refunds)
  }

  lemma StepKeepsFlagged(p: Payment, a: Action)
    requires Balanced(p) && BySeat(p) && FlaggedOrDisjoint(p) && !IsFixed(a)
    ensures FlaggedOrDisjoint(Step(p, a)) && (p.flagged ==> Step(p, a).flagged)
  {
    hide Calculate, Settle, DisjointCover;
    if !p.flagged {
      CoverBreaksExactly(p, a);
      if Overlaps(p, a) {
        ReopeningCommits(p, a);
        ReopeningIsAccepted(p, a);
      }
    }
  }

  /**
   * Over every run of requests by seat and any events at all: as long as the
   * order is not under review, covering refunds are disjoint and what is left is
   * exactly the price of the open seats, so a full refund is never capped.
   */
  lemma {:induction false} RemainingStaysExact(p: Payment, actions: seq<Action>)
    requires Balanced(p) && BySeat(p) && FlaggedOrDisjoint(p)
    requires forall a :: a in actions ==> !IsFixed(a)
    ensures var end := Run(p, actions);
      && Balanced(end) && BySeat(end) && FlaggedOrDisjoint(end)
      && (!end.flagged ==> Remaining(CapacityOf(end)) == OpenPrice(end))
    decreases |actions|
  {
    hide Step, Balanced, BySeat, DisjointCover;
    if actions == [] {
      if !p.flagged { RemainingIsOpenPrice(p); }
    } else {
      assert actions[0] in actions && forall a :: a in actions[1..] ==> a in actions;
      StepKeepsBySeat(p, actions[0]);
      StepKeepsFlagged(p, actions[0]);
      RemainingStaysExact(Step(p, actions[0]), actions[1..]);
    }
  }

  /** A booking captured at its checkout total starts that way. */
  lemma FreshBooking(p: Payment)
    requires p.refunds == [] && UniqueIds(p.seats) && p.captured == SeatPrice(p.seats, SeatIds(p.seats))
    ensures Balanced(p) && BySeat(p) && FlaggedOrDisjoint(p)
  {
    FreshPayment(p);
  }

  // ------------------------------------------------------------------------
  // A run that does overlap
  // ------------------------------------------------------------------------

  /** The first refund of seat 1 failed; a second one is live. */
  const RETRIED := Payment(20, EUR, [Seat(1, 10), Seat(2, 10)],
    [Refund("a", 10, SelectedSeats, [1], Failed, Some(7), Some(1), None, Some(2), None),
     Refund("b", 10, SelectedSeats, [1], Processing, Some(8), Some(3), None, None, None)], false)

  const LATE_SUCCESS := Deliver(0, Event(Succeeded, 10, EUR, Some(5)), 6)

  lemma RetriedIsFine()
    ensures Balanced(RETRIED) && BySeat(RETRIED) && DisjointCover(RETRIED.refunds)
  {
    var r, s := RETRIED.refunds[0], RETRIED.refunds[1];
    var seats := RETRIED.seats;
    assert Elements(r.seats) == {1} && Elements(s.seats) == {1};
    assert SeatIds(seats) == {1, 2} by {
      assert seats[0].seat == 1 && seats[1].seat == 2;
    }
    assert seats[1..] == [Seat(2, 10)] && seats[1..][1..] == [];
    assert SeatPrice(seats, {1}) == 10 && SeatPrice(seats, {1, 2}) == 20;
    assert RETRIED.refunds == [r] + [s];
    TwoRefunds(r, s, Returned);
    TwoRefunds(r, s, Reserved);
  }

  /** The event reopens a refund that fits what is left, over a seat that is covered. */
  lemma LateSuccess()
    ensures Attempt(RETRIED, LATE_SUCCESS).refunds == [RETRIED.refunds[0].(status := UnderReview)] + [RETRIED.refunds[1]]
    ensures RowsAccepted(RETRIED, LATE_SUCCESS)
    ensures Reopens(RETRIED, LATE_SUCCESS)
  {
  }

  /**
   * Then a late SUCCEEDED for the failed refund commits: seat 1 is covered twice,
   * and nothing is left to refund although seat 2 is open.
   */
  lemma ContradictionCanOverlap()
    ensures Balanced(RETRIED) && BySeat(RETRIED) && DisjointCover(RETRIED.refunds)
    ensures Commits(RETRIED, LATE_SUCCESS) && Overlaps(RETRIED, LATE_SUCCESS)
    ensures Remaining(CapacityOf(Step(RETRIED, LATE_SUCCESS))) == 0
    ensures 2 !in Covered(Step(RETRIED, LATE_SUCCESS).refunds)
  {
    RetriedIsFine();
    LateSuccess();
    var r, s := RETRIED.refunds[0].(status := UnderReview), RETRIED.refunds[1];
    TwoRefunds(r, s, Returned);
    TwoRefunds(r, s, Reserved);
    assert s in RETRIED.refunds && Covers(s) && 1 in s.seats && 1 in RETRIED.refunds[0].seats;
    assert forall x :: x in [r] + [s] ==> x.seats == [1];
  }

  lemma TwoRefunds(r: Refund, s: Refund, which: Refund -> bool)
    ensures SumIf([r] + [s], which) == (if which(r) then r.amount else 0) + (if which(s) then s.amount else 0)
  {
    SumAppend([r], s, which);
    SumAppend([], r, which);
    assert [] + [r] == [r];
  }
}
