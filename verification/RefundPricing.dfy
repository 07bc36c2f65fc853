/** The amount a booking costs, and the amounts its refunds are priced at. */
module RefundPricing {
  import opened Common

  type SeatId = nat

  const MAX_MINOR := 2_147_483_647
  const MAX_SAFE := 0x1F_FFFF_FFFF_FFFF

  predicate SafeInteger(n: int) {
    -MAX_SAFE <= n <= MAX_SAFE
  }

  // ------------------------------------------------------------------------
  // The checkout total
  // ------------------------------------------------------------------------

  datatype Item = Item(price: int, currency: Currency)

  datatype TotalResult = Total(minor: int, currency: Currency) | NoSeats | MixedCurrency | BadPrice | OutOfRange

  function Sum(items: seq<Item>): int {
    if items == [] then 0 else Sum(items[..|items| - 1]) + items[|items| - 1].price
  }

  /** calculateCheckoutTotal accepts exactly the item lists whose whole sum is in range, and returns that sum. */
  method CalculateCheckoutTotal(items: seq<Item>) returns (r: TotalResult)
    ensures r.Total? <==>
      && items != [] && Sum(items) <= 0x7FFF_FFFF
      && forall i :: 0 <= i < |items| ==> items[i].currency == items[0].currency && items[i].price >= 0
    ensures r.Total? ==> r == Total(Sum(items), items[0].currency)
    ensures r.NoSeats? <==> items == []
    ensures r.MixedCurrency? ==> exists i :: 0 <= i < |items| && items[i].currency != items[0].currency
    ensures r.BadPrice? ==> exists i :: 0 <= i < |items| && !(0 <= items[i].price <= MAX_SAFE)
    ensures r.OutOfRange? ==> exists n :: 0 <= n <= |items| && Sum(items[..n]) > 0x7FFF_FFFF
  {
    if |items| == 0 { return NoSeats; }
    var currency := items[0].currency;
    var total := 0;
    for i := 0 to |items|
      invariant total == Sum(items[..i]) && 0 <= total <= MAX_MINOR
      invariant forall k :: 0 <= k < i ==> items[k].currency == currency && items[k].price >= 0
    {
      var item := items[i];
      if item.currency != currency { return MixedCurrency; }
      if !SafeInteger(item.price) || item.price < 0 {
        if item.price > MAX_SAFE { OneBigPrice(items, i); }
        return BadPrice;
      }
      assert items[..i + 1][..i] == items[..i];
      total := total + item.price;
      if !SafeInteger(total) || total > MAX_MINOR {
        PrefixSum(items, i + 1);
        return OutOfRange;
      }
    }
    assert items[..|items|] == items;
    r := Total(total, currency);
  }

  /** Non-negative prices make every prefix cost at most the whole. */
  lemma {:induction false} PrefixSum(items: seq<Item>, n: nat)
    requires n <= |items|
    ensures (forall i :: 0 <= i < |items| ==> items[i].price >= 0) ==> 0 <= Sum(items[..n]) <= Sum(items)
  {
    if n < |items| {
      var front := items[..|items| - 1];
      assert front[..n] == items[..n];
      PrefixSum(front, n);
      assert (forall i :: 0 <= i < |items| ==> items[i].price >= 0) ==> forall i :: 0 <= i < |front| ==> front[i].price >= 0;
    } else {
      assert items[..n] == items;
      if n > 0 {
        PrefixSum(items[..n - 1], n - 1);
        assert items[..n - 1][..n - 1] == items[..n - 1];
      }
    }
  }

  lemma OneBigPrice(items: seq<Item>, i: nat)
    requires i < |items|
    ensures (forall k :: 0 <= k < |items| ==> items[k].price >= 0) ==> items[i].price <= Sum(items)
  {
    PrefixSum(items, i + 1);
    PrefixSum(items, i);
    assert items[..i + 1][..i] == items[..i];
  }

  // ------------------------------------------------------------------------
  // Refund amounts
  // ------------------------------------------------------------------------

  datatype Snapshot = Snapshot(seat: SeatId, price: int, currency: Currency, alreadyRefunded: bool)

  datatype Capacity = Capacity(captured: int, refunded: int, inFlight: int, currency: Currency)

  datatype Scope = FullBooking | SelectedSeats | FixedAmount

  datatype Rejection =
    | NothingRefundable | SeatNotInBooking | SeatAlreadyRefunded | NoSeatsSelected
    | MixedCurrencies | ExceedsRemaining | AmountNotPositive

  datatype Calculation =
    | Eligible(scope: Scope, amount: int, currency: Currency, seats: seq<SeatId>)
    | Rejected(reason: Rejection)

  function Remaining(c: Capacity): nat {
    var left := c.captured - c.refunded - c.inFlight;
    if left > 0 then left else 0
  }

  function OpenSeats(seats: seq<Snapshot>): seq<Snapshot> {
    if seats == [] then []
    else (if seats[0].alreadyRefunded then [] else [seats[0]]) + OpenSeats(seats[1..])
  }

  function PriceTotal(seats: seq<Snapshot>): int {
    if seats == [] then 0 else seats[0].price + PriceTotal(seats[1..])
  }

  function Ids(seats: seq<Snapshot>): seq<SeatId> {
    seq(|seats|, i requires 0 <= i < |seats| => seats[i].seat)
  }

  /** calculateFullBookingRefund. */
  function FullBookingRefund(seats: seq<Snapshot>, capacity: Capacity): Calculation {
    var remaining := Remaining(capacity);
    var open := OpenSeats(seats);
    if remaining <= 0 || |open| == 0 then Rejected(NothingRefundable)
    else if exists s :: s in open && s.currency != capacity.currency then Rejected(MixedCurrencies)
    else
      var seatTotal := PriceTotal(open);
      var amount := if seatTotal < remaining then seatTotal else remaining;
      if amount <= 0 then Rejected(AmountNotPositive)
      else Eligible(if amount == seatTotal then FullBooking else SelectedSeats, amount, capacity.currency, Ids(open))
  }

  /** [...new Set(ids)]: first occurrences, in order. */
  function Dedup(ids: seq<SeatId>): seq<SeatId> {
    if ids == [] then []
    else
      var front, last := Dedup(ids[..|ids| - 1]), ids[|ids| - 1];
      if last in front then front else front + [last]
  }

  /** The Map lookup: a later snapshot of the same seat wins. */
  function Find(seats: seq<Snapshot>, id: SeatId): Option<Snapshot> {
    if seats == [] then None
    else if seats[|seats| - 1].seat == id then Some(seats[|seats| - 1])
    else Find(seats[..|seats| - 1], id)
  }

  /** The snapshots of the requested seats, or the reason for the first that has none to refund. */
  function Select(seats: seq<Snapshot>, ids: seq<SeatId>): (seq<Snapshot>, Option<Rejection>) {
    if ids == [] then ([], None)
    else
      var (front, bad) := Select(seats, ids[..|ids| - 1]);
      if bad.Some? then (front, bad)
      else
        match Find(seats, ids[|ids| - 1])
        case None => (front, Some(SeatNotInBooking))
        case Some(s) => if s.alreadyRefunded then (front, Some(SeatAlreadyRefunded)) else (front + [s], None)
  }

  function SeatRefund(seats: seq<Snapshot>, requestedIds: seq<SeatId>, capacity: Capacity): Calculation {
    var requested := Dedup(requestedIds);
    var (selected, bad) := Select(seats, requested);
    if |requested| == 0 then Rejected(NoSeatsSelected)
    else if bad.Some? then Rejected(bad.value)
    else if exists s :: s in selected && s.currency != capacity.currency then Rejected(MixedCurrencies)
    else
      var amount := PriceTotal(selected);
      if amount <= 0 then Rejected(AmountNotPositive)
      else if amount > Remaining(capacity) then Rejected(ExceedsRemaining)
      else Eligible(SelectedSeats, amount, capacity.currency, Ids(selected))
  }

  /** calculateSeatRefund, with the loop that collects the selected snapshots. */
  method CalculateSeatRefund(seats: seq<Snapshot>, requestedIds: seq<SeatId>, capacity: Capacity)
    returns (r: Calculation)
    ensures r == SeatRefund(seats, requestedIds, capacity)
  {
    var requested := Dedup(requestedIds);
    if |requested| == 0 { return Rejected(NoSeatsSelected); }
    var selected := [];
    for i := 0 to |requested|
      invariant Select(seats, requested[..i]) == (selected, None)
    {
      var id := requested[i];
      assert requested[..i + 1][..i] == requested[..i];
      var seat := Find(seats, id);
      if seat.None? {
        SelectStops(seats, requested, i + 1);
        return Rejected(SeatNotInBooking);
      }
      if seat.value.alreadyRefunded {
        SelectStops(seats, requested, i + 1);
        return Rejected(SeatAlreadyRefunded);
      }
      selected := selected + [seat.value];
    }
    assert requested[..|requested|] == requested;
    if exists s :: s in selected && s.currency != capacity.currency { return Rejected(MixedCurrencies); }
    var amount := PriceTotal(selected);
    if amount <= 0 { return Rejected(AmountNotPositive); }
    if amount > Remaining(capacity) { return Rejected(ExceedsRemaining); }
    r := Eligible(SelectedSeats, amount, capacity.currency, Ids(selected));
  }

  /** The first bad seat decides: nothing after it is looked at. */
  lemma {:induction false} SelectStops(seats: seq<Snapshot>, ids: seq<SeatId>, n: nat)
    requires n <= |ids| && Select(seats, ids[..n]).1.Some?
    ensures Select(seats, ids).1 == Select(seats, ids[..n]).1
  {
    if n < |ids| {
      assert ids[..|ids| - 1][..n] == ids[..n];
      SelectStops(seats, ids[..|ids| - 1], n);
    } else {
      assert ids[..n] == ids;
    }
  }

  /** calculateFixedRefund. */
  function FixedRefund(approved: int, capacity: Capacity): Calculation {
    if !SafeInteger(approved) || approved <= 0 then Rejected(AmountNotPositive)
    else if approved > Remaining(capacity) then Rejected(ExceedsRemaining)
    else Eligible(FixedAmount, approved, capacity.currency, [])
  }

  /** Every accepted refund is positive and fits what is still refundable. */
  lemma EligibleFits(seats: seq<Snapshot>, ids: seq<SeatId>, approved: int, capacity: Capacity, c: Calculation)
    requires c.Eligible? && c in {FullBookingRefund(seats, capacity), SeatRefund(seats, ids, capacity), FixedRefund(approved, capacity)}
    ensures 0 < c.amount <= Remaining(capacity)
  {
  }

  // ------------------------------------------------------------------------
  // What the amounts are, seat by seat
  // ------------------------------------------------------------------------

  /** The price of a set of seats, read off the booking. */
  function PriceOf(seats: seq<Snapshot>, ids: set<SeatId>): int {
    if seats == [] then 0
    else (if seats[0].seat in ids then seats[0].price else 0) + PriceOf(seats[1..], ids)
  }

  /** A booking lists each seat once. */
  ghost predicate UniqueSeats(seats: seq<Snapshot>) {
    forall i, j :: 0 <= i < j < |seats| ==> seats[i].seat != seats[j].seat
  }

  lemma {:induction false} PriceOfDisjoint(seats: seq<Snapshot>, a: set<SeatId>, b: set<SeatId>)
    requires a !! b
    ensures PriceOf(seats, a + b) == PriceOf(seats, a) + PriceOf(seats, b)
  {
    if seats != [] { PriceOfDisjoint(seats[1..], a, b); }
  }

  lemma {:induction false} PriceOfOne(seats: seq<Snapshot>, i: nat)
    requires UniqueSeats(seats) && i < |seats|
    ensures PriceOf(seats, {seats[i].seat}) == seats[i].price
  {
    if i == 0 {
      NoneListed(seats[1..], {seats[0].seat});
    } else {
      PriceOfOne(seats[1..], i - 1);
    }
  }

  lemma {:induction false} NoneListed(seats: seq<Snapshot>, ids: set<SeatId>)
    requires forall s :: s in seats ==> s.seat !in ids
    ensures PriceOf(seats, ids) == 0
  {
    if seats != [] { NoneListed(seats[1..], ids); }
  }

  lemma {:induction false} DedupSame(ids: seq<SeatId>)
    ensures Elements(Dedup(ids)) == Elements(ids) && Distinct(Dedup(ids))
  {
    if ids != [] {
      var front, last := ids[..|ids| - 1], ids[|ids| - 1];
      assert ids == front + [last];
      DedupSame(front);
      assert Elements(ids) == Elements(front) + {last};
      if last !in Dedup(front) { assert Elements(Dedup(front) + [last]) == Elements(Dedup(front)) + {last}; }
      if last in Dedup(front) { assert last in Elements(Dedup(front)); }
    }
  }

  lemma {:induction false} FindFinds(seats: seq<Snapshot>, id: SeatId)
    ensures match Find(seats, id)
      case Some(s) => s in seats && s.seat == id
      case None => forall s :: s in seats ==> s.seat != id
  {
    if seats != [] {
      var front := seats[..|seats| - 1];
      assert seats == front + [seats[|seats| - 1]];
      FindFinds(front, id);
    }
  }

  lemma FindsListed(seats: seq<Snapshot>, s: Snapshot)
    requires UniqueSeats(seats) && s in seats
    ensures Find(seats, s.seat) == Some(s)
  {
    FindFinds(seats, s.seat);
    var found := Find(seats, s.seat).value;
    var i :| 0 <= i < |seats| && seats[i] == found;
    var j :| 0 <= j < |seats| && seats[j] == s;
  }

  ghost predicate Refundable(seats: seq<Snapshot>, id: SeatId) {
    exists s :: s in seats && s.seat == id && !s.alreadyRefunded
  }

  /** The selection loop finds every requested seat, once, at its own price, exactly when all are refundable. */
  lemma {:induction false} SelectExact(seats: seq<Snapshot>, ids: seq<SeatId>)
    requires UniqueSeats(seats) && Distinct(ids)
    ensures var (selected, bad) := Select(seats, ids);
      && (bad.None? <==> forall id :: id in ids ==> Refundable(seats, id))
      && (bad.None? ==>
            && Ids(selected) == ids && PriceTotal(selected) == PriceOf(seats, Elements(ids))
            && forall s :: s in selected ==> s in seats)
  {
    if ids == [] {
      NoneListed(seats, {});
      assert Elements(ids) == {};
    } else {
      var front, last := ids[..|ids| - 1], ids[|ids| - 1];
      assert ids == front + [last];
      SelectExact(seats, front);
      FindFinds(seats, last);
      if Refundable(seats, last) {
        var s :| s in seats && s.seat == last && !s.alreadyRefunded;
        FindsListed(seats, s);
      }
      if Select(seats, ids).1.None? { SelectedPrice(seats, front, last); }
    }
  }

  lemma LastIsNew(front: seq<SeatId>, last: SeatId)
    requires Distinct(front + [last])
    ensures last !in front
  {
    forall k | 0 <= k < |front| ensures front[k] != last {
      assert (front + [last])[k] == front[k] && (front + [last])[|front|] == last;
    }
  }

  lemma SelectedPrice(seats: seq<Snapshot>, front: seq<SeatId>, last: SeatId)
    requires UniqueSeats(seats) && Distinct(front + [last])
    requires Select(seats, front).1.None? && Find(seats, last).Some?
    requires PriceTotal(Select(seats, front).0) == PriceOf(seats, Elements(front))
    ensures PriceTotal(Select(seats, front).0 + [Find(seats, last).value]) == PriceOf(seats, Elements(front + [last]))
  {
    FindFinds(seats, last);
    var s := Find(seats, last).value;
    var i :| 0 <= i < |seats| && seats[i] == s;
    PriceTotalAppend(Select(seats, front).0, s);
    PriceOfOne(seats, i);
    LastIsNew(front, last);
    assert Elements(front + [last]) == Elements(front) + {last};
    PriceOfDisjoint(seats, Elements(front), {last});
  }

  lemma {:induction false} PriceTotalAppend(seats: seq<Snapshot>, s: Snapshot)
    ensures PriceTotal(seats + [s]) == PriceTotal(seats) + s.price
  {
    if seats == [] {
      assert seats + [s] == [s];
    } else {
      assert (seats + [s])[1..] == seats[1..] + [s];
      PriceTotalAppend(seats[1..], s);
    }
  }

  /** A seat refund is accepted exactly when every seat named is open and together they fit; it costs their prices. */
  lemma SeatRefundExact(seats: seq<Snapshot>, ids: seq<SeatId>, capacity: Capacity)
    requires UniqueSeats(seats) && forall s :: s in seats ==> s.currency == capacity.currency
    ensures var r := SeatRefund(seats, ids, capacity); var price := PriceOf(seats, Elements(ids));
      && (r.Eligible? <==>
            ids != [] && (forall id :: id in ids ==> Refundable(seats, id)) && 0 < price <= Remaining(capacity))
      && (r.Eligible? ==>
            r.scope == SelectedSeats && r.amount == price && Elements(r.seats) == Elements(ids) && Distinct(r.seats))
  {
    DedupSame(ids);
    var requested := Dedup(ids);
    SelectExact(seats, requested);
    assert forall id :: id in requested <==> id in Elements(requested);
    assert forall id :: id in ids <==> id in Elements(ids);
    if ids != [] { assert ids[0] in Elements(ids); }
  }

  /** A seat in another currency than the payment's stops the refund exactly when all seats named are open and it is one of them. */
  lemma MixedSeatsExactly(seats: seq<Snapshot>, ids: seq<SeatId>, capacity: Capacity)
    requires UniqueSeats(seats)
    ensures SeatRefund(seats, ids, capacity) == Rejected(MixedCurrencies) <==>
      && ids != [] && (forall id :: id in ids ==> Refundable(seats, id))
      && exists s :: s in seats && s.seat in ids && s.currency != capacity.currency
  {
    DedupSame(ids);
    var requested := Dedup(ids);
    assert forall id :: id in requested <==> id in ids by {
      assert forall id :: id in requested <==> id in Elements(requested);
      assert forall id :: id in ids <==> id in Elements(ids);
    }
    SelectExact(seats, requested);
    SelectReason(seats, requested);
    if ids != [] { assert ids[0] in requested; }
    if Select(seats, requested).1.None? { SelectedMembers(seats, Select(seats, requested).0, requested); }
    hide Select, Remaining, PriceTotal, PriceOf, Ids, Dedup, Refundable, UniqueSeats;
  }

  /** And a full refund exactly when something is left and one of the open seats is. */
  lemma MixedFullExactly(seats: seq<Snapshot>, capacity: Capacity)
    ensures FullBookingRefund(seats, capacity) == Rejected(MixedCurrencies) <==>
      Remaining(capacity) > 0 && exists s :: s in seats && !s.alreadyRefunded && s.currency != capacity.currency
  {
    hide Remaining, PriceTotal;
    OpenMembers(seats);
  }

  lemma SelectedMembers(seats: seq<Snapshot>, selected: seq<Snapshot>, ids: seq<SeatId>)
    requires UniqueSeats(seats) && Ids(selected) == ids && forall s :: s in selected ==> s in seats
    ensures forall s :: s in selected <==> s in seats && s.seat in ids
  {
    forall s | s in selected ensures s.seat in ids {
      var i :| 0 <= i < |selected| && selected[i] == s;
      assert Ids(selected)[i] == s.seat;
    }
    forall s | s in seats && s.seat in ids ensures s in selected {
      var i :| 0 <= i < |ids| && ids[i] == s.seat;
      FindsListed(seats, s);
      FindsListed(seats, selected[i]);
    }
  }

  ghost predicate NotListed(seats: seq<Snapshot>, id: SeatId) {
    forall s :: s in seats ==> s.seat != id
  }

  /** Why a seat refund is rejected, when no two snapshots are of one seat and all share the payment's currency. */
  lemma SeatRejectionExact(seats: seq<Snapshot>, ids: seq<SeatId>, capacity: Capacity)
    requires UniqueSeats(seats) && (forall s :: s in seats ==> s.currency == capacity.currency)
    requires SeatRefund(seats, ids, capacity).Rejected?
    ensures var why := SeatRefund(seats, ids, capacity).reason; var price := PriceOf(seats, Elements(ids));
      && (why == NoSeatsSelected <==> ids == [])
      && (why in {SeatNotInBooking, SeatAlreadyRefunded} <==> exists id :: id in ids && !Refundable(seats, id))
      && (why == SeatNotInBooking ==> exists id :: id in ids && NotListed(seats, id))
      && (why == SeatAlreadyRefunded ==> exists s :: s in seats && s.seat in ids && s.alreadyRefunded)
      && (why == AmountNotPositive ==> price <= 0) && (why == ExceedsRemaining ==> price > Remaining(capacity))
      && why in {NoSeatsSelected, SeatNotInBooking, SeatAlreadyRefunded, AmountNotPositive, ExceedsRemaining}
  {
    DedupSame(ids);
    var requested := Dedup(ids);
    SelectExact(seats, requested);
    SelectReason(seats, requested);
    assert forall id :: id in requested <==> id in Elements(requested);
    assert forall id :: id in ids <==> id in Elements(ids);
    if ids != [] { assert ids[0] in Elements(ids); }
  }

  /** The reason given is true of one of the seats named. */
  lemma {:induction false} SelectReason(seats: seq<Snapshot>, ids: seq<SeatId>)
    ensures match Select(seats, ids).1
      case None => true
      case Some(why) =>
        || (why == SeatNotInBooking && exists id :: id in ids && NotListed(seats, id))
        || (why == SeatAlreadyRefunded && exists s :: s in seats && s.seat in ids && s.alreadyRefunded)
  {
    if ids != [] {
      var front, last := ids[..|ids| - 1], ids[|ids| - 1];
      SelectReason(seats, front);
      FindIs(seats, last);
      assert ids == front + [last] && last in ids;
      assert forall id :: id in front ==> id in ids;
    }
  }

  lemma {:induction false} FindIs(seats: seq<Snapshot>, id: SeatId)
    ensures match Find(seats, id)
      case None => NotListed(seats, id)
      case Some(s) => s in seats && s.seat == id
  {
    if seats != [] {
      FindIs(seats[..|seats| - 1], id);
      assert seats == seats[..|seats| - 1] + [seats[|seats| - 1]];
    }
  }

  function OpenIds(seats: seq<Snapshot>): set<SeatId> {
    set s | s in seats && !s.alreadyRefunded :: s.seat
  }

  lemma {:induction false} OpenMembers(seats: seq<Snapshot>)
    ensures forall s :: s in OpenSeats(seats) <==> s in seats && !s.alreadyRefunded
  {
    if seats != [] {
      assert seats == [seats[0]] + seats[1..];
      OpenMembers(seats[1..]);
    }
  }

  lemma {:induction false} OpenPrice(seats: seq<Snapshot>, ids: set<SeatId>)
    requires forall s :: s in seats ==> (s.seat in ids <==> !s.alreadyRefunded)
    ensures PriceTotal(OpenSeats(seats)) == PriceOf(seats, ids)
  {
    if seats != [] {
      OpenPrice(seats[1..], ids);
      var open := OpenSeats(seats[1..]);
      if seats[0].alreadyRefunded {
        assert OpenSeats(seats) == open;
      } else {
        assert OpenSeats(seats) == [seats[0]] + open && OpenSeats(seats)[1..] == open;
      }
    }
  }

  lemma OpenSeatsPrice(seats: seq<Snapshot>)
    requires UniqueSeats(seats)
    ensures PriceTotal(OpenSeats(seats)) == PriceOf(seats, OpenIds(seats))
    ensures Elements(Ids(OpenSeats(seats))) == OpenIds(seats)
    ensures forall s :: s in OpenSeats(seats) ==> s in seats
  {
    hide OpenSeats, PriceTotal, PriceOf, Ids, OpenIds;
    OpenMembers(seats);
    IdsOf(OpenSeats(seats));
    OpenIdsExactly(seats);
    OpenPrice(seats, OpenIds(seats));
  }

  lemma IdsOf(seats: seq<Snapshot>)
    ensures Elements(Ids(seats)) == set s | s in seats :: s.seat
  {
    assert forall i :: 0 <= i < |seats| ==> Ids(seats)[i] == seats[i].seat && seats[i] in seats;
    forall s | s in seats ensures s.seat in Ids(seats) {
      var i :| 0 <= i < |seats| && seats[i] == s;
      assert Ids(seats)[i] == s.seat;
    }
  }

  lemma OpenIdsExactly(seats: seq<Snapshot>)
    requires UniqueSeats(seats)
    ensures OpenIds(seats) == set s | s in OpenSeats(seats) :: s.seat
    ensures forall s :: s in seats ==> (s.seat in OpenIds(seats) <==> !s.alreadyRefunded)
  {
    OpenMembers(seats);
    hide OpenSeats;
    forall s | s in seats && s.seat in OpenIds(seats) ensures !s.alreadyRefunded {
      var t :| t in seats && !t.alreadyRefunded && t.seat == s.seat;
      FindsListed(seats, s);
      FindsListed(seats, t);
    }
  }

  /**
   * A full refund asks for the whole price of the open seats exactly when that
   * fits; otherwise it is capped, and then its amount is not what its seats cost.
   */
  lemma FullRefundExact(seats: seq<Snapshot>, capacity: Capacity)
    requires UniqueSeats(seats) && forall s :: s in seats ==> s.currency == capacity.currency
    ensures var r := FullBookingRefund(seats, capacity); var price := PriceOf(seats, OpenIds(seats));
      && (r.Eligible? <==> Remaining(capacity) > 0 && price > 0)
      && (r.Eligible? ==> Elements(r.seats) == OpenIds(seats))
      && (r.Eligible? && price <= Remaining(capacity) ==> r.amount == price && r.scope == FullBooking)
      && (r.Eligible? && price > Remaining(capacity) ==>
            r.amount == Remaining(capacity) && r.amount != price && r.scope == SelectedSeats)
  {
    OpenSeatsPrice(seats);
    if OpenSeats(seats) == [] { NoneListed(seats, OpenIds(seats)); }
  }
}
