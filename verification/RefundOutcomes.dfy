/**
 * What becomes of one refund under the provider's events as the service commits
 * them: each is compared with the refund, tested for staleness against the time
 * the recorded outcome was applied, decided, and written only if the row's checks
 * accept it.
 */
module RefundOutcomes {
  import opened Common
  import opened RefundLifecycle
  import opened RefundPricing
  import opened Refunds

  predicate Live(r: Refund) {
    r.status in {Requested, Submitting, Processing}
  }

  predicate Matching(r: Refund, currency: Currency, e: Event) {
    e.amount == r.amount && e.currency == currency
  }

  /** The event is not stale against an outcome applied at `t`. */
  predicate Counts(e: Event, t: Time) {
    e.occurredAt.None? || e.occurredAt.value >= t
  }

  /** The row one event leaves; a row its checks refuse is rolled back. */
  function Commit(r: Refund, currency: Currency, e: Event, now: Time): Refund {
    var after := Settle(r, currency, e, now);
    if RowCheck(after) && MayUpdate(r, after) then after else r
  }

  /** Events in the order they are processed, each at its time on the clock. */
  function Receive(r: Refund, currency: Currency, events: seq<Event>, clock: seq<Time>): Refund
    requires |events| == |clock|
    decreases |events|
  {
    if events == [] then r else Receive(Commit(r, currency, events[0], clock[0]), currency, events[1..], clock[1..])
  }

  // ------------------------------------------------------------------------
  // One event
  // ------------------------------------------------------------------------

  lemma LiveStep(r: Refund, currency: Currency, e: Event, now: Time)
    requires RowCheck(r) && Live(r)
    ensures var after := Commit(r, currency, e, now);
      && RowCheck(after) && after.amount == r.amount
      && (!Matching(r, currency, e) || e.status == UnderReview ==> after.status == UnderReview)
      && (Matching(r, currency, e) && e.status == Succeeded ==> after == r.(status := Succeeded, succeededAt := Some(now)))
      && (Matching(r, currency, e) && e.status == Failed ==> after == r.(status := Failed, failedAt := Some(now)))
      && (Matching(r, currency, e) && e.status !in {Succeeded, Failed, UnderReview} ==> Live(after))
  {
  }

  /**
   * A progress report moves a live refund only while its submission time may still
   * be written: the time is write-once, and every such report writes it.
   */
  lemma ProgressExactly(r: Refund, currency: Currency, e: Event, now: Time)
    requires RowCheck(r) && Live(r) && Matching(r, currency, e) && e.status !in {Succeeded, Failed, UnderReview}
    ensures Commit(r, currency, e, now) ==
      if e.status in {Submitting, Processing} && e.status != r.status && r.submittedAt in {None, Some(now)}
      then r.(status := e.status, submittedAt := Some(now)) else r
  {
  }

  /** When the recorded outcome was applied. */
  function AppliedAt(r: Refund): Option<Time> {
    if r.succeededAt.Some? then r.succeededAt else r.failedAt
  }

  /** The event contradicts an outcome applied at `t`, or the refund itself, and is not stale. */
  predicate Upsets(r: Refund, currency: Currency, e: Event, outcome: Status, t: Time) {
    !Matching(r, currency, e) || (Contradictory(outcome, e.status) && Counts(e, t))
  }

  lemma SettledStep(r: Refund, currency: Currency, e: Event, now: Time)
    requires RowCheck(r) && r.status in {Succeeded, Failed}
    ensures AppliedAt(r).Some?
    ensures Commit(r, currency, e, now)
      == if Upsets(r, currency, e, r.status, AppliedAt(r).value) then r.(status := UnderReview) else r
  {
  }

  lemma FrozenStep(r: Refund, currency: Currency, e: Event, now: Time)
    requires RowCheck(r) && r.status == UnderReview
    ensures Commit(r, currency, e, now) == r
  {
  }

  // ------------------------------------------------------------------------
  // Closed form
  // ------------------------------------------------------------------------

  lemma {:induction false} FrozenRun(r: Refund, currency: Currency, events: seq<Event>, clock: seq<Time>)
    requires |events| == |clock| && RowCheck(r) && r.status == UnderReview
    ensures Receive(r, currency, events, clock) == r
    decreases |events|
  {
    if events != [] {
      FrozenStep(r, currency, events[0], clock[0]);
      FrozenRun(r, currency, events[1..], clock[1..]);
    }
  }

  ghost predicate SomeUpsets(r: Refund, currency: Currency, events: seq<Event>, outcome: Status, t: Time) {
    exists e :: e in events && Upsets(r, currency, e, outcome, t)
  }

  /** A recorded outcome stands unless a later event that is not stale contradicts it. */
  lemma {:induction false} SettledRun(r: Refund, currency: Currency, events: seq<Event>, clock: seq<Time>)
    requires |events| == |clock| && RowCheck(r) && r.status in {Succeeded, Failed}
    ensures AppliedAt(r).Some?
    ensures Receive(r, currency, events, clock)
      == if SomeUpsets(r, currency, events, r.status, AppliedAt(r).value) then r.(status := UnderReview) else r
    decreases |events|
  {
    if events == [] {
      SettledStep(r, currency, Event(Succeeded, 0, currency, None), 0);
    } else {
      var rest := events[1..];
      assert events == [events[0]] + rest;
      SettledStep(r, currency, events[0], clock[0]);
      if Upsets(r, currency, events[0], r.status, AppliedAt(r).value) {
        assert events[0] in events;
        FrozenRun(r.(status := UnderReview), currency, rest, clock[1..]);
      } else {
        SettledRun(r, currency, rest, clock[1..]);
      }
    }
  }

  /** A live refund is settled or frozen by the event. */
  predicate Deciding(r: Refund, currency: Currency, e: Event) {
    !Matching(r, currency, e) || e.status in {Succeeded, Failed, UnderReview}
  }

  function FirstDeciding(r: Refund, currency: Currency, events: seq<Event>): (i: Option<nat>)
    ensures i.Some? ==> i.value < |events| && Deciding(r, currency, events[i.value])
    ensures forall k :: 0 <= k < (if i.Some? then i.value else |events|) ==> !Deciding(r, currency, events[k])
    decreases |events|
  {
    if events == [] then None
    else if Deciding(r, currency, events[0]) then Some(0)
    else
      match FirstDeciding(r, currency, events[1..])
      case None => None
      case Some(i) => Some(i + 1)
  }

  /** The status in which the refund ends. */
  function Final(r: Refund, currency: Currency, events: seq<Event>, clock: seq<Time>): Status
    requires |events| == |clock|
  {
    Receive(r, currency, events, clock).status
  }

  lemma DecidingOnly(r: Refund, after: Refund, currency: Currency, events: seq<Event>)
    requires after.amount == r.amount
    ensures FirstDeciding(after, currency, events) == FirstDeciding(r, currency, events)
    ensures forall outcome, t :: SomeUpsets(after, currency, events, outcome, t) <==> SomeUpsets(r, currency, events, outcome, t)
  {
    assert forall e :: Deciding(after, currency, e) == Deciding(r, currency, e);
    var i, j := FirstDeciding(after, currency, events), FirstDeciding(r, currency, events);
    assert forall e, outcome, t :: Upsets(after, currency, e, outcome, t) == Upsets(r, currency, e, outcome, t);
  }

  /** How a live refund ends once the event at the head decides it. */
  lemma HeadDecides(r: Refund, currency: Currency, events: seq<Event>, clock: seq<Time>)
    requires |events| == |clock| && events != [] && RowCheck(r) && Live(r) && Deciding(r, currency, events[0])
    ensures var first := events[0];
      Final(r, currency, events, clock) ==
        if !Matching(r, currency, first) || first.status == UnderReview
           || SomeUpsets(r, currency, events[1..], first.status, clock[0])
        then UnderReview else first.status
  {
    var e := events[0];
    var after := Commit(r, currency, e, clock[0]);
    LiveStep(r, currency, e, clock[0]);
    if !Matching(r, currency, e) || e.status == UnderReview {
      FrozenRun(after, currency, events[1..], clock[1..]);
    } else {
      SettledRun(after, currency, events[1..], clock[1..]);
      DecidingOnly(r, after, currency, events[1..]);
    }
  }

  /**
   * The final status of a live refund, in closed form. The first event that
   * matches and reports success or failure is recorded with the time it is
   * processed; from then on an event counts only if it mismatches the refund, or
   * contradicts the outcome and did not occur before that time.
   */
  lemma {:induction false} FinalStatus(r: Refund, currency: Currency, events: seq<Event>, clock: seq<Time>)
    requires |events| == |clock| && RowCheck(r) && Live(r)
    ensures match FirstDeciding(r, currency, events)
      case None => Final(r, currency, events, clock) in {Requested, Submitting, Processing}
      case Some(i) =>
        Final(r, currency, events, clock) ==
          if !Matching(r, currency, events[i]) || events[i].status == UnderReview
             || SomeUpsets(r, currency, events[i + 1..], events[i].status, clock[i])
          then UnderReview else events[i].status
    decreases |events|
  {
    if events != [] {
      if Deciding(r, currency, events[0]) {
        HeadDecides(r, currency, events, clock);
      } else {
        var after := Commit(r, currency, events[0], clock[0]);
        LiveStep(r, currency, events[0], clock[0]);
        FinalStatus(after, currency, events[1..], clock[1..]);
        DecidingOnly(r, after, currency, events[1..]);
        var i := FirstDeciding(r, currency, events[1..]);
        if i.Some? {
          assert events[1..][i.value + 1..] == events[i.value + 2..];
          DecidingOnly(r, after, currency, events[i.value + 2..]);
        }
      }
    }
  }

  /** So a submitted refund stays exactly as it is, whatever progress is reported after its submission. */
  lemma {:induction false} ProgressRun(r: Refund, currency: Currency, events: seq<Event>, clock: seq<Time>)
    requires |events| == |clock| && RowCheck(r) && Live(r) && FirstDeciding(r, currency, events).None?
    requires r.submittedAt.Some? && forall t :: t in clock ==> r.submittedAt.value < t
    ensures Receive(r, currency, events, clock) == r
    decreases |events|
  {
    if events != [] {
      ProgressExactly(r, currency, events[0], clock[0]);
      assert clock[0] in clock && forall t :: t in clock[1..] ==> t in clock;
      ProgressRun(r, currency, events[1..], clock[1..]);
    }
  }

  // ------------------------------------------------------------------------
  // Order of delivery
  // ------------------------------------------------------------------------

  /** Neither a success nor a failure, nor asking for review. */
  predicate Quiet(e: Event) {
    e.status !in {Succeeded, Failed, UnderReview}
  }

  ghost predicate AllMatch(r: Refund, currency: Currency, events: seq<Event>) {
    forall e :: e in events ==> Matching(r, currency, e)
  }

  ghost predicate Reports(events: seq<Event>, s: Status) {
    exists e :: e in events && e.status == s
  }

  /** The status is reported by an event that is not stale at `t`. */
  ghost predicate ReportsAt(events: seq<Event>, s: Status, t: Time) {
    exists e :: e in events && e.status == s && Counts(e, t)
  }

  ghost predicate Ascending(clock: seq<Time>) {
    forall i, j :: 0 <= i <= j < |clock| ==> clock[i] <= clock[j]
  }

  function QuietOnes(events: seq<Event>): seq<Event> {
    if events == [] then []
    else QuietOnes(events[..|events| - 1]) + if Quiet(events[|events| - 1]) then [events[|events| - 1]] else []
  }

  function LoudOnes(events: seq<Event>): seq<Event> {
    if events == [] then []
    else LoudOnes(events[..|events| - 1]) + if Quiet(events[|events| - 1]) then [] else [events[|events| - 1]]
  }

  /** Whatever the order in which the same events are processed, the refund ends alike. */
  ghost predicate OrderFree(r: Refund, currency: Currency, events: seq<Event>, clock: seq<Time>)
    requires |events| == |clock|
  {
    forall other :: multiset(other) == multiset(events) && |other| == |clock| ==>
      Final(r, currency, other, clock) == Final(r, currency, events, clock)
  }

  /** What the first event that is not quiet and the events after it make of the refund. */
  lemma FinalAt(r: Refund, currency: Currency, events: seq<Event>, clock: seq<Time>, i: nat)
    requires |events| == |clock| && RowCheck(r) && Live(r) && AllMatch(r, currency, events)
    requires i < |events| && !Quiet(events[i]) && forall k :: 0 <= k < i ==> Quiet(events[k])
    ensures Final(r, currency, events, clock) ==
      if events[i].status == UnderReview
         || exists e :: e in events[i + 1..] && Contradictory(events[i].status, e.status) && Counts(e, clock[i])
      then UnderReview else events[i].status
  {
    hide Final, RowCheck;
    FinalStatus(r, currency, events, clock);
    assert forall k :: 0 <= k < |events| ==> events[k] in events;
    var first := FirstDeciding(r, currency, events);
    assert first == Some(i);
    assert forall e :: e in events[i + 1..] ==> e in events;
  }

  lemma {:induction false} Separated(events: seq<Event>)
    ensures multiset(QuietOnes(events)) + multiset(LoudOnes(events)) == multiset(events)
    ensures |QuietOnes(events)| + |LoudOnes(events)| == |events|
    ensures (forall e :: e in QuietOnes(events) ==> Quiet(e)) && (forall e :: e in LoudOnes(events) ==> !Quiet(e))
  {
    if events != [] {
      var front, last := events[..|events| - 1], events[|events| - 1];
      Separated(front);
      assert events == front + [last];
    }
  }

  /** A reordering has the same events, and as many quiet ones. */
  lemma SameEvents(a: seq<Event>, b: seq<Event>)
    requires multiset(a) == multiset(b)
    ensures forall e :: e in a <==> e in b
    ensures |QuietOnes(a)| == |QuietOnes(b)|
  {
    hide QuietOnes;
    SameMembers(a, b);
    QuietMultiset(a);
    QuietMultiset(b);
    assert multiset(QuietOnes(a)) == multiset(QuietOnes(b));
    SameSize(QuietOnes(a), QuietOnes(b));
  }

  lemma SameSize(a: seq<Event>, b: seq<Event>)
    requires multiset(a) == multiset(b)
    ensures |a| == |b|
  {
    assert |multiset(a)| == |a| && |multiset(b)| == |b|;
  }

  lemma QuietMultiset(events: seq<Event>)
    ensures forall e :: multiset(QuietOnes(events))[e] == if Quiet(e) then multiset(events)[e] else 0
  {
    Separated(events);
    forall e ensures multiset(QuietOnes(events))[e] == if Quiet(e) then multiset(events)[e] else 0 {
      assert (multiset(QuietOnes(events)) + multiset(LoudOnes(events)))[e] == multiset(events)[e];
      if Quiet(e) { assert e !in LoudOnes(events); } else { assert e !in QuietOnes(events); }
    }
  }

  /** The first event that is not quiet comes after at most all the quiet ones. */
  lemma FirstLoud(events: seq<Event>) returns (i: nat)
    requires exists e :: e in events && !Quiet(e)
    ensures i < |events| && !Quiet(events[i]) && forall k :: 0 <= k < i ==> Quiet(events[k])
    ensures i <= |QuietOnes(events)| < |events|
  {
    var e :| e in events && !Quiet(e);
    i := 0;
    while Quiet(events[i])
      invariant i < |events| && forall k :: 0 <= k < i ==> Quiet(events[k])
      invariant exists k :: i <= k < |events| && events[k] == e
      decreases |events| - i
    {
      i := i + 1;
    }
    QuietPrefix(events, i);
    Separated(events);
    LoudKept(events, e);
  }

  lemma {:induction false} LoudKept(events: seq<Event>, e: Event)
    requires e in events && !Quiet(e)
    ensures e in LoudOnes(events)
  {
    Separated(events);
    assert e in multiset(events);
    assert e !in QuietOnes(events);
    assert e in multiset(QuietOnes(events)) + multiset(LoudOnes(events));
  }

  lemma {:induction false} QuietPrefix(events: seq<Event>, i: nat)
    requires i <= |events| && forall k :: 0 <= k < i ==> Quiet(events[k])
    ensures i <= |QuietOnes(events)|
  {
    if i < |events| {
      assert events[..|events| - 1][..i] == events[..i];
      QuietPrefix(events[..|events| - 1], i);
    } else if i > 0 {
      QuietPrefix(events[..|events| - 1], i - 1);
    }
  }

  /** The same events with all quiet ones first, and then `e`. */
  lemma QuietFirst(events: seq<Event>, e: Event) returns (other: seq<Event>, rest: seq<Event>)
    requires e in events && !Quiet(e)
    ensures other == QuietOnes(events) + [e] + rest
    ensures multiset(other) == multiset(events) && |other| == |events|
    ensures forall x :: x in rest ==> x in events && !Quiet(x)
  {
    Separated(events);
    LoudKept(events, e);
    rest := TakenOut(LoudOnes(events), e);
    other := QuietOnes(events) + [e] + rest;
    assert other == QuietOnes(events) + ([e] + rest);
    assert multiset(other) == multiset(QuietOnes(events)) + multiset([e] + rest);
    forall x | x in rest ensures x in events && !Quiet(x) {
      assert x in multiset([e] + rest);
      assert x in LoudOnes(events);
      assert x in multiset(events);
    }
  }

  /** How the refund ends when every quiet event is processed before `e`. */
  lemma QuietFirstFinal(r: Refund, currency: Currency, events: seq<Event>, clock: seq<Time>, e: Event)
      returns (other: seq<Event>)
    requires |events| == |clock| && RowCheck(r) && Live(r) && AllMatch(r, currency, events)
    requires e in events && !Quiet(e)
    ensures multiset(other) == multiset(events) && |other| == |clock| && |QuietOnes(events)| < |clock|
    ensures Final(r, currency, other, clock) in {e.status, UnderReview}
    ensures e.status == UnderReview ==> Final(r, currency, other, clock) == UnderReview
    ensures var against := if e.status == Succeeded then Failed else Succeeded;
      !ReportsAt(events, against, clock[|QuietOnes(events)|]) ==> Final(r, currency, other, clock) == e.status
  {
    hide Final, RowCheck;
    var rest;
    other, rest := QuietFirst(events, e);
    Separated(events);
    var q := |QuietOnes(events)|;
    assert other[q + 1..] == rest;
    SameEvents(other, events);
    FinalAt(r, currency, other, clock, q);
  }

  /** The condition for order independence of matching events, read off the events and the clock. */
  ghost predicate Settled(events: seq<Event>, clock: seq<Time>)
    requires |QuietOnes(events)| < |events| == |clock|
  {
    var latest := clock[|QuietOnes(events)|];
    if Reports(events, Succeeded) && Reports(events, Failed)
    then ReportsAt(events, Succeeded, latest) && ReportsAt(events, Failed, latest)
    else if Reports(events, Succeeded) || Reports(events, Failed)
    then !Reports(events, UnderReview) && !ReportsAt(events, Withdrawn, clock[0])
    else true
  }

  /** Where matching events lead in every order, if they do: one outcome, or review. */
  ghost function Verdict(events: seq<Event>): Status {
    if Reports(events, Succeeded) && !Reports(events, Failed) then Succeeded
    else if Reports(events, Failed) && !Reports(events, Succeeded) then Failed
    else UnderReview
  }

  lemma SettledAnyOrder(r: Refund, currency: Currency, events: seq<Event>, clock: seq<Time>)
    requires |events| == |clock| && RowCheck(r) && Live(r) && AllMatch(r, currency, events) && Ascending(clock)
    requires exists e :: e in events && !Quiet(e)
    requires |QuietOnes(events)| < |events| && Settled(events, clock)
    ensures Final(r, currency, events, clock) == Verdict(events)
  {
    hide Final, RowCheck, QuietOnes;
    var i := FirstLoud(events);
    FinalAt(r, currency, events, clock, i);
    var first, rest := events[i], events[i + 1..];
    assert first in events && Reports(events, first.status);
    if Reports(events, Succeeded) && Reports(events, Failed) {
      if first.status != UnderReview { OppositeCounts(events, clock, i); }
    } else if first.status != UnderReview {
      forall e | e in rest ensures !(Contradictory(first.status, e.status) && Counts(e, clock[i])) {
        assert e in events && Reports(events, e.status) && (Counts(e, clock[i]) ==> Counts(e, clock[0]));
      }
    }
  }

  /** Whichever outcome is recorded first, the other one is still to come and is not stale. */
  lemma OppositeCounts(events: seq<Event>, clock: seq<Time>, i: nat)
    requires |QuietOnes(events)| < |events| == |clock| && Ascending(clock) && i <= |QuietOnes(events)|
    requires events[i].status in {Succeeded, Failed} && forall k :: 0 <= k < i ==> Quiet(events[k])
    requires Reports(events, Succeeded) && Reports(events, Failed) && Settled(events, clock)
    ensures exists e :: e in events[i + 1..] && Contradictory(events[i].status, e.status) && Counts(e, clock[i])
  {
    hide QuietOnes;
    var against := if events[i].status == Succeeded then Failed else Succeeded;
    var e :| e in events && e.status == against && Counts(e, clock[|QuietOnes(events)|]);
    var k :| 0 <= k < |events| && events[k] == e;
    assert events[i + 1..][k - i - 1] == e;
    assert Counts(e, clock[i]);
  }

  /** Two outcomes, one of them stale by the time the other may be recorded: the order decides. */
  lemma TwoOutcomesDependOnOrder(r: Refund, currency: Currency, events: seq<Event>, clock: seq<Time>, e: Event, f: Event)
    requires |events| == |clock| && RowCheck(r) && Live(r) && AllMatch(r, currency, events)
    requires e in events && f in events && {e.status, f.status} == {Succeeded, Failed}
    requires |QuietOnes(events)| < |clock| && !ReportsAt(events, f.status, clock[|QuietOnes(events)|])
    ensures !OrderFree(r, currency, events, clock)
  {
    hide Final, RowCheck;
    var a := QuietFirstFinal(r, currency, events, clock, e);
    var b := QuietFirstFinal(r, currency, events, clock, f);
    assert Final(r, currency, a, clock) != Final(r, currency, b, clock);
  }

  /** One outcome and a cancellation that would contradict it: the cancellation is lost before it and counts after it. */
  lemma CancellationDependsOnOrder(r: Refund, currency: Currency, events: seq<Event>, clock: seq<Time>, e: Event)
    requires |events| == |clock| && RowCheck(r) && Live(r) && AllMatch(r, currency, events)
    requires e in events && e.status in {Succeeded, Failed} && ReportsAt(events, Withdrawn, clock[0])
    requires !(Reports(events, Succeeded) && Reports(events, Failed))
    ensures !OrderFree(r, currency, events, clock)
  {
    hide Final, RowCheck;
    var a := QuietFirstFinal(r, currency, events, clock, e);
    assert Final(r, currency, a, clock) == e.status;
    var rest := TakenOut(events, e);
    var b := [e] + rest;
    SameEvents(b, events);
    FinalAt(r, currency, b, clock, 0);
    var w :| w in events && w.status == Withdrawn && Counts(w, clock[0]);
    assert w in b && b[1..] == rest && w in rest;
    assert Final(r, currency, b, clock) == UnderReview;
  }

  /** One outcome and a request for review: the review freezes a live refund and is dropped after the outcome. */
  lemma ReviewDependsOnOrder(r: Refund, currency: Currency, events: seq<Event>, clock: seq<Time>, e: Event, f: Event)
    requires |events| == |clock| && RowCheck(r) && Live(r) && AllMatch(r, currency, events)
    requires e in events && e.status in {Succeeded, Failed} && f in events && f.status == UnderReview
    requires !(Reports(events, Succeeded) && Reports(events, Failed))
    ensures !OrderFree(r, currency, events, clock)
  {
    hide Final, RowCheck;
    var a := QuietFirstFinal(r, currency, events, clock, e);
    var b := QuietFirstFinal(r, currency, events, clock, f);
    assert Final(r, currency, a, clock) == e.status && Final(r, currency, b, clock) == UnderReview;
  }

  /** A mismatching event ends in review wherever it comes. */
  lemma MismatchFreezes(r: Refund, currency: Currency, events: seq<Event>, clock: seq<Time>)
    requires |events| == |clock| && RowCheck(r) && Live(r) && !AllMatch(r, currency, events)
    ensures Final(r, currency, events, clock) == UnderReview
  {
    hide Final, RowCheck;
    FinalStatus(r, currency, events, clock);
    var e :| e in events && !Matching(r, currency, e);
    var k :| 0 <= k < |events| && events[k] == e;
    assert Deciding(r, currency, events[k]);
    var i := FirstDeciding(r, currency, events).value;
    assert i <= k;
    if i < k {
      assert events[i + 1..][k - i - 1] == e;
      assert Upsets(r, currency, e, events[i].status, clock[i]);
    } else {
      assert !Matching(r, currency, events[i]);
    }
  }

  lemma MismatchOrderFree(r: Refund, currency: Currency, events: seq<Event>, clock: seq<Time>)
    requires |events| == |clock| && RowCheck(r) && Live(r) && !AllMatch(r, currency, events)
    ensures OrderFree(r, currency, events, clock)
  {
    hide Final, RowCheck;
    MismatchFreezes(r, currency, events, clock);
    forall other | multiset(other) == multiset(events) && |other| == |clock|
      ensures Final(r, currency, other, clock) == Final(r, currency, events, clock)
    {
      SameMembers(other, events);
      MismatchFreezes(r, currency, other, clock);
    }
  }

  /** The same for matching events, at least one of which is not quiet. */
  lemma MatchingOrderFree(r: Refund, currency: Currency, events: seq<Event>, clock: seq<Time>)
    requires |events| == |clock| && RowCheck(r) && Live(r) && AllMatch(r, currency, events) && Ascending(clock)
    requires exists e :: e in events && !Quiet(e)
    ensures |QuietOnes(events)| < |events|
    ensures OrderFree(r, currency, events, clock) <==> Settled(events, clock)
    ensures Settled(events, clock) ==> Final(r, currency, events, clock) == Verdict(events)
  {
    hide Final, RowCheck, QuietOnes;
    var i := FirstLoud(events);
    if Settled(events, clock) {
      SettledAnyOrder(r, currency, events, clock);
      forall other | multiset(other) == multiset(events) && |other| == |clock|
        ensures Final(r, currency, other, clock) == Final(r, currency, events, clock)
      {
        SameEvents(other, events);
        SettledAnyOrder(r, currency, other, clock);
      }
    } else {
      UnsettledDependsOnOrder(r, currency, events, clock);
    }
  }

  lemma UnsettledDependsOnOrder(r: Refund, currency: Currency, events: seq<Event>, clock: seq<Time>)
    requires |QuietOnes(events)| < |events| == |clock| && !Settled(events, clock)
    requires RowCheck(r) && Live(r) && AllMatch(r, currency, events)
    ensures !OrderFree(r, currency, events, clock)
  {
    hide Final, RowCheck, QuietOnes, OrderFree;
    var e :| e in events && e.status in {Succeeded, Failed};
    if Reports(events, Succeeded) && Reports(events, Failed) {
      var won :| won in events && won.status == Succeeded;
      var lost :| lost in events && lost.status == Failed;
      if ReportsAt(events, Failed, clock[|QuietOnes(events)|]) {
        TwoOutcomesDependOnOrder(r, currency, events, clock, lost, won);
      } else {
        TwoOutcomesDependOnOrder(r, currency, events, clock, won, lost);
      }
    } else if Reports(events, UnderReview) {
      var f :| f in events && f.status == UnderReview;
      ReviewDependsOnOrder(r, currency, events, clock, e, f);
    } else {
      CancellationDependsOnOrder(r, currency, events, clock, e);
    }
  }

  /**
   * When the order of delivery does not matter, exactly, for any events of which
   * some decides. A mismatching event makes it irrelevant. Without one: with both
   * a success and a failure reported, each must be reported by an event that
   * occurred no earlier than the latest time the other can be recorded; with one
   * of them only, no review may be asked for and no cancellation may have occurred
   * from the first processing time on; with neither, it never matters. One outcome
   * then stands, and everything else ends in review.
   */
  lemma OrderFreeExactly(r: Refund, currency: Currency, events: seq<Event>, clock: seq<Time>)
    requires |events| == |clock| && RowCheck(r) && Live(r) && Ascending(clock)
    requires exists e :: e in events && Deciding(r, currency, e)
    ensures AllMatch(r, currency, events) ==> |QuietOnes(events)| < |events|
    ensures OrderFree(r, currency, events, clock) <==> !AllMatch(r, currency, events) || Settled(events, clock)
    ensures OrderFree(r, currency, events, clock) ==>
      Final(r, currency, events, clock) == if AllMatch(r, currency, events) then Verdict(events) else UnderReview
  {
    hide Final, RowCheck, QuietOnes, OrderFree, Settled, Verdict;
    if AllMatch(r, currency, events) {
      var e :| e in events && Deciding(r, currency, e);
      assert !Quiet(e);
      MatchingOrderFree(r, currency, events, clock);
    } else {
      MismatchOrderFree(r, currency, events, clock);
      MismatchFreezes(r, currency, events, clock);
    }
  }

  // ------------------------------------------------------------------------
  // Two outcomes that never meet
  // ------------------------------------------------------------------------

  const SENT := Refund("k", 10, SelectedSeats, [1], Processing, Some(7), Some(1), None, None, None)

  /**
   * A failure that occurred at 60 and a success that occurred at 50, processed at
   * 100 and 101: whichever comes first stands, and the refund never goes under
   * review although the provider reported both.
   */
  lemma LateOutcomesDependOnOrder()
    ensures var failed, succeeded := Event(Failed, 10, EUR, Some(60)), Event(Succeeded, 10, EUR, Some(50));
      && RowCheck(SENT) && Live(SENT)
      && Final(SENT, EUR, [failed, succeeded], [100, 101]) == Failed
      && Final(SENT, EUR, [succeeded, failed], [100, 101]) == Succeeded
  {
    var failed, succeeded := Event(Failed, 10, EUR, Some(60)), Event(Succeeded, 10, EUR, Some(50));
    FinalAt(SENT, EUR, [failed, succeeded], [100, 101], 0);
    FinalAt(SENT, EUR, [succeeded, failed], [100, 101], 0);
    assert [failed, succeeded][1..] == [succeeded] && [succeeded, failed][1..] == [failed];
  }

  // ------------------------------------------------------------------------
  // Beside the payment's other refunds
  // ------------------------------------------------------------------------

  function DeliveriesTo(id: nat, events: seq<Event>, clock: seq<Time>): seq<Action>
    requires |events| == |clock|
  {
    seq(|events|, i requires 0 <= i < |events| => Action.Deliver(id, events[i], clock[i]))
  }

  /** The aggregate CHECK does not stop this refund's next event. */
  ghost predicate Room(p: Payment, id: nat) {
    Balanced(p) && id < |p.refunds| && p.refunds[id].providerId.Some?
    && (Covers(p.refunds[id]) || p.refunds[id].amount <= Remaining(CapacityOf(p)))
  }

  lemma DeliveryStep(p: Payment, id: nat, e: Event, now: Time)
    requires Room(p, id)
    ensures var after := Step(p, Action.Deliver(id, e, now));
      && after.refunds == p.refunds[id := Commit(p.refunds[id], p.currency, e, now)]
      && after.currency == p.currency && after.captured == p.captured && Room(after, id)
  {
    var a := Action.Deliver(id, e, now);
    var r := p.refunds[id];
    if RowsAccepted(p, a) {
      AggregateRefusesExactly(p, a);
      SumsAfter(p, a);
      CommittedIsCovered(p);
      CommittedIsCovered(Attempt(p, a));
      RewriteShape(r, p.currency, a);
      SumUpdate(p.refunds, id, Commit(r, p.currency, e, now), Covers);
    } else {
      assert p.refunds[id := r] == p.refunds;
    }
  }

  /** Events delivered to one live refund of a payment commit exactly as they would to that refund alone. */
  lemma {:induction false} DeliveriesCommit(p: Payment, id: nat, events: seq<Event>, clock: seq<Time>)
    requires |events| == |clock| && Room(p, id)
    ensures Run(p, DeliveriesTo(id, events, clock)).refunds
      == p.refunds[id := Receive(p.refunds[id], p.currency, events, clock)]
    decreases |events|
  {
    var actions := DeliveriesTo(id, events, clock);
    if events != [] {
      hide Room, Step, Commit;
      DeliveryStep(p, id, events[0], clock[0]);
      var after := Step(p, actions[0]);
      DeliveriesCommit(after, id, events[1..], clock[1..]);
      assert actions[1..] == DeliveriesTo(id, events[1..], clock[1..]);
    } else {
      assert p.refunds[id := p.refunds[id]] == p.refunds;
    }
  }
}
