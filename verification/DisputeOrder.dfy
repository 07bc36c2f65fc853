/**
 * Whether the order in which a dispute's events arrive matters: exactly when it
 * does if each event is processed once, and never once every event has been
 * delivered again until it committed.
 */
module DisputeOrder {
  import opened Common
  import opened Disputes

  ghost predicate Reports(events: seq<Event>, s: Status) {
    exists e :: e in events && e.status == s
  }

  /** No event is passed over for its amount: the dispute is open, or any of them could open it. */
  ghost predicate AllEnter(d: Desk, open: bool, events: seq<Event>) {
    forall e :: e in events ==> Enters(d.captured, open, e)
  }

  /** Some event wins, loses or freezes a live dispute. */
  ghost predicate Decides(events: seq<Event>) {
    Reports(events, Won) || Reports(events, Lost) || Reports(events, RequiresReview)
  }

  /** A review or two opposite outcomes end in review however they come; one outcome stands unless CLOSED is reported too. */
  ghost predicate Conclusive(events: seq<Event>) {
    Reports(events, RequiresReview) || (Reports(events, Won) && Reports(events, Lost)) || !Reports(events, Closed)
  }

  ghost function Verdict(events: seq<Event>): Status {
    if Reports(events, RequiresReview) || (Reports(events, Won) && Reports(events, Lost)) then RequiresReview
    else if Reports(events, Won) then Won
    else Lost
  }

  // ------------------------------------------------------------------------
  // Each event processed once
  // ------------------------------------------------------------------------

  lemma {:induction false} DecisiveExists(d: Desk, open: bool, events: seq<Event>)
    requires AllEnter(d, open, events)
    ensures match FirstDecisive(d.captured, open, events)
      case None => !Decides(events)
      case Some(i) => events[i].status in {Won, Lost, RequiresReview}
                      && forall k :: 0 <= k < i ==> events[k].status !in {Won, Lost, RequiresReview}
    decreases |events|
  {
    if events != [] {
      assert events[0] in events && events == [events[0]] + events[1..];
      DecisiveExists(d, open || events[0].status != Closed, events[1..]);
    }
  }

  /** An event at or before the first decisive one does not decide, unless it is that one. */
  lemma AfterFirst(events: seq<Event>, i: nat, s: Status)
    requires i < |events| && forall k :: 0 <= k < i ==> events[k].status !in {Won, Lost, RequiresReview}
    requires s in {Won, Lost, RequiresReview} && s != events[i].status && Reports(events, s)
    ensures Reports(events[i + 1..], s)
  {
    var e :| e in events && e.status == s;
    var k :| 0 <= k < |events| && events[k] == e;
    assert events[i + 1..][k - i - 1] == e;
  }

  lemma FromReports(d: Desk, events: seq<Event>)
    requires Books(d) && !Decided(d) && AllEnter(d, d.dispute.Some?, events)
    requires Decides(events) && Conclusive(events)
    ensures StatusOf(Run(d, events)) == Some(Verdict(events))
  {
    hide Books, Run, AllEnter;
    FinalStatus(d, events);
    DecisiveExists(d, d.dispute.Some?, events);
    var i := FirstDecisive(d.captured, d.dispute.Some?, events).value;
    var first, rest := events[i].status, events[i + 1..];
    assert events[i] in events && Reports(events, first);
    if first != RequiresReview {
      var other := if first == Won then Lost else Won;
      if Reports(events, RequiresReview) {
        AfterFirst(events, i, RequiresReview);
      } else if Reports(events, other) {
        AfterFirst(events, i, other);
      } else {
        assert forall e :: e in rest ==> e in events;
      }
    }
  }

  /** What is reported decides, whatever the order and the repetitions, as long as it is conclusive. */
  lemma OrderIndependent(d: Desk, first: seq<Event>, second: seq<Event>)
    requires Books(d) && !Decided(d)
    requires AllEnter(d, d.dispute.Some?, first) && AllEnter(d, d.dispute.Some?, second)
    requires forall s :: s in {Won, Lost, RequiresReview, Closed} ==> (Reports(first, s) <==> Reports(second, s))
    requires Decides(first) && Conclusive(first)
    ensures StatusOf(Run(d, first)) == StatusOf(Run(d, second)) == Some(Verdict(first))
  {
    FromReports(d, first);
    FromReports(d, second);
  }

  /** Whatever the order in which the same events are processed, the dispute ends alike. */
  ghost predicate OrderFree(d: Desk, events: seq<Event>) {
    forall other :: multiset(other) == multiset(events) ==> StatusOf(Run(d, other)) == StatusOf(Run(d, events))
  }

  lemma SameReports(d: Desk, a: seq<Event>, b: seq<Event>)
    requires multiset(a) == multiset(b) && AllEnter(d, d.dispute.Some?, a)
    ensures AllEnter(d, d.dispute.Some?, b) && forall s :: Reports(a, s) <==> Reports(b, s)
  {
    SameMembers(a, b);
  }

  function Without(events: seq<Event>, s: Status): seq<Event> {
    if events == [] then []
    else Without(events[..|events| - 1], s) + if events[|events| - 1].status == s then [] else [events[|events| - 1]]
  }

  function Only(events: seq<Event>, s: Status): seq<Event> {
    if events == [] then []
    else Only(events[..|events| - 1], s) + if events[|events| - 1].status == s then [events[|events| - 1]] else []
  }

  lemma {:induction false} SortedStatuses(events: seq<Event>, s: Status)
    ensures forall e :: e in Only(events, s) ==> e.status == s
    ensures forall e :: e in Without(events, s) ==> e.status != s
  {
    if events != [] { SortedStatuses(events[..|events| - 1], s); }
  }

  lemma {:induction false} SortedMultiset(events: seq<Event>, s: Status)
    ensures multiset(Only(events, s)) + multiset(Without(events, s)) == multiset(events)
  {
    if events != [] {
      var front, last := events[..|events| - 1], events[|events| - 1];
      SortedMultiset(front, s);
      assert multiset(events) == multiset(front) + multiset{last} by { assert events == front + [last]; }
      if last.status == s {
        assert multiset(Only(events, s)) == multiset(Only(front, s)) + multiset{last};
      } else {
        assert multiset(Without(events, s)) == multiset(Without(front, s)) + multiset{last};
      }
    }
  }

  /** What follows an element of the second part lies in the second part. */
  lemma LaterPart(first: seq<Event>, second: seq<Event>, i: nat)
    requires |first| <= i < |first| + |second|
    ensures forall e :: e in (first + second)[i + 1..] ==> e in second
  {
    assert (first + second)[i + 1..] == second[i + 1 - |first|..];
  }

  /** CLOSED events processed before the outcome are lost, and it stands. */
  lemma ClosedFirst(d: Desk, events: seq<Event>) returns (other: seq<Event>)
    requires Books(d) && !Decided(d) && AllEnter(d, d.dispute.Some?, events)
    requires Decides(events) && !Conclusive(events)
    ensures multiset(other) == multiset(events) && StatusOf(Run(d, other)) == Some(Verdict(events)) != Some(RequiresReview)
  {
    hide Books, Run, AllEnter, Only, Without, FirstDecisive;
    var closed, rest := Only(events, Closed), Without(events, Closed);
    SortedStatuses(events, Closed);
    SortedMultiset(events, Closed);
    other := closed + rest;
    SameReports(d, events, other);
    FinalStatus(d, other);
    DecisiveExists(d, d.dispute.Some?, other);
    var i := FirstDecisive(d.captured, d.dispute.Some?, other).value;
    assert Reports(other, other[i].status) by { assert other[i] in other; }
    assert forall k :: 0 <= k < |closed| ==> other[k] == closed[k] && closed[k] in closed;
    LaterPart(closed, rest, i);
    assert forall e :: e in rest ==> e in other && Reports(other, e.status);
  }

  /** Processed after the outcome, they freeze the dispute. */
  lemma OutcomeFirst(d: Desk, events: seq<Event>) returns (other: seq<Event>)
    requires Books(d) && !Decided(d) && AllEnter(d, d.dispute.Some?, events)
    requires Decides(events) && !Conclusive(events)
    ensures multiset(other) == multiset(events) && StatusOf(Run(d, other)) == Some(RequiresReview)
  {
    hide Books, Run, AllEnter;
    var e :| e in events && e.status in {Won, Lost};
    var rest := TakenOut(events, e);
    other := [e] + rest;
    SameReports(d, events, other);
    SameMembers(events, other);
    FinalStatus(d, other);
    DecisiveExists(d, d.dispute.Some?, other);
    assert other[0] == e && other[1..] == rest;
    var c :| c in other && c.status == Closed;
    assert c in rest;
  }

  // ------------------------------------------------------------------------
  // Without a decision
  // ------------------------------------------------------------------------

  /** A live dispute shows the last status it was given; CLOSED gives none. */
  function LastGiven(current: Option<Status>, events: seq<Event>): Option<Status>
    decreases |events|
  {
    if events == [] then current
    else LastGiven(if events[0].status == Closed then current else Some(events[0].status), events[1..])
  }

  lemma {:induction false} UndecidedRun(d: Desk, events: seq<Event>)
    requires Books(d) && !Decided(d) && AllEnter(d, d.dispute.Some?, events) && !Decides(events)
    ensures StatusOf(Run(d, events)) == LastGiven(StatusOf(d), events)
    decreases |events|
  {
    hide Books, Step;
    if events != [] {
      assert events[0] in events && Reports(events, events[0].status) && forall e :: e in events[1..] ==> e in events;
      LiveStep(d, events[0]);
      UndecidedRun(Step(d, events[0]), events[1..]);
    }
  }

  lemma {:induction false} GivenLast(current: Option<Status>, events: seq<Event>, e: Event)
    requires e.status != Closed
    ensures LastGiven(current, events + [e]) == Some(e.status)
    decreases |events|
  {
    if events == [] {
      assert [e][1..] == [];
    } else {
      assert (events + [e])[1..] == events[1..] + [e];
      GivenLast(if events[0].status == Closed then current else Some(events[0].status), events[1..], e);
    }
  }

  /** All events that are not CLOSED report one status. */
  ghost predicate Unanimous(events: seq<Event>) {
    forall e, f :: e in events && f in events && e.status != Closed && f.status != Closed ==> e.status == f.status
  }

  lemma {:induction false} GivenOne(current: Option<Status>, events: seq<Event>, s: Status)
    requires forall e :: e in events ==> e.status in {s, Closed}
    ensures LastGiven(current, events) == if Reports(events, s) && s != Closed then Some(s) else current
    decreases |events|
  {
    if events != [] {
      assert events[0] in events && events == [events[0]] + events[1..];
      GivenOne(if events[0].status == Closed then current else Some(events[0].status), events[1..], s);
    }
  }

  lemma UnanimousGives(current: Option<Status>, a: seq<Event>, b: seq<Event>)
    requires multiset(a) == multiset(b) && Unanimous(a)
    ensures LastGiven(current, a) == LastGiven(current, b)
  {
    SameMembers(a, b);
    var s := if e :| e in a && e.status != Closed then e.status else Closed;
    GivenOne(current, a, s);
    GivenOne(current, b, s);
  }

  lemma DividedDependsOnOrder(d: Desk, events: seq<Event>)
    requires Books(d) && !Decided(d) && AllEnter(d, d.dispute.Some?, events) && !Decides(events) && !Unanimous(events)
    ensures !OrderFree(d, events)
  {
    hide Books, Run, AllEnter;
    var e, f :| e in events && f in events && e.status != Closed && f.status != Closed && e.status != f.status;
    var a := EndsWith(d, events, e);
    var b := EndsWith(d, events, f);
  }

  lemma EndsWith(d: Desk, events: seq<Event>, e: Event) returns (other: seq<Event>)
    requires Books(d) && !Decided(d) && AllEnter(d, d.dispute.Some?, events) && !Decides(events)
    requires e in events && e.status != Closed
    ensures multiset(other) == multiset(events) && StatusOf(Run(d, other)) == Some(e.status)
  {
    hide Books, Run, AllEnter;
    var rest := TakenOut(events, e);
    other := rest + [e];
    SameReports(d, events, other);
    UndecidedRun(d, other);
    GivenLast(StatusOf(d), rest, e);
  }

  // ------------------------------------------------------------------------
  // The exact condition
  // ------------------------------------------------------------------------

  ghost predicate Settled(events: seq<Event>) {
    if Decides(events) then Conclusive(events) else Unanimous(events)
  }

  lemma SettledAnyOrder(d: Desk, events: seq<Event>, other: seq<Event>)
    requires Books(d) && !Decided(d) && AllEnter(d, d.dispute.Some?, events) && Settled(events)
    requires multiset(other) == multiset(events)
    ensures StatusOf(Run(d, other)) == StatusOf(Run(d, events))
  {
    hide Books, Run, AllEnter, Unanimous;
    SameReports(d, events, other);
    if Decides(events) {
      OrderIndependent(d, events, other);
    } else {
      UndecidedRun(d, events);
      UndecidedRun(d, other);
      UnanimousGives(StatusOf(d), events, other);
    }
  }

  /**
   * When the order of a live dispute's events does not matter, exactly. If any of
   * them decides: when a review is asked for, or both outcomes are reported, or no
   * CLOSED event is. If none does: when all but the CLOSED ones report one status.
   */
  lemma OrderFreeExactly(d: Desk, events: seq<Event>)
    requires Books(d) && !Decided(d) && AllEnter(d, d.dispute.Some?, events)
    ensures OrderFree(d, events) <==> Settled(events)
    ensures OrderFree(d, events) && Decides(events) ==> StatusOf(Run(d, events)) == Some(Verdict(events))
  {
    hide Books, Run, AllEnter, Unanimous;
    if Settled(events) {
      forall other | multiset(other) == multiset(events)
        ensures StatusOf(Run(d, other)) == StatusOf(Run(d, events))
      {
        SettledAnyOrder(d, events, other);
      }
      if Decides(events) { FromReports(d, events); }
    } else if Decides(events) {
      var a := ClosedFirst(d, events);
      var b := OutcomeFirst(d, events);
    } else {
      DividedDependsOnOrder(d, events);
    }
  }

  /** A CLOSED event is order-dependent: it is lost before the outcome and freezes the dispute after it. */
  lemma ClosedDependsOnOrder()
    ensures exists d: Desk, won: Event, closed: Event :: (
      && Books(d) && won.status == Won && closed.status == Closed
      && StatusOf(Step(Step(d, closed), won)) == Some(Won)
      && StatusOf(Step(Step(d, won), closed)) == Some(RequiresReview))
  {
    var d := Desk(10, 0, true, None, [], [], NoReview);
    var won, closed := Event(1, Won, 10, 0), Event(2, Closed, 10, 0);
    assert Books(d);
    assert StatusOf(Step(Step(d, closed), won)) == Some(Won);
    assert StatusOf(Step(Step(d, won), closed)) == Some(RequiresReview);
  }

  // ------------------------------------------------------------------------
  // Each event delivered until it commits
  // ------------------------------------------------------------------------

  /** `done` are the webhook records marked processed, with the status each carries. */
  datatype Inbox = Inbox(desk: Desk, done: map<nat, Status>)

  /** One delivery: a processed record is left alone, and one whose transaction aborts stays unprocessed. */
  function Receive(s: Inbox, e: Event): Inbox {
    if e.webhook in s.done then s
    else
      match ApplyEvent(s.desk, e)
      case None => s
      case Some(after) => Inbox(after, s.done[e.webhook := e.status])
  }

  function ReceiveAll(s: Inbox, deliveries: seq<Event>): Inbox
    decreases |deliveries|
  {
    if deliveries == [] then s else ReceiveAll(Receive(s, deliveries[0]), deliveries[1..])
  }

  /** Deliveries of one record carry one status. */
  ghost predicate SameRecords(deliveries: seq<Event>) {
    forall e, f :: e in deliveries && f in deliveries && e.webhook == f.webhook ==> e.status == f.status
  }

  ghost predicate Committed(s: Inbox, status: Status) {
    exists w :: w in s.done && s.done[w] == status
  }

  /** The dispute's status says which deciding statuses have committed: a CLOSED event commits only over a decision. */
  ghost predicate InboxOk(s: Inbox) {
    && Books(s.desk)
    && (Decided(s.desk) <==> Committed(s, Won) || Committed(s, Lost) || Committed(s, RequiresReview))
    && (Committed(s, Closed) ==> Decided(s.desk))
    && (Decided(s.desk) ==>
          StatusOf(s.desk) == Some(
            if Committed(s, RequiresReview) || Committed(s, Closed) || (Committed(s, Won) && Committed(s, Lost))
            then RequiresReview
            else if Committed(s, Won) then Won
            else Lost))
  }

  lemma CommitAdds(s: Inbox, e: Event, status: Status)
    requires e.webhook !in s.done && ApplyEvent(s.desk, e).Some?
    ensures Committed(Receive(s, e), status) <==> Committed(s, status) || status == e.status
  {
    var after := Receive(s, e);
    if w :| w in s.done && s.done[w] == status { assert w in after.done && after.done[w] == status; }
    assert e.webhook in after.done && after.done[e.webhook] == e.status;
  }

  /** What committing an event does to the status. */
  lemma CommitStatus(d: Desk, e: Event)
    requires Books(d) && ApplyEvent(d, e).Some?
    ensures Books(Step(d, e)) && (!Decided(d) ==> e.status != Closed)
    ensures StatusOf(Step(d, e)) ==
      if !Decided(d) then Some(e.status)
      else if StatusOf(d) == Some(RequiresReview) then StatusOf(d)
      else if (Terminal(e.status) || e.status == RequiresReview) && StatusOf(d) != Some(e.status) then Some(RequiresReview)
      else StatusOf(d)
  {
    StepKeepsBooks(d, e);
  }

  lemma ReceiveKeepsOk(s: Inbox, e: Event)
    requires InboxOk(s)
    ensures InboxOk(Receive(s, e))
  {
    hide Books, Step, ApplyEvent, Committed;
    if e.webhook !in s.done && ApplyEvent(s.desk, e).Some? {
      CommitStatus(s.desk, e);
      assert Receive(s, e).desk == Step(s.desk, e) by { ReceiveIsStep(s, e); }
      CommitAdds(s, e, Won);
      CommitAdds(s, e, Lost);
      CommitAdds(s, e, RequiresReview);
      CommitAdds(s, e, Closed);
    }
  }

  lemma ReceiveIsStep(s: Inbox, e: Event)
    requires e.webhook !in s.done && ApplyEvent(s.desk, e).Some?
    ensures Receive(s, e).desk == Step(s.desk, e)
  {
  }

  /** Every processed record was delivered, with the status it carries. */
  ghost predicate FromDeliveries(s: Inbox, deliveries: seq<Event>) {
    forall w :: w in s.done ==> exists e :: e in deliveries && e.webhook == w && e.status == s.done[w]
  }

  lemma {:induction false} ReceiveAllKeepsOk(s: Inbox, deliveries: seq<Event>, all: seq<Event>)
    requires InboxOk(s) && FromDeliveries(s, all) && forall e :: e in deliveries ==> e in all
    ensures InboxOk(ReceiveAll(s, deliveries)) && FromDeliveries(ReceiveAll(s, deliveries), all)
    decreases |deliveries|
  {
    if deliveries != [] {
      hide InboxOk;
      var e := deliveries[0];
      assert e in deliveries && forall f :: f in deliveries[1..] ==> f in deliveries;
      ReceiveKeepsOk(s, e);
      FromOneMore(s, e, all);
      ReceiveAllKeepsOk(Receive(s, e), deliveries[1..], all);
    }
  }

  lemma FromOneMore(s: Inbox, e: Event, all: seq<Event>)
    requires FromDeliveries(s, all) && e in all
    ensures FromDeliveries(Receive(s, e), all)
  {
    hide ApplyEvent;
    var after := Receive(s, e);
    forall w | w in after.done ensures exists f :: f in all && f.webhook == w && f.status == after.done[w] {
      if w in s.done && after.done[w] == s.done[w] {
        var f :| f in all && f.webhook == w && f.status == s.done[w];
      } else {
        assert w == e.webhook && after.done[w] == e.status;
      }
    }
  }

  /**
   * Once every delivered event has committed, however often and in whatever order
   * they were delivered, the dispute's status follows from what was reported: the
   * order never matters, and a CLOSED event always ends in review.
   */
  lemma RedeliveryDecides(d: Desk, deliveries: seq<Event>)
    requires Books(d) && !Decided(d) && SameRecords(deliveries)
    requires var end := ReceiveAll(Inbox(d, map[]), deliveries); forall e :: e in deliveries ==> e.webhook in end.done
    requires Decides(deliveries) || Reports(deliveries, Closed)
    ensures StatusOf(ReceiveAll(Inbox(d, map[]), deliveries).desk) ==
      Some(if Reports(deliveries, Closed) then RequiresReview else Verdict(deliveries))
  {
    hide Books, ReceiveAll;
    var end := ReceiveAll(Inbox(d, map[]), deliveries);
    ReceiveAllKeepsOk(Inbox(d, map[]), deliveries, deliveries);
    forall s ensures Committed(end, s) <==> Reports(deliveries, s) { CommittedIsReported(end, deliveries, s); }
  }

  lemma CommittedIsReported(end: Inbox, deliveries: seq<Event>, s: Status)
    requires FromDeliveries(end, deliveries) && SameRecords(deliveries)
    requires forall e :: e in deliveries ==> e.webhook in end.done
    ensures Committed(end, s) <==> Reports(deliveries, s)
  {
    if w :| w in end.done && end.done[w] == s {
      var e :| e in deliveries && e.webhook == w && e.status == end.done[w];
      assert Reports(deliveries, s);
    }
    if e :| e in deliveries && e.status == s {
      var f :| f in deliveries && f.webhook == e.webhook && f.status == end.done[e.webhook];
      assert Committed(end, s);
    }
  }
}
