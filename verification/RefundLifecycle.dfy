/** What a verified provider event does to the status of one refund. */
module RefundLifecycle {
  import opened Common

  datatype Status = Requested | Submitting | Processing | Succeeded | Failed | Withdrawn | UnderReview

  datatype Decision = Advance(status: Status) | Ignore | Escalate

  predicate Terminal(s: Status) {
    s in {Succeeded, Failed, Withdrawn}
  }

  /** Money is still reserved against the payment. */
  predicate InFlight(s: Status) {
    s in {Requested, Submitting, Processing, UnderReview}
  }

  predicate Contradictory(current: Status, incoming: Status) {
    Terminal(current) && Terminal(incoming) && current != incoming
  }

  /** decideRefundTransition. */
  function Decide(current: Status, incoming: Status): Decision {
    if current == UnderReview then Ignore
    else if current == incoming then Ignore
    else if Contradictory(current, incoming) then Escalate
    else if Terminal(current) then Ignore
    else if incoming == UnderReview then Escalate
    else if incoming == Requested then Ignore
    else Advance(incoming)
  }

  function After(current: Status, incoming: Status): Status {
    match Decide(current, incoming)
    case Advance(status) => status
    case Ignore => current
    case Escalate => UnderReview
  }

  /** isStaleProviderEvent. */
  predicate Stale(lastApplied: Option<Time>, occurred: Option<Time>) {
    lastApplied.Some? && occurred.Some? && occurred.value < lastApplied.value
  }

  // ------------------------------------------------------------------------
  // The decision alone, over sequences of events
  //
  // These lemmas fold the decision over the statuses reported, as its callers may
  // rely on it. The service drops stale events before deciding and its rows are
  // checked afterwards: what a refund ends as there is RefundOutcomes.FinalStatus.
  // ------------------------------------------------------------------------

  function Deliver(current: Status, events: seq<Status>): Status
    decreases |events|
  {
    if events == [] then current else Deliver(After(current, events[0]), events[1..])
  }

  /** The terminal outcomes the provider ever reports. */
  function Outcomes(events: seq<Status>): set<Status> {
    set s | s in events && Terminal(s)
  }

  /** The first event that settles or freezes a live refund. */
  function FirstDecisive(events: seq<Status>): Option<Status>
    decreases |events|
  {
    if events == [] then None
    else if Terminal(events[0]) || events[0] == UnderReview then Some(events[0])
    else FirstDecisive(events[1..])
  }

  lemma {:induction false} ReviewIsFinal(events: seq<Status>)
    ensures Deliver(UnderReview, events) == UnderReview
    decreases |events|
  {
    if events != [] { ReviewIsFinal(events[1..]); }
  }

  /** Decided event by event, a settled refund keeps its outcome until another is reported, and then freezes. */
  lemma {:induction false} SettledDelivery(outcome: Status, events: seq<Status>)
    requires Terminal(outcome)
    ensures Deliver(outcome, events) == if Outcomes(events) <= {outcome} then outcome else UnderReview
    decreases |events|
  {
    if events != [] {
      var rest := events[1..];
      assert events == [events[0]] + rest;
      assert Outcomes(events) == (if Terminal(events[0]) then {events[0]} else {}) + Outcomes(rest);
      if After(outcome, events[0]) == UnderReview {
        ReviewIsFinal(rest);
        assert events[0] in Outcomes(events);
      } else {
        SettledDelivery(outcome, rest);
      }
    }
  }

  /** Where the decisions lead a live refund, in closed form, for every sequence of statuses. */
  lemma {:induction false} DeliveryOutcome(current: Status, events: seq<Status>)
    requires !Terminal(current) && current != UnderReview
    ensures match FirstDecisive(events)
      case None => !Terminal(Deliver(current, events)) && Deliver(current, events) != UnderReview
      case Some(first) =>
        Deliver(current, events) == if Outcomes(events) == {first} then first else UnderReview
    decreases |events|
  {
    if events != [] {
      var rest := events[1..];
      assert events == [events[0]] + rest;
      assert Outcomes(events) == (if Terminal(events[0]) then {events[0]} else {}) + Outcomes(rest);
      if Terminal(events[0]) {
        SettledDelivery(events[0], rest);
      } else if events[0] == UnderReview {
        ReviewIsFinal(rest);
        assert forall s :: s in Outcomes(events) ==> Terminal(s);
        assert UnderReview in {UnderReview};
      } else {
        DeliveryOutcome(After(current, events[0]), rest);
      }
    }
  }

  lemma {:induction false} DecisiveIsAnOutcome(events: seq<Status>)
    requires UnderReview !in events && Outcomes(events) != {}
    ensures FirstDecisive(events).Some? && FirstDecisive(events).value in Outcomes(events)
    decreases |events|
  {
    var rest := events[1..];
    if !Terminal(events[0]) {
      assert events == [events[0]] + rest;
      assert Outcomes(events) == Outcomes(rest);
      DecisiveIsAnOutcome(rest);
    }
  }

  /**
   * Without review events, decisions over any two deliveries that report the same
   * outcomes, at least one, lead to the same status, whatever their order and
   * repetitions: to the one outcome, or to review when there are several.
   */
  lemma OrderIndependent(a: Status, b: Status, first: seq<Status>, second: seq<Status>)
    requires !Terminal(a) && a != UnderReview && !Terminal(b) && b != UnderReview
    requires UnderReview !in first && UnderReview !in second
    requires Outcomes(first) == Outcomes(second) != {}
    ensures Deliver(a, first) == Deliver(b, second)
    ensures |Outcomes(first)| == 1 ==> Outcomes(first) == {Deliver(a, first)}
    ensures |Outcomes(first)| > 1 ==> Deliver(a, first) == UnderReview
  {
    DeliveryOutcome(a, first);
    DeliveryOutcome(b, second);
    DecisiveIsAnOutcome(first);
    DecisiveIsAnOutcome(second);
    var s := FirstDecisive(first).value;
    if |Outcomes(first)| == 1 { SubsetOfSameSize({s}, Outcomes(first)); }
  }

  /** A review event is order-dependent even so: before the outcome it freezes the refund, after it it is dropped. */
  lemma ReviewEventsDependOnOrder()
    ensures Deliver(Processing, [UnderReview, Succeeded]) == UnderReview
    ensures Deliver(Processing, [Succeeded, UnderReview]) == Succeeded
  {
    assert [UnderReview, Succeeded][1..] == [Succeeded] && [Succeeded][1..] == [];
    assert [Succeeded, UnderReview][1..] == [UnderReview] && [UnderReview][1..] == [];
  }
}
