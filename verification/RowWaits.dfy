/**
 * Who waits for whom among the transactions of RowLocks, for hold rows as well
 * as inventory rows, and when they can come to a standstill.
 */
module RowWaits {
  import opened Common
  import opened RowLocks

  datatype Item = HoldItem(hold: HoldId) | RowItem(row: RowId)

  /** Inventory rows of the holds it is ending that it has not locked yet. */
  function Unlocked(t: Tables, x: Txn): set<RowId>
    requires x.next <= |x.order|
  {
    set r | 0 <= r < |t.rows| && OwnedBy(t.rows[r], x.holds) && r !in Locks(x)
  }

  /** The snapshot's active holds a cancellation still has to update. */
  function LeftToCancel(x: Txn): set<HoldId>
    requires x.kind.Cancel?
  {
    ActiveOn(x.kind.snapshot, x.kind.sessions) - x.holds
  }

  /** What the transaction's current statement still needs. */
  function Wants(t: Tables, x: Txn): set<Item>
    requires x.next <= |x.order|
  {
    if x.kind.Cancel? then
      if x.next < |x.order| then {RowItem(x.order[x.next])} else set h | h in LeftToCancel(x) :: HoldItem(h)
    else if x.kind.Visit? then
      if x.kind.hold !in x.holds then {HoldItem(x.kind.hold)}
      else if x.next < |x.order| then {RowItem(x.order[x.next])}
      else {}
    else if Pending(t, x) != {} then set h | h in Pending(t, x) :: HoldItem(h)
    else if Unlocked(t, x) != {} then set r | r in Unlocked(t, x) :: RowItem(r)
    else if x.next < |x.order| then {RowItem(x.order[x.next])}
    else {}
  }

  predicate Has(x: Txn, item: Item)
    requires x.next <= |x.order|
  {
    match item
    case HoldItem(h) => h in x.holds
    case RowItem(r) => r in Locks(x)
  }

  /** The current statement of `a` needs something that `b` has locked. */
  ghost predicate Waits(s: Sys, a: TxnId, b: TxnId) {
    && a in s.txns && b in s.txns && a != b
    && s.txns[a].next <= |s.txns[a].order| && s.txns[b].next <= |s.txns[b].order|
    && exists item :: item in Wants(s.tables, s.txns[a]) && Has(s.txns[b], item)
  }

  ghost predicate Waiting(s: Sys, a: TxnId) {
    exists b :: Waits(s, a, b)
  }

  /**
   * The transaction is going to throw: a row or hold it read has been updated
   * since its snapshot, or the seats it locked are not for sale.
   */
  ghost predicate Doomed(s: Sys, id: TxnId) {
    && id in s.txns
    && var x := s.txns[id];
       match x.kind
       case Cancel(_, snapshot) =>
         if x.next < |x.order| then !Unchanged(s.tables, snapshot, x.order[x.next])
         else exists h :: h in LeftToCancel(x) && !(h < |s.tables.holds| && s.tables.holds[h].active)
       case Acquire(session) =>
         x.next == |x.order| && !x.decided
         && (session in s.tables.cancelled
             || exists r :: r in x.order && !(r < |s.tables.rows| && Open(s.tables.rows[r], x.holds)))
       case _ => false
  }

  /** Some step of the transaction is possible and changes the state; it aborts only if it has to throw. */
  ghost predicate Moves(s: Sys, id: TxnId) {
    exists step: Step :: step.id == id && !step.Begin? && Enabled(s, step) && Next(s, step) != s
      && (step.Abort? ==> Doomed(s, id))
  }

  /** While transactions run, one of them can go on. */
  ghost predicate Lively(s: Sys) {
    s.txns.Keys != {} ==> exists id :: id in s.txns && Moves(s, id)
  }

  // ------------------------------------------------------------------------
  // Who does not wait can go on
  // ------------------------------------------------------------------------

  lemma FreeItem(s: Sys, id: TxnId, item: Item)
    requires Inv(s) && id in s.txns && !Waiting(s, id) && item in Wants(s.tables, s.txns[id])
    ensures match item
      case HoldItem(h) => !HoldTakenByOther(s, id, h)
      case RowItem(r) => !RowTakenByOther(s, id, r)
  {
    forall u | u in s.txns && u != id ensures !Has(s.txns[u], item) {
      assert TxnOk(s.tables, s.txns[u]) && !Waits(s, id, u);
    }
  }

  lemma CancelCanMove(s: Sys, id: TxnId)
    requires Inv(s) && id in s.txns && s.txns[id].kind.Cancel? && !Waiting(s, id)
    ensures Moves(s, id)
  {
    var x := s.txns[id];
    assert TxnOk(s.tables, x);
    if Doomed(s, id) {
      var step := Abort(id);
      assert Enabled(s, step) && id !in Next(s, step).txns;
    } else if x.next < |x.order| {
      FreeItem(s, id, RowItem(x.order[x.next]));
      var step := LockNext(id);
      CancelLocksNext(s, id);
      assert Next(s, step).txns[id].next == x.next + 1;
    } else {
      CancelFinishes(s, id);
    }
  }

  /** With all its rows locked it updates the next hold or commits. */
  lemma CancelFinishes(s: Sys, id: TxnId)
    requires Inv(s) && id in s.txns && s.txns[id].kind.Cancel? && !Waiting(s, id) && !Doomed(s, id)
    requires s.txns[id].next == |s.txns[id].order|
    ensures Moves(s, id)
  {
    hide TablesOk, OrderOk, PlanOk, Since, Pending, CommitTables;
    var x := s.txns[id];
    var held := ActiveOn(x.kind.snapshot, x.kind.sessions);
    assert TxnOk(s.tables, x) && x.holds <= held;
    if h :| h in LeftToCancel(x) {
      FreeItem(s, id, HoldItem(h));
      var step := TakeHold(id, h);
      assert Enabled(s, step) && h in Next(s, step).txns[id].holds;
    } else {
      forall h | h in held ensures h in x.holds { assert h !in LeftToCancel(x); }
      assert x.holds == held;
      var step := Commit(id);
      assert Enabled(s, step) && id !in Next(s, step).txns;
    }
  }

  lemma CancelLocksNext(s: Sys, id: TxnId)
    requires Inv(s) && id in s.txns && s.txns[id].kind.Cancel? && !Doomed(s, id)
    requires s.txns[id].next < |s.txns[id].order| && !RowTakenByOther(s, id, s.txns[id].order[s.txns[id].next])
    ensures Enabled(s, LockNext(id))
  {
    var x := s.txns[id];
    assert TxnOk(s.tables, x);
  }

  lemma VisitCanMove(s: Sys, id: TxnId)
    requires Inv(s) && id in s.txns && s.txns[id].kind.Visit? && !Waiting(s, id)
    ensures Moves(s, id)
  {
    var x := s.txns[id];
    var hold := x.kind.hold;
    assert TxnOk(s.tables, x);
    if hold !in x.holds {
      FreeItem(s, id, HoldItem(hold));
      var step := TakeHold(id, hold);
      assert Enabled(s, step) && hold in Next(s, step).txns[id].holds;
    } else if x.next < |x.order| {
      FreeItem(s, id, RowItem(x.order[x.next]));
      var step := LockNext(id);
      assert Enabled(s, step) && Next(s, step).txns[id].next == x.next + 1;
    } else {
      var step := Commit(id);
      assert Enabled(s, step) && id !in Next(s, step).txns;
    }
  }

  /** An acquisition, a release or a sweep. */
  predicate Updates(x: Txn) {
    x.kind.Acquire? || x.kind.End?
  }

  lemma OtherCanMove(s: Sys, id: TxnId)
    requires Inv(s) && id in s.txns && Updates(s.txns[id]) && !Waiting(s, id)
    ensures Moves(s, id)
  {
    var x := s.txns[id];
    assert TxnOk(s.tables, x);
    if h :| h in Pending(s.tables, x) {
      FreeItem(s, id, HoldItem(h));
      var step := TakeHold(id, h);
      assert Enabled(s, step) && h in Next(s, step).txns[id].holds;
    } else if r :| r in Unlocked(s.tables, x) {
      assert Pending(s.tables, x) == {};
      FreeItem(s, id, RowItem(r));
      var step := TakeRow(id, r);
      assert Enabled(s, step) && r in Next(s, step).txns[id].taken;
    } else {
      assert Pending(s.tables, x) == {} && Unlocked(s.tables, x) == {};
      LockedCanMove(s, id);
    }
  }

  /** With its holds updated and their rows locked, it locks the next row, decides or commits. */
  lemma LockedCanMove(s: Sys, id: TxnId)
    requires Inv(s) && id in s.txns && Updates(s.txns[id]) && !Waiting(s, id)
    requires s.txns[id].next <= |s.txns[id].order|
    requires Pending(s.tables, s.txns[id]) == {} && Unlocked(s.tables, s.txns[id]) == {}
    ensures Moves(s, id)
  {
    var x := s.txns[id];
    assert TxnOk(s.tables, x);
    assert EndedRowsLocked(s.tables, x) by {
      forall r | 0 <= r < |s.tables.rows| && OwnedBy(s.tables.rows[r], x.holds) ensures r in Locks(x) {
        assert r !in Unlocked(s.tables, x);
      }
    }
    if x.next < |x.order| {
      FreeItem(s, id, RowItem(x.order[x.next]));
      var step := LockNext(id);
      assert Enabled(s, step) && Next(s, step).txns[id].next == x.next + 1;
    } else if x.kind.End? || x.decided {
      var step := Commit(id);
      assert Enabled(s, step) && id !in Next(s, step).txns;
    } else if Doomed(s, id) {
      var step := Abort(id);
      assert Enabled(s, step) && id !in Next(s, step).txns;
    } else {
      var step := Decide(id);
      assert Enabled(s, step) && Next(s, step).txns[id].decided;
    }
  }

  /** A transaction that waits for nobody can go on. */
  lemma FreeCanMove(s: Sys, id: TxnId)
    requires Inv(s) && id in s.txns && !Waiting(s, id)
    ensures Moves(s, id)
  {
    if s.txns[id].kind.Cancel? { CancelCanMove(s, id); }
    else if s.txns[id].kind.Visit? { VisitCanMove(s, id); }
    else { OtherCanMove(s, id); }
  }

  // ------------------------------------------------------------------------
  // No circles while holds are locked on one side only
  // ------------------------------------------------------------------------

  /** No running transaction other than a cancellation has locked a hold. */
  ghost predicate OnlyCancelsLockHolds(s: Sys) {
    forall id :: id in s.txns && !s.txns[id].kind.Cancel? ==> s.txns[id].holds == {}
  }

  /** None other than a checkout or payment has, and no cancellation runs. */
  ghost predicate OnlyVisitsLockHolds(s: Sys) {
    forall id :: id in s.txns && !s.txns[id].kind.Visit? ==> s.txns[id].holds == {} && !s.txns[id].kind.Cancel?
  }

  ghost predicate Orderly(s: Sys) {
    OnlyCancelsLockHolds(s) || OnlyVisitsLockHolds(s)
  }

  predicate HasSomething(x: Txn)
    requires x.next <= |x.order|
  {
    x.holds != {} || Locks(x) != {}
  }

  /** The row the ordered statement locks next, if it is not done. */
  function Wanted(s: Sys, a: TxnId): int {
    if a in s.txns && s.txns[a].next < |s.txns[a].order| then s.txns[a].order[s.txns[a].next] else -1
  }

  /** `a` waits for a row that both of them lock in order. */
  ghost predicate OrderWait(s: Sys, a: TxnId, b: TxnId) {
    && a in s.txns && b in s.txns && s.txns[a].next < |s.txns[a].order|
    && s.txns[b].next <= |s.txns[b].order| && Wanted(s, a) in s.txns[b].order[..s.txns[b].next]
  }

  /** Two cancellations that need one hold both hold the locks of its rows. */
  lemma SharedRow(t: Tables, x: Txn, y: Txn, h: HoldId) returns (r: RowId)
    requires TablesOk(t) && TxnOk(t, x) && TxnOk(t, y) && x.kind.Cancel? && y.kind.Cancel?
    requires x.next == |x.order| && h in LeftToCancel(x) && h in y.holds
    ensures r in Locks(x) && r in Locks(y)
  {
    assert HoldOk(t, h);
    r :| r in t.holds[h].rows;
    assert r in x.order && x.order[..x.next] == x.order;
    assert r in y.order && y.order[..y.next] == y.order;
  }

  /** So they never meet over a hold: they would have met over its rows before. */
  lemma CancelsShareNoHold(s: Sys, a: TxnId, b: TxnId, h: HoldId)
    requires Inv(s) && a in s.txns && b in s.txns && a != b && s.txns[a].kind.Cancel? && s.txns[b].kind.Cancel?
    requires s.txns[a].next == |s.txns[a].order| && h in LeftToCancel(s.txns[a])
    ensures h !in s.txns[b].holds
  {
    assert TxnOk(s.tables, s.txns[a]) && TxnOk(s.tables, s.txns[b]) && Apart(s.txns[a], s.txns[b]);
    if h in s.txns[b].holds { var r := SharedRow(s.tables, s.txns[a], s.txns[b], h); }
  }

  /** Who holds something, and is not at a cancellation's last statement, wants the next row of its order. */
  lemma WantsNextRow(s: Sys, a: TxnId)
    requires Inv(s) && Orderly(s) && a in s.txns && HasSomething(s.txns[a])
    requires s.txns[a].kind.Cancel? ==> s.txns[a].next < |s.txns[a].order|
    ensures var x := s.txns[a];
      forall item :: item in Wants(s.tables, x) ==> x.next < |x.order| && item == RowItem(x.order[x.next])
  {
    var x := s.txns[a];
    assert TxnOk(s.tables, x);
    if Updates(x) {
      assert x.holds == {} && x.taken == {};
      assert x.next > 0 by { assert x.order[..0] == []; }
      assert Unlocked(s.tables, x) == {};
    }
  }

  lemma WaitShape(s: Sys, a: TxnId, b: TxnId)
    requires Inv(s) && Orderly(s) && Waits(s, a, b) && HasSomething(s.txns[a])
    ensures OrderWait(s, a, b) && HasSomething(s.txns[b])
  {
    hide Pending, Unlocked, TablesOk, OrderOk, PlanOk, Since;
    var t, x, y := s.tables, s.txns[a], s.txns[b];
    assert TxnOk(t, x) && TxnOk(t, y);
    var item :| item in Wants(t, x) && Has(y, item);
    if x.kind.Cancel? && x.next == |x.order| {
      CancelsShareNoHold(s, a, b, item.hold);
    } else {
      WantsNextRow(s, a);
      assert y.taken == {};
    }
  }

  lemma WaitedForHas(s: Sys, a: TxnId, b: TxnId)
    requires Waits(s, a, b)
    ensures HasSomething(s.txns[b])
  {
  }

  /** Along waits for rows locked in order the row waited for grows. */
  lemma WaitsIncrease(s: Sys, a: TxnId, b: TxnId)
    requires Inv(s) && OrderWait(s, a, b) && s.txns[b].next < |s.txns[b].order|
    ensures Wanted(s, a) < Wanted(s, b)
  {
    assert TxnOk(s.tables, s.txns[b]);
  }

  /** The first of two consecutive waits is for a lower row than the second. */
  lemma Link(s: Sys, a: TxnId, b: TxnId, c: TxnId)
    requires Inv(s) && Orderly(s) && Waits(s, a, b) && Waits(s, b, c) && HasSomething(s.txns[a])
    ensures Wanted(s, a) < Wanted(s, b) && HasSomething(s.txns[b])
  {
    WaitShape(s, a, b);
    WaitShape(s, b, c);
    WaitsIncrease(s, a, b);
  }

  lemma Highest(s: Sys, ids: set<TxnId>) returns (top: TxnId)
    requires ids != {}
    ensures top in ids && forall id :: id in ids ==> Wanted(s, id) <= Wanted(s, top)
    decreases ids
  {
    top :| top in ids;
    if ids != {top} {
      var other := Highest(s, ids - {top});
      if Wanted(s, top) < Wanted(s, other) { top := other; }
    }
  }

  /** Then some running transaction waits for nobody. */
  lemma SomeoneWaitsForNobody(s: Sys) returns (free: TxnId)
    requires Inv(s) && Orderly(s) && s.txns.Keys != {}
    ensures free in s.txns && !Waiting(s, free)
  {
    hide Orderly, Wanted, TablesOk;
    assert forall id :: id in s.txns ==> TxnOk(s.tables, s.txns[id]);
    var holders := set id | id in s.txns && HasSomething(s.txns[id]);
    if holders == {} {
      free :| free in s.txns;
      forall b ensures !Waits(s, free, b) {
        assert b in s.txns ==> b !in holders;
      }
    } else {
      var top := Highest(s, holders);
      free := top;
      if Waiting(s, top) {
        var b :| Waits(s, top, b);
        WaitShape(s, top, b);
        assert b in holders;
        free := b;
        if Waiting(s, b) {
          var c :| Waits(s, b, c);
          Link(s, top, b, c);
        }
      }
    }
  }

  ghost predicate Chain(s: Sys, c: seq<TxnId>) {
    forall i :: 0 <= i < |c| - 1 ==> Waits(s, c[i], c[i + 1])
  }

  lemma {:induction false} ChainIncreases(s: Sys, c: seq<TxnId>)
    requires Inv(s) && Orderly(s) && |c| >= 3 && Chain(s, c)
    requires Waits(s, c[0], c[1]) && HasSomething(s.txns[c[0]])
    ensures Wanted(s, c[0]) < Wanted(s, c[|c| - 2])
    decreases |c|
  {
    hide Inv, Orderly, HasSomething, Wanted;
    assert Waits(s, c[1], c[2]);
    Link(s, c[0], c[1], c[2]);
    if |c| > 3 {
      ChainTail(s, c);
      ChainIncreases(s, c[1..]);
    }
  }

  lemma ChainTail(s: Sys, c: seq<TxnId>)
    requires |c| >= 3 && Chain(s, c)
    ensures Chain(s, c[1..])
  {
    hide Waits;
    forall i | 0 <= i < |c[1..]| - 1 ensures Waits(s, c[1..][i], c[1..][i + 1]) {
      assert Waits(s, c[i + 1], c[i + 2]);
    }
  }

  /** And no circle of waits exists, over whichever rows and holds. */
  lemma NoCycle(s: Sys, c: seq<TxnId>)
    requires Inv(s) && Orderly(s) && |c| >= 2 && Chain(s, c)
    ensures c[0] != c[|c| - 1]
  {
    var last := |c| - 1;
    assert Waits(s, c[last - 1], c[last]) && Waits(s, c[0], c[1]);
    if c[0] == c[last] {
      WaitedForHas(s, c[last - 1], c[last]);
      Around(s, c);
    }
  }

  lemma Around(s: Sys, c: seq<TxnId>)
    requires Inv(s) && Orderly(s) && |c| >= 2 && Chain(s, c)
    requires Waits(s, c[0], c[1]) && HasSomething(s.txns[c[0]])
    ensures c[0] != c[|c| - 1]
  {
    hide Inv, Orderly, Wanted;
    var last := |c| - 1;
    assert Waits(s, c[last - 1], c[last]);
    if c[0] == c[last] {
      if |c| >= 3 {
        ChainIncreases(s, c);
        assert Waits(s, c[last - 2], c[last - 1]);
        WaitedForHas(s, c[last - 2], c[last - 1]);
        Link(s, c[last - 1], c[last], c[1]);
      }
    }
  }

  /** Then some running transaction can go on. */
  lemma SomeoneCanProceed(s: Sys)
    requires Inv(s) && Orderly(s)
    ensures Lively(s)
  {
    if s.txns.Keys != {} {
      var id := SomeoneWaitsForNobody(s);
      FreeCanMove(s, id);
    }
  }

  // ------------------------------------------------------------------------
  // Exactly then
  // ------------------------------------------------------------------------

  /**
   * Which transactions run beside acquisitions that expire nothing: cancellations;
   * acquisitions that expire overdue holds; releases and sweeps; payments that may
   * book; checkouts and the payment events that book nothing.
   */
  datatype Permissions = Permissions(cancels: bool, expiries: bool, releases: bool, bookings: bool, checks: bool)

  predicate Permits(p: Permissions, step: Step) {
    step.Begin? ==>
      match step.kind
      case Acquire(_) => step.plan == {} || p.expiries
      case Cancel(_, _) => p.cancels
      case End => p.releases
      case Visit(_, sells) => if sells then p.bookings else p.checks
  }

  /** Either nothing is released and no hold visited, or nothing is released and nothing cancelled. */
  predicate Mild(p: Permissions) {
    !p.expiries && !p.releases && !(p.cancels && (p.bookings || p.checks))
  }

  /** The running transactions are permitted ones. */
  ghost predicate Permitted(s: Sys, p: Permissions) {
    forall id :: id in s.txns ==>
      match s.txns[id].kind
      case Acquire(_) => s.txns[id].plan == {} || p.expiries
      case Cancel(_, _) => p.cancels
      case End => p.releases
      case Visit(_, sells) => if sells then p.bookings else p.checks
  }

  lemma StaysPermitted(s: Sys, step: Step, p: Permissions)
    requires Permitted(s, p) && Permits(p, step)
    ensures Permitted(Next(s, step), p)
  {
    hide OrderOk, PlanOk, CommitTables;
  }

  lemma {:induction false} PermittedRun(s: Sys, steps: seq<Step>, p: Permissions)
    requires Inv(s) && Permitted(s, p) && forall step :: step in steps ==> Permits(p, step)
    ensures Inv(Run(s, steps)) && Permitted(Run(s, steps), p)
    decreases |steps|
  {
    if steps != [] {
      hide Inv, Permitted, Permits, Next;
      var rest := steps[1..];
      assert steps[0] in steps && forall step :: step in rest ==> step in steps;
      NextKeepsInv(s, steps[0]);
      StaysPermitted(s, steps[0], p);
      PermittedRun(Next(s, steps[0]), rest, p);
    }
  }

  lemma MildIsOrderly(s: Sys, p: Permissions)
    requires Inv(s) && Permitted(s, p) && Mild(p)
    ensures Orderly(s)
  {
    forall id | id in s.txns && !s.txns[id].kind.Cancel? && !s.txns[id].kind.Visit? ensures s.txns[id].holds == {} {
      assert TxnOk(s.tables, s.txns[id]);
    }
  }

  // ------------------------------------------------------------------------
  // A cancellation and a transaction that locks a hold before its rows
  // ------------------------------------------------------------------------

  /** Hold 0 is active over row 0, and row 1 is free. */
  const HELD := Tables([Row(0, HeldBy(0), 1), Row(0, Free, 0)], [Hold(0, {0}, true)], {})

  /** An acquisition of row 1, a release, a checkout or a payment. */
  predicate LocksHoldFirst(kind: Kind, order: seq<RowId>) {
    || (kind == Acquire(0) && order == [1])
    || (kind == End && order == [])
    || (kind.Visit? && kind.hold == 0 && order == [0])
  }

  function PlanFor(kind: Kind): set<HoldId> {
    if kind.Visit? then {} else {0}
  }

  /** It has locked hold 0 and now needs row 0. */
  function Holder(kind: Kind, order: seq<RowId>): Txn {
    Txn(kind, order, PlanFor(kind), 0, {0}, {}, false)
  }

  /** A cancellation that has locked both rows and now needs hold 0. */
  function Canceller(next: nat): Txn {
    Txn(Cancel({0}, HELD), [0, 1], {}, next, {}, {}, false)
  }

  function Standstill(kind: Kind, order: seq<RowId>): Sys {
    Joined(kind, order, 2)
  }

  function StandstillSteps(kind: Kind, order: seq<RowId>): seq<Step> {
    [Begin(1, kind, order, PlanFor(kind)), TakeHold(1, 0), Begin(2, Cancel({0}, HELD), [0, 1], {}), LockNext(2), LockNext(2)]
  }

  lemma HeldInv()
    ensures Inv(Sys(HELD, map[]))
  {
    assert HoldOk(HELD, 0);
  }

  lemma HolderRuns(kind: Kind, order: seq<RowId>)
    requires LocksHoldFirst(kind, order)
    ensures var steps := StandstillSteps(kind, order);
      Run(Sys(HELD, map[]), steps) == Run(Sys(HELD, map[1 := Holder(kind, order)]), steps[2..])
  {
    var steps := StandstillSteps(kind, order);
    var s0, s1 := Sys(HELD, map[]), Sys(HELD, map[1 := Holder(kind, order).(holds := {})]);
    var s2 := Sys(HELD, map[1 := Holder(kind, order)]);
    assert Elements(order) == match kind case Acquire(_) => {1} case Visit(_, _) => {0} case _ => {};
    assert Enabled(s0, steps[0]) && Next(s0, steps[0]) == s1;
    assert s1.txns[1].holds + {0} == {0};
    assert Enabled(s1, steps[1]) && Next(s1, steps[1]) == s2;
    RunStep(s0, steps);
    RunStep(s1, steps[1..]);
  }

  /** The holder's tables with the cancellation at the given place in its order. */
  function Joined(kind: Kind, order: seq<RowId>, next: nat): Sys {
    Sys(HELD, map[1 := Holder(kind, order), 2 := Canceller(next)])
  }

  lemma CancellerBegins(kind: Kind, order: seq<RowId>)
    requires LocksHoldFirst(kind, order)
    ensures Next(Sys(HELD, map[1 := Holder(kind, order)]), Begin(2, Cancel({0}, HELD), [0, 1], {})) == Joined(kind, order, 0)
  {
    assert Enabled(Sys(HELD, map[1 := Holder(kind, order)]), Begin(2, Cancel({0}, HELD), [0, 1], {}));
  }

  lemma CancellerLocks(kind: Kind, order: seq<RowId>, next: nat)
    requires LocksHoldFirst(kind, order) && next < 2
    ensures Next(Joined(kind, order, next), LockNext(2)) == Joined(kind, order, next + 1)
  {
    var s, x := Joined(kind, order, next), Holder(kind, order);
    assert x.order[..0] == [] && Locks(x) == {};
    assert Enabled(s, LockNext(2));
  }

  lemma CancellerRuns(kind: Kind, order: seq<RowId>)
    requires LocksHoldFirst(kind, order)
    ensures Run(Sys(HELD, map[1 := Holder(kind, order)]), StandstillSteps(kind, order)[2..]) == Standstill(kind, order)
  {
    hide Next, Joined;
    var steps := StandstillSteps(kind, order);
    CancellerBegins(kind, order);
    CancellerLocks(kind, order, 0);
    CancellerLocks(kind, order, 1);
    RunStep(Sys(HELD, map[1 := Holder(kind, order)]), steps[2..]);
    RunStep(Joined(kind, order, 0), steps[3..]);
    RunStep(Joined(kind, order, 1), steps[4..]);
    assert steps[5..] == [];
  }

  /** The holder needs row 0, which the cancellation has locked. */
  lemma HolderIsStuck(kind: Kind, order: seq<RowId>)
    requires LocksHoldFirst(kind, order)
    ensures !Moves(Standstill(kind, order), 1)
  {
    var s := Standstill(kind, order);
    var x, y := s.txns[1], s.txns[2];
    assert x.order[..0] == [] && Locks(x) == {};
    assert y.order[..2] == [0, 1] && 0 in Locks(y);
    assert OwnedBy(s.tables.rows[0], x.holds) && !EndedRowsLocked(s.tables, x);
    assert RowTakenByOther(s, 1, 0);
    forall step: Step | step.id == 1 && !step.Begin? && Enabled(s, step)
      ensures Next(s, step) == s || (step.Abort? && !Doomed(s, 1))
    {
      if step.TakeHold? {
        assert step.hold == 0 && x.holds + {0} == x.holds;
        assert s.txns[1 := x] == s.txns;
      }
    }
  }

  /** The cancellation needs hold 0, which the holder has locked. */
  lemma CancellerIsStuck(kind: Kind, order: seq<RowId>)
    requires LocksHoldFirst(kind, order)
    ensures !Moves(Standstill(kind, order), 2)
  {
    var s := Standstill(kind, order);
    assert 0 in s.txns[1].holds && HoldTakenByOther(s, 2, 0);
    assert ActiveOn(HELD, {0}) == {0};
    forall step: Step | step.id == 2 && !step.Begin? && Enabled(s, step)
      ensures Next(s, step) == s || (step.Abort? && !Doomed(s, 2))
    {
    }
  }

  /**
   * A cancellation that has locked the inventory and any transaction that has
   * locked a hold before its rows, even a checkout that writes neither, reach a
   * state in which neither can go on, though no row was locked out of order.
   */
  lemma CanStandStill(kind: Kind, order: seq<RowId>)
    requires LocksHoldFirst(kind, order)
    ensures Inv(Sys(HELD, map[]))
    ensures !Lively(Run(Sys(HELD, map[]), StandstillSteps(kind, order)))
  {
    HeldInv();
    HolderRuns(kind, order);
    CancellerRuns(kind, order);
    HolderIsStuck(kind, order);
    CancellerIsStuck(kind, order);
    assert 1 in Standstill(kind, order).txns.Keys;
  }

  // ------------------------------------------------------------------------
  // An acquisition and a transaction that frees rows out of order
  // ------------------------------------------------------------------------

  /** Hold 0 is active over rows 0 and 1. */
  const CLASH := Tables([Row(0, HeldBy(0), 1), Row(0, HeldBy(0), 1)], [Hold(0, {0, 1}, true)], {})

  /** An acquisition of row 0 that expires the hold, or a release of it. */
  predicate FreesRows(kind: Kind, order: seq<RowId>) {
    (kind == Acquire(0) && order == [0]) || (kind == End && order == [])
  }

  /** It has updated hold 0 and locked row 1 to free it. */
  function Freer(kind: Kind, order: seq<RowId>): Txn {
    Txn(kind, order, {0}, 0, {0}, {1}, false)
  }

  /** An acquisition of both rows that has locked row 0. */
  const ORDERER := Txn(Acquire(0), [0, 1], {}, 1, {}, {}, false)

  function ClashSteps(kind: Kind, order: seq<RowId>): seq<Step> {
    [Begin(1, kind, order, {0}), TakeHold(1, 0), TakeRow(1, 1), Begin(2, Acquire(0), [0, 1], {}), LockNext(2)]
  }

  function Clashed(kind: Kind, order: seq<RowId>): Sys {
    Sys(CLASH, map[1 := Freer(kind, order), 2 := ORDERER])
  }

  lemma ClashInv()
    ensures Inv(Sys(CLASH, map[]))
  {
    assert HoldOk(CLASH, 0);
  }

  lemma FreerLocks(kind: Kind, order: seq<RowId>)
    requires FreesRows(kind, order)
    ensures var steps := ClashSteps(kind, order);
      Run(Sys(CLASH, map[]), steps) == Run(Sys(CLASH, map[1 := Freer(kind, order)]), steps[3..])
  {
    var steps, x := ClashSteps(kind, order), Freer(kind, order);
    var s0 := Sys(CLASH, map[]);
    var s1 := Sys(CLASH, map[1 := x.(holds := {}, taken := {})]);
    var s2 := Sys(CLASH, map[1 := x.(taken := {})]);
    var s3 := Sys(CLASH, map[1 := x]);
    assert Enabled(s0, steps[0]) && Next(s0, steps[0]) == s1;
    assert Enabled(s1, steps[1]);
    assert s1.txns[1].holds + {0} == {0};
    assert Next(s1, steps[1]) == s2;
    assert Enabled(s2, steps[2]);
    assert s2.txns[1].taken + {1} == {1};
    assert Next(s2, steps[2]) == s3;
    RunStep(s0, steps);
    RunStep(s1, steps[1..]);
    RunStep(s2, steps[2..]);
  }

  lemma OrdererLocks(kind: Kind, order: seq<RowId>)
    requires FreesRows(kind, order)
    ensures Run(Sys(CLASH, map[1 := Freer(kind, order)]), ClashSteps(kind, order)[3..]) == Clashed(kind, order)
  {
    var steps, x := ClashSteps(kind, order), Freer(kind, order);
    var s3 := Sys(CLASH, map[1 := x]);
    var s4 := Sys(CLASH, map[1 := x, 2 := ORDERER.(next := 0)]);
    assert Enabled(s3, steps[3]) && Next(s3, steps[3]) == s4;
    assert x.order[..0] == [] && Locks(x) == {1};
    assert Enabled(s4, steps[4]) && Next(s4, steps[4]) == Clashed(kind, order);
    RunStep(s3, steps[3..]);
    RunStep(s4, steps[4..]);
    assert steps[5..] == [];
  }

  /** It needs row 0 next, which the acquisition has locked. */
  lemma FreerIsStuck(kind: Kind, order: seq<RowId>)
    requires FreesRows(kind, order)
    ensures !Moves(Clashed(kind, order), 1)
  {
    var s := Clashed(kind, order);
    var x := s.txns[1];
    assert x.order[..0] == [] && Locks(x) == {1};
    assert ORDERER.order[..1] == [0] && 0 in Locks(s.txns[2]) && RowTakenByOther(s, 1, 0);
    assert OwnedBy(s.tables.rows[0], x.holds) && !EndedRowsLocked(s.tables, x);
    forall step: Step | step.id == 1 && !step.Begin? && Enabled(s, step)
      ensures Next(s, step) == s || (step.Abort? && !Doomed(s, 1))
    {
      if step.TakeHold? {
        assert step.hold == 0 && x.holds + {0} == x.holds;
        assert s.txns[1 := x] == s.txns;
      }
      if step.TakeRow? {
        assert step.row == 1 && x.taken + {1} == x.taken;
        assert s.txns[1 := x] == s.txns;
      }
    }
  }

  /** The acquisition needs row 1, which the other has locked. */
  lemma OrdererIsStuck(kind: Kind, order: seq<RowId>)
    requires FreesRows(kind, order)
    ensures !Moves(Clashed(kind, order), 2)
  {
    var s := Clashed(kind, order);
    assert 1 in Locks(s.txns[1]) && RowTakenByOther(s, 2, 1);
    forall step: Step | step.id == 2 && !step.Begin? && Enabled(s, step)
      ensures Next(s, step) == s || (step.Abort? && !Doomed(s, 2))
    {
    }
  }

  /**
   * Two acquisitions alone can stand still, when one expires a hold, and so can
   * an acquisition and a release or sweep: rows are freed in no particular order
   * and acquired in seat order.
   */
  lemma FreeingCanStandStill(kind: Kind, order: seq<RowId>)
    requires FreesRows(kind, order)
    ensures Inv(Sys(CLASH, map[]))
    ensures !Lively(Run(Sys(CLASH, map[]), ClashSteps(kind, order)))
  {
    ClashInv();
    FreerLocks(kind, order);
    OrdererLocks(kind, order);
    FreerIsStuck(kind, order);
    OrdererIsStuck(kind, order);
    assert 1 in Clashed(kind, order).txns.Keys;
  }

  // ------------------------------------------------------------------------
  // The exact condition
  // ------------------------------------------------------------------------

  /** Every run of the permitted transactions, from tables with nothing running, always leaves someone able to go on. */
  ghost predicate NeverStandsStill(p: Permissions) {
    forall s: Sys, steps: seq<Step> ::
      Inv(s) && s.txns == map[] && (forall step :: step in steps ==> Permits(p, step)) ==> Lively(Run(s, steps))
  }

  /**
   * Transactions never come to a standstill exactly when none of them expires,
   * releases or sweeps holds, and cancellations do not run beside checkouts and
   * payments.
   */
  lemma StandstillExactly(p: Permissions)
    ensures NeverStandsStill(p) <==> !p.expiries && !p.releases && !(p.cancels && (p.bookings || p.checks))
  {
    if Mild(p) {
      forall s: Sys, steps: seq<Step>
        | Inv(s) && s.txns == map[] && forall step :: step in steps ==> Permits(p, step)
        ensures Lively(Run(s, steps))
      {
        PermittedRun(s, steps, p);
        MildIsOrderly(Run(s, steps), p);
        SomeoneCanProceed(Run(s, steps));
      }
    } else {
      WildStandsStill(p);
    }
  }

  lemma WildStandsStill(p: Permissions)
    requires !Mild(p)
    ensures !NeverStandsStill(p)
  {
    hide Inv, Lively, Run;
    if p.expiries || p.releases {
      var kind, order := if p.expiries then Acquire(0) else End, if p.expiries then [0] else [];
      FreeingCanStandStill(kind, order);
      assert forall step :: step in ClashSteps(kind, order) ==> Permits(p, step);
    } else {
      CanStandStill(Visit(0, p.bookings), [0]);
      assert forall step :: step in StandstillSteps(Visit(0, p.bookings), [0]) ==> Permits(p, step);
    }
  }

  lemma RunStep(s: Sys, steps: seq<Step>)
    requires steps != []
    ensures Run(s, steps) == Run(Next(s, steps[0]), steps[1..])
  {
  }
}
