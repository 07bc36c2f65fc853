/**
 * Acquisition, release, cancellation, checkout and payment at the granularity of row locks: each
 * transaction takes its locks one at a time, interleaved with every other one.
 * Rows are numbered in (session, seat) order and are all materialised already.
 */
module RowLocks {
  import opened Common

  type RowId = nat
  type HoldId = nat
  type SessionId = nat
  type TxnId = nat

  datatype State = Free | HeldBy(hold: HoldId) | Sold

  /** `version` counts the committed updates of the row. */
  datatype Row = Row(session: SessionId, state: State, version: nat)

  datatype Hold = Hold(session: SessionId, rows: set<RowId>, active: bool)

  /** The committed tables. */
  datatype Tables = Tables(rows: seq<Row>, holds: seq<Hold>, cancelled: set<SessionId>)

  /**
   * Cancel is serializable: it reads the tables as they were when it began. The
   * others run at Read Committed: each statement sees what is committed by then.
   * End stands for a release or a sweep of chosen holds. Visit locks a hold and
   * then its rows: a checkout being created or a payment event; with `sells` it
   * books the hold if it is still active, and otherwise it writes neither table.
   */
  datatype Kind =
    | Acquire(session: SessionId)
    | Cancel(sessions: set<SessionId>, snapshot: Tables)
    | End
    | Visit(hold: HoldId, sells: bool)

  /**
   * `order` is what the transaction's ordered FOR UPDATE statement locks, `next`
   * of them so far. `plan` are the holds its UPDATE selected to end: the overdue
   * ones of an acquisition, the chosen ones of an ending. `holds` are the hold
   * rows it has locked, to end them or just to visit them, and `taken` the
   * inventory rows its UPDATE by hold has locked, in no particular order.
   */
  datatype Txn = Txn(
    kind: Kind,
    order: seq<RowId>,
    plan: set<HoldId>,
    next: nat,
    holds: set<HoldId>,
    taken: set<RowId>,
    decided: bool)

  datatype Sys = Sys(tables: Tables, txns: map<TxnId, Txn>)

  // ------------------------------------------------------------------------
  // What a commit writes
  // ------------------------------------------------------------------------

  predicate OwnedBy(row: Row, ids: set<HoldId>) {
    row.state.HeldBy? && row.state.hold in ids
  }

  function EndRows(rows: seq<Row>, ids: set<HoldId>, target: State): seq<Row> {
    seq(|rows|, r requires 0 <= r < |rows| =>
      if OwnedBy(rows[r], ids) then rows[r].(state := target, version := rows[r].version + 1) else rows[r])
  }

  function EndHolds(t: Tables, ids: set<HoldId>, target: State): Tables {
    t.(rows := EndRows(t.rows, ids, target),
       holds := seq(|t.holds|, h requires 0 <= h < |t.holds| =>
         if h in ids then t.holds[h].(active := false) else t.holds[h]))
  }

  function Claim(t: Tables, session: SessionId, seats: set<RowId>): Tables {
    t.(rows := seq(|t.rows|, r requires 0 <= r < |t.rows| =>
         if r in seats then t.rows[r].(state := HeldBy(|t.holds|), version := t.rows[r].version + 1) else t.rows[r]),
       holds := t.holds + [Hold(session, seats, true)])
  }

  /** The writes of a booking: those of the seats that point at the hold, and the hold itself. */
  function Sell(t: Tables, seats: set<RowId>, hold: HoldId): Tables {
    t.(rows := seq(|t.rows|, r requires 0 <= r < |t.rows| =>
         if r in seats && t.rows[r].state == HeldBy(hold)
         then t.rows[r].(state := Sold, version := t.rows[r].version + 1) else t.rows[r]),
       holds := seq(|t.holds|, h requires 0 <= h < |t.holds| =>
         if h == hold then t.holds[h].(active := false) else t.holds[h]))
  }

  function CancelSessions(t: Tables, sessions: set<SessionId>, ended: set<HoldId>): Tables {
    var after := EndHolds(t, ended, Free);
    after.(cancelled := t.cancelled + sessions)
  }

  function ActiveOn(t: Tables, sessions: set<SessionId>): set<HoldId> {
    set h | 0 <= h < |t.holds| && t.holds[h].active && t.holds[h].session in sessions
  }

  /** Free once the holds in `ended` are over. */
  predicate Open(row: Row, ended: set<HoldId>) {
    row.state == Free || OwnedBy(row, ended)
  }

  // ------------------------------------------------------------------------
  // The same transactions, each in one indivisible step
  // ------------------------------------------------------------------------

  /** Expire `ended`, then claim the seats if the session is not cancelled and all of them are free. */
  function AtomicAcquire(t: Tables, session: SessionId, seats: set<RowId>, ended: set<HoldId>): Option<Tables> {
    if session !in t.cancelled && forall r :: r in seats ==> r < |t.rows| && Open(t.rows[r], ended)
    then Some(Claim(EndHolds(t, ended, Free), session, seats))
    else None
  }

  /** Cancel the sessions and release every active hold on them. */
  function AtomicCancel(t: Tables, sessions: set<SessionId>): Tables {
    CancelSessions(t, sessions, ActiveOn(t, sessions))
  }

  /** Book the hold, with every row that points at it, if it is active and paid for. */
  function AtomicVisit(t: Tables, hold: HoldId, sells: bool): Tables {
    if sells && hold < |t.holds| && t.holds[hold].active then EndHolds(t, {hold}, Sold) else t
  }

  // ------------------------------------------------------------------------
  // Steps
  // ------------------------------------------------------------------------

  datatype Step =
    | Begin(id: TxnId, kind: Kind, order: seq<RowId>, plan: set<HoldId>)
    | TakeHold(id: TxnId, hold: HoldId)
    | TakeRow(id: TxnId, row: RowId)
    | LockNext(id: TxnId)
    | Decide(id: TxnId)
    | Commit(id: TxnId)
    | Abort(id: TxnId)

  function Locks(x: Txn): set<RowId>
    requires x.next <= |x.order|
  {
    x.taken + Elements(x.order[..x.next])
  }

  predicate Increasing(s: seq<RowId>) {
    forall i, j :: 0 <= i < j < |s| ==> s[i] < s[j]
  }

  /** The rows an ordered statement names, in the order it locks them. */
  ghost predicate OrderOk(t: Tables, kind: Kind, order: seq<RowId>) {
    && Increasing(order)
    && (forall r :: r in order ==> r < |t.rows|)
    && match kind
       case Acquire(session) => order != [] && forall r :: r in order ==> t.rows[r].session == session
       case Cancel(sessions, _) => forall r :: 0 <= r < |t.rows| ==> (r in order <==> t.rows[r].session in sessions)
       case End => order == []
       case Visit(hold, _) => hold < |t.holds| && Elements(order) == t.holds[hold].rows
  }

  /** What the transaction's UPDATE of holds may have selected. */
  ghost predicate PlanOk(t: Tables, kind: Kind, plan: set<HoldId>) {
    && (forall h :: h in plan ==> h < |t.holds|)
    && match kind
       case Acquire(session) => forall h :: h in plan ==> t.holds[h].session == session
       case End => true
       case _ => plan == {}
  }

  /** The selected holds it still has to update; one that is no longer active is passed over. */
  function Pending(t: Tables, x: Txn): set<HoldId> {
    set h | h in x.plan && h < |t.holds| && t.holds[h].active && h !in x.holds
  }

  ghost predicate RowTakenByOther(s: Sys, id: TxnId, r: RowId) {
    exists u :: u in s.txns && u != id && s.txns[u].next <= |s.txns[u].order| && r in Locks(s.txns[u])
  }

  ghost predicate HoldTakenByOther(s: Sys, id: TxnId, h: HoldId) {
    exists u :: u in s.txns && u != id && h in s.txns[u].holds
  }

  /** Every inventory row of the holds being ended is locked. */
  ghost predicate EndedRowsLocked(t: Tables, x: Txn)
    requires x.next <= |x.order|
  {
    forall r :: 0 <= r < |t.rows| && OwnedBy(t.rows[r], x.holds) ==> r in Locks(x)
  }

  ghost predicate Enabled(s: Sys, step: Step) {
    match step
    case Begin(id, kind, order, plan) =>
      && id !in s.txns && OrderOk(s.tables, kind, order) && PlanOk(s.tables, kind, plan)
      && (kind.Cancel? ==> kind.snapshot == s.tables)
    case Abort(id) => id in s.txns
    case TakeHold(id, h) =>
      && id in s.txns && h < |s.tables.holds| && !HoldTakenByOther(s, id, h)
      && var x := s.txns[id];
         (match x.kind
          case Cancel(sessions, snapshot) =>
            s.tables.holds[h].active && x.next == |x.order| && h in ActiveOn(snapshot, sessions)
          case Visit(hold, _) => h == hold
          case _ => s.tables.holds[h].active && x.next == 0 && h in x.plan)
    case TakeRow(id, r) =>
      && id in s.txns && r < |s.tables.rows| && !RowTakenByOther(s, id, r)
      && var x := s.txns[id];
         x.next == 0 && (x.kind.Acquire? || x.kind.End?) && Pending(s.tables, x) == {} && OwnedBy(s.tables.rows[r], x.holds)
    case LockNext(id) =>
      && id in s.txns
      && var x := s.txns[id];
         && x.next < |x.order| && !RowTakenByOther(s, id, x.order[x.next])
         && (match x.kind
             case Cancel(_, snapshot) => Unchanged(s.tables, snapshot, x.order[x.next])
             case Visit(hold, _) => hold in x.holds
             case _ => Pending(s.tables, x) == {} && EndedRowsLocked(s.tables, x))
    case Decide(id) =>
      && id in s.txns
      && var x := s.txns[id];
         && x.kind.Acquire? && x.next == |x.order| && !x.decided && x.kind.session !in s.tables.cancelled
         && forall r :: r in x.order ==> r < |s.tables.rows| && Open(s.tables.rows[r], x.holds)
    case Commit(id) =>
      && id in s.txns
      && var x := s.txns[id];
         && x.next == |x.order|
         && (match x.kind
             case Acquire(_) => x.decided
             case Cancel(sessions, snapshot) => x.holds == ActiveOn(snapshot, sessions)
             case End => Pending(s.tables, x) == {} && EndedRowsLocked(s.tables, x)
             case Visit(hold, _) => hold in x.holds)
  }

  /** A serializable transaction may lock a row only if nobody has updated it since the snapshot. */
  predicate Unchanged(t: Tables, snapshot: Tables, r: RowId) {
    r < |t.rows| && r < |snapshot.rows| && t.rows[r].version == snapshot.rows[r].version
  }

  function CommitTables(t: Tables, x: Txn): Tables {
    match x.kind
    case Acquire(session) => Claim(EndHolds(t, x.holds, Free), session, Elements(x.order))
    case Cancel(sessions, _) => CancelSessions(t, sessions, x.holds)
    case End => EndHolds(t, x.holds, Free)
    case Visit(hold, sells) =>
      if sells && hold < |t.holds| && t.holds[hold].active then Sell(t, Elements(x.order), hold) else t
  }

  function Apply(s: Sys, step: Step): Sys
    requires step.Begin? || step.id in s.txns
  {
    match step
    case Begin(id, kind, order, plan) => s.(txns := s.txns[id := Txn(kind, order, plan, 0, {}, {}, false)])
    case TakeHold(id, h) => s.(txns := s.txns[id := s.txns[id].(holds := s.txns[id].holds + {h})])
    case TakeRow(id, r) => s.(txns := s.txns[id := s.txns[id].(taken := s.txns[id].taken + {r})])
    case LockNext(id) => s.(txns := s.txns[id := s.txns[id].(next := s.txns[id].next + 1)])
    case Decide(id) => s.(txns := s.txns[id := s.txns[id].(decided := true)])
    case Commit(id) => Sys(CommitTables(s.tables, s.txns[id]), s.txns - {id})
    case Abort(id) => s.(txns := s.txns - {id})
  }

  /** A step that is not enabled waits: nothing changes. */
  ghost function Next(s: Sys, step: Step): Sys {
    if Enabled(s, step) then Apply(s, step) else s
  }

  ghost function Run(s: Sys, steps: seq<Step>): Sys
    decreases |steps|
  {
    if steps == [] then s else Run(Next(s, steps[0]), steps[1..])
  }

  // ------------------------------------------------------------------------
  // The invariant
  // ------------------------------------------------------------------------

  /** A row and the hold it points at agree; an active hold owns its rows and its session is not cancelled. */
  ghost predicate HoldOk(t: Tables, h: HoldId)
    requires h < |t.holds|
  {
    var hold := t.holds[h];
    && hold.rows != {}
    && (forall r :: r in hold.rows ==> r < |t.rows| && t.rows[r].session == hold.session)
    && (hold.active ==> hold.session !in t.cancelled && forall r :: r in hold.rows ==> t.rows[r].state == HeldBy(h))
  }

  ghost predicate RowOk(t: Tables, r: RowId)
    requires r < |t.rows|
  {
    t.rows[r].state.HeldBy? ==>
      var h := t.rows[r].state.hold; h < |t.holds| && t.holds[h].active && r in t.holds[h].rows
  }

  ghost predicate TablesOk(t: Tables) {
    && (forall h :: 0 <= h < |t.holds| ==> HoldOk(t, h))
    && (forall r :: 0 <= r < |t.rows| ==> RowOk(t, r))
  }

  /** t is a later committed state than `old`: holds created since then left their mark on every row they claimed. */
  ghost predicate Since(before: Tables, t: Tables) {
    && |before.rows| == |t.rows| && |before.holds| <= |t.holds|
    && (forall r :: 0 <= r < |t.rows| ==>
          before.rows[r].session == t.rows[r].session && before.rows[r].version <= t.rows[r].version)
    && (forall h :: 0 <= h < |before.holds| ==>
          t.holds[h] == before.holds[h].(active := t.holds[h].active) && (t.holds[h].active ==> before.holds[h].active))
    && (forall h, r :: |before.holds| <= h < |t.holds| && r in t.holds[h].rows && r < |t.rows| ==>
          before.rows[r].version < t.rows[r].version)
  }

  ghost predicate TxnOk(t: Tables, x: Txn) {
    && x.next <= |x.order| && OrderOk(t, x.kind, x.order) && PlanOk(t, x.kind, x.plan)
    && (forall h :: h in x.holds ==> h < |t.holds| && (t.holds[h].active || x.kind.Visit?))
    && (x.taken != {} ==> x.holds != {} && (x.kind.Acquire? || x.kind.End?))
    && (match x.kind
        case Acquire(session) =>
          && x.holds <= x.plan
          && (x.next > 0 ==> Pending(t, x) == {} && EndedRowsLocked(t, x))
          && (x.decided ==>
                && x.next == |x.order| && session !in t.cancelled
                && forall r :: r in x.order ==> Open(t.rows[r], x.holds))
        case Cancel(sessions, snapshot) =>
          && Since(snapshot, t) && (x.holds != {} ==> x.next == |x.order|)
          && x.holds <= ActiveOn(snapshot, sessions)
          && (forall r :: r in x.order[..x.next] ==> Unchanged(t, snapshot, r))
        case End => x.holds <= x.plan
        case Visit(hold, _) => x.holds <= {hold} && (x.next > 0 ==> hold in x.holds))
  }

  ghost predicate Apart(x: Txn, y: Txn)
    requires x.next <= |x.order| && y.next <= |y.order|
  {
    Locks(x) !! Locks(y) && x.holds !! y.holds
  }

  ghost predicate Inv(s: Sys) {
    && TablesOk(s.tables)
    && (forall id :: id in s.txns ==> TxnOk(s.tables, s.txns[id]))
    && (forall a, b :: a in s.txns && b in s.txns && a != b ==> Apart(s.txns[a], s.txns[b]))
  }

  // ------------------------------------------------------------------------
  // Each commit is the atomic transaction
  // ------------------------------------------------------------------------

  /** Holding the lock of every row of its sessions, a cancellation's old snapshot misses no active hold. */
  lemma SnapshotMissesNothing(t: Tables, x: Txn)
    requires TablesOk(t) && TxnOk(t, x) && x.kind.Cancel? && x.next == |x.order|
    ensures ActiveOn(t, x.kind.sessions) <= ActiveOn(x.kind.snapshot, x.kind.sessions)
  {
    var snapshot := x.kind.snapshot;
    forall h | h in ActiveOn(t, x.kind.sessions) ensures h in ActiveOn(snapshot, x.kind.sessions) {
      assert HoldOk(t, h);
      var r :| r in t.holds[h].rows;
      assert r in x.order[..x.next];
      assert Unchanged(t, snapshot, r);
    }
  }

  /** The rows a hold lists are the rows that point at it, so a booking by seat ends exactly the hold. */
  lemma SellIsEnd(t: Tables, hold: HoldId)
    requires TablesOk(t) && hold < |t.holds| && t.holds[hold].active
    ensures Sell(t, t.holds[hold].rows, hold) == EndHolds(t, {hold}, Sold)
    ensures forall r :: r in t.holds[hold].rows ==> r < |t.rows| && t.rows[r].state == HeldBy(hold)
  {
    assert HoldOk(t, hold);
    forall r | 0 <= r < |t.rows| ensures t.rows[r].state == HeldBy(hold) ==> r in t.holds[hold].rows {
      assert RowOk(t, r);
    }
  }

  /**
   * What a transaction commits, after any interleaving, is what the indivisible
   * transaction would do to the tables at that moment. A booking that finds its
   * hold active finds all its seats.
   */
  lemma CommitIsAtomic(s: Sys, id: TxnId)
    requires Inv(s) && Enabled(s, Commit(id))
    ensures var x := s.txns[id]; var after := Next(s, Commit(id)).tables;
      match x.kind
      case Acquire(session) => AtomicAcquire(s.tables, session, Elements(x.order), x.holds) == Some(after)
      case Cancel(sessions, _) => AtomicCancel(s.tables, sessions) == after
      case End => EndHolds(s.tables, x.holds, Free) == after
      case Visit(hold, sells) =>
        && AtomicVisit(s.tables, hold, sells) == after && hold < |s.tables.holds|
        && (s.tables.holds[hold].active ==>
              forall r :: r in x.order ==> r < |s.tables.rows| && s.tables.rows[r].state == HeldBy(hold))
  {
    var x := s.txns[id];
    assert TxnOk(s.tables, x);
    if x.kind.Cancel? {
      SnapshotMissesNothing(s.tables, x);
      assert x.holds == ActiveOn(s.tables, x.kind.sessions);
    } else if x.kind.Visit? && s.tables.holds[x.kind.hold].active {
      SellIsEnd(s.tables, x.kind.hold);
      assert forall r :: r in x.order ==> r in Elements(x.order);
    }
  }

  /** Whether a hold is still active after the commit. */
  ghost predicate StillActive(t: Tables, x: Txn, h: HoldId)
    requires h < |t.holds|
  {
    t.holds[h].active &&
      match x.kind
      case Acquire(_) => h !in x.holds
      case Cancel(sessions, _) => t.holds[h].session !in sessions
      case End => h !in x.holds
      case Visit(hold, sells) => !(sells && h == hold)
  }

  /** The state of a row after the commit. */
  ghost function StateAfter(t: Tables, x: Txn, r: RowId): State
    requires r < |t.rows|
  {
    var state := t.rows[r].state;
    if x.kind.Acquire? && r in x.order then HeldBy(|t.holds|)
    else if state.HeldBy? && state.hold < |t.holds| && t.holds[state.hold].active && !StillActive(t, x, state.hold)
    then (if x.kind.Visit? then Sold else Free)
    else state
  }

  lemma HoldsAfter(s: Sys, id: TxnId)
    requires Inv(s) && Enabled(s, Commit(id))
    ensures var t, x, after := s.tables, s.txns[id], Next(s, Commit(id)).tables;
      && |after.holds| == |t.holds| + (if x.kind.Acquire? then 1 else 0)
      && (forall h :: 0 <= h < |t.holds| ==> after.holds[h] == t.holds[h].(active := StillActive(t, x, h)))
      && (x.kind.Acquire? ==> after.holds[|t.holds|] == Hold(x.kind.session, Elements(x.order), true))
      && after.cancelled == t.cancelled + if x.kind.Cancel? then x.kind.sessions else {}
  {
    hide TablesOk, OrderOk, PlanOk, Since;
    CommitIsAtomic(s, id);
    assert TxnOk(s.tables, s.txns[id]);
  }

  lemma RowAfter(s: Sys, id: TxnId, r: RowId)
    requires Inv(s) && Enabled(s, Commit(id)) && r < |s.tables.rows|
    ensures var t, x, after := s.tables, s.txns[id], Next(s, Commit(id)).tables;
      |after.rows| == |t.rows| && after.rows[r].state == StateAfter(t, x, r) && after.rows[r].session == t.rows[r].session
  {
    hide OrderOk, PlanOk, Since;
    CommitIsAtomic(s, id);
    assert TxnOk(s.tables, s.txns[id]) && RowOk(s.tables, r);
  }

  /** What a commit leaves, row by row and hold by hold. */
  lemma CommitExactly(s: Sys, id: TxnId)
    requires Inv(s) && Enabled(s, Commit(id))
    ensures var t, x, after := s.tables, s.txns[id], Next(s, Commit(id)).tables;
      && |after.rows| == |t.rows|
      && (forall r :: 0 <= r < |t.rows| ==> after.rows[r].state == StateAfter(t, x, r) && after.rows[r].session == t.rows[r].session)
      && |after.holds| == |t.holds| + (if x.kind.Acquire? then 1 else 0)
      && (forall h :: 0 <= h < |t.holds| ==> after.holds[h] == t.holds[h].(active := StillActive(t, x, h)))
      && (x.kind.Acquire? ==> after.holds[|t.holds|] == Hold(x.kind.session, Elements(x.order), true))
      && after.cancelled == t.cancelled + if x.kind.Cancel? then x.kind.sessions else {}
  {
    hide Inv, StateAfter, StillActive, CommitTables;
    HoldsAfter(s, id);
    CommitKeepsCount(s, id);
    forall r | 0 <= r < |s.tables.rows| ensures Next(s, Commit(id)).tables.rows[r].state == StateAfter(s.tables, s.txns[id], r) {
      RowAfter(s, id, r);
    }
    forall r | 0 <= r < |s.tables.rows| ensures Next(s, Commit(id)).tables.rows[r].session == s.tables.rows[r].session {
      RowAfter(s, id, r);
    }
  }

  lemma CommitKeepsCount(s: Sys, id: TxnId)
    requires Enabled(s, Commit(id))
    ensures |Next(s, Commit(id)).tables.rows| == |s.tables.rows|
  {
  }

  /** Nothing but a commit touches the committed tables. */
  lemma OnlyCommitsWrite(s: Sys, step: Step)
    requires !step.Commit?
    ensures Next(s, step).tables == s.tables
  {
  }

  // ------------------------------------------------------------------------
  // The indivisible transactions keep the tables consistent
  // ------------------------------------------------------------------------

  ghost predicate AllActive(t: Tables, ids: set<HoldId>) {
    forall h :: h in ids ==> h < |t.holds| && t.holds[h].active
  }

  lemma EndKeepsTables(t: Tables, ids: set<HoldId>, target: State)
    requires TablesOk(t) && AllActive(t, ids) && !target.HeldBy?
    ensures TablesOk(EndHolds(t, ids, target))
  {
    var after := EndHolds(t, ids, target);
    forall h | 0 <= h < |after.holds| ensures HoldOk(after, h) {
      assert HoldOk(t, h);
    }
    forall r | 0 <= r < |after.rows| ensures RowOk(after, r) {
      assert RowOk(t, r);
    }
  }

  lemma ClaimKeepsTables(t: Tables, session: SessionId, seats: set<RowId>)
    requires TablesOk(t) && session !in t.cancelled && seats != {}
    requires forall r :: r in seats ==> r < |t.rows| && t.rows[r].session == session && t.rows[r].state == Free
    ensures TablesOk(Claim(t, session, seats))
  {
    var after := Claim(t, session, seats);
    forall h | 0 <= h < |after.holds| ensures HoldOk(after, h) {
      if h < |t.holds| { assert HoldOk(t, h); }
    }
    forall r | 0 <= r < |after.rows| ensures RowOk(after, r) {
      assert RowOk(t, r);
    }
  }

  lemma AcquireKeepsTables(t: Tables, session: SessionId, seats: set<RowId>, ended: set<HoldId>)
    requires TablesOk(t) && AllActive(t, ended) && seats != {}
    requires forall r :: r in seats ==> r < |t.rows| && t.rows[r].session == session
    requires AtomicAcquire(t, session, seats, ended).Some?
    ensures TablesOk(AtomicAcquire(t, session, seats, ended).value)
  {
    EndKeepsTables(t, ended, Free);
    ClaimKeepsTables(EndHolds(t, ended, Free), session, seats);
  }

  lemma CancelKeepsTables(t: Tables, sessions: set<SessionId>)
    requires TablesOk(t)
    ensures TablesOk(AtomicCancel(t, sessions))
  {
    var ids := ActiveOn(t, sessions);
    EndKeepsTables(t, ids, Free);
    var ended, after := EndHolds(t, ids, Free), AtomicCancel(t, sessions);
    forall h | 0 <= h < |after.holds| ensures HoldOk(after, h) {
      assert HoldOk(ended, h);
      assert after.holds[h].active ==> h !in ids && t.holds[h].active;
    }
    forall r | 0 <= r < |after.rows| ensures RowOk(after, r) {
      assert RowOk(ended, r);
    }
  }

  lemma CommitKeepsTables(s: Sys, id: TxnId)
    requires Inv(s) && Enabled(s, Commit(id))
    ensures TablesOk(Next(s, Commit(id)).tables)
  {
    var x := s.txns[id];
    CommitIsAtomic(s, id);
    assert TxnOk(s.tables, x);
    match x.kind
    case Acquire(session) =>
      assert x.order[0] in Elements(x.order);
      AcquireKeepsTables(s.tables, session, Elements(x.order), x.holds);
    case Cancel(sessions, _) => CancelKeepsTables(s.tables, sessions);
    case End => EndKeepsTables(s.tables, x.holds, Free);
    case Visit(hold, sells) =>
      if sells && s.tables.holds[hold].active { EndKeepsTables(s.tables, {hold}, Sold); }
  }

  // ------------------------------------------------------------------------
  // What a commit leaves alone
  // ------------------------------------------------------------------------

  /** The tables after a commit differ only in locked rows, ended holds, one new hold and cancelled sessions. */
  ghost predicate Touches(t: Tables, after: Tables, locks: set<RowId>, ended: set<HoldId>) {
    && Since(t, after)
    && (forall r :: 0 <= r < |t.rows| && r !in locks ==> after.rows[r] == t.rows[r])
    && (forall h :: 0 <= h < |t.holds| && h !in ended ==> after.holds[h] == t.holds[h])
  }

  lemma EndTouches(t: Tables, ids: set<HoldId>, target: State, locks: set<RowId>)
    requires forall r :: 0 <= r < |t.rows| && OwnedBy(t.rows[r], ids) ==> r in locks
    ensures Touches(t, EndHolds(t, ids, target), locks, ids)
    ensures forall sessions :: Touches(t, EndHolds(t, ids, target).(cancelled := sessions), locks, ids)
  {
  }

  lemma ClaimTouches(t: Tables, session: SessionId, seats: set<RowId>, locks: set<RowId>)
    requires seats <= locks
    ensures Touches(t, Claim(t, session, seats), locks, {})
  {
  }

  lemma VisitTouches(t: Tables, seats: set<RowId>, hold: HoldId, locks: set<RowId>, holds: set<HoldId>)
    requires seats <= locks && hold in holds
    ensures Touches(t, t, locks, holds)
    ensures hold < |t.holds| && t.holds[hold].active ==> Touches(t, Sell(t, seats, hold), locks, holds)
  {
  }

  lemma SinceTransitive(a: Tables, b: Tables, c: Tables)
    requires Since(a, b) && Since(b, c)
    ensures Since(a, c)
  {
    forall h, r | |a.holds| <= h < |c.holds| && r in c.holds[h].rows && r < |c.rows|
      ensures a.rows[r].version < c.rows[r].version
    {
      if h < |b.holds| { assert c.holds[h].rows == b.holds[h].rows; }
    }
  }

  lemma AcquireTouches(t: Tables, session: SessionId, seats: set<RowId>, ended: set<HoldId>, locks: set<RowId>)
    requires seats <= locks && forall r :: 0 <= r < |t.rows| && OwnedBy(t.rows[r], ended) ==> r in locks
    ensures Touches(t, Claim(EndHolds(t, ended, Free), session, seats), locks, ended)
  {
    var mid := EndHolds(t, ended, Free);
    EndTouches(t, ended, Free, locks);
    ClaimTouches(mid, session, seats, locks);
    SinceTransitive(t, mid, Claim(mid, session, seats));
  }

  lemma CommitTouches(s: Sys, id: TxnId)
    requires Inv(s) && Enabled(s, Commit(id))
    ensures Touches(s.tables, CommitTables(s.tables, s.txns[id]), Locks(s.txns[id]), s.txns[id].holds)
  {
    hide Sell, EndHolds, Claim, Touches, Since, PlanOk;
    var t, x := s.tables, s.txns[id];
    assert TxnOk(t, x) && x.order[..x.next] == x.order;
    CommitOwnsItsRows(t, x);
    match x.kind
    case Acquire(session) =>
      AcquireTouches(t, session, Elements(x.order), x.holds, Locks(x));
    case Cancel(sessions, _) => EndTouches(t, x.holds, Free, Locks(x));
    case End => EndTouches(t, x.holds, Free, Locks(x));
    case Visit(hold, sells) =>
      VisitTouches(t, Elements(x.order), hold, Locks(x), x.holds);
  }

  /** A committing transaction has locked every row of the holds it ends. */
  lemma CommitOwnsItsRows(t: Tables, x: Txn)
    requires TablesOk(t) && TxnOk(t, x) && x.next == |x.order|
    requires x.kind.Acquire? ==> x.next > 0
    requires x.kind.End? ==> EndedRowsLocked(t, x)
    ensures EndedRowsLocked(t, x)
  {
    if x.kind.Cancel? || x.kind.Visit? {
      assert x.order[..x.next] == x.order;
      forall r | 0 <= r < |t.rows| && OwnedBy(t.rows[r], x.holds) ensures r in Locks(x) {
        assert RowOk(t, r) && HoldOk(t, t.rows[r].state.hold);
        assert r in Elements(x.order);
      }
    }
  }

  /** Another running transaction keeps its own invariant across a commit. */
  lemma OthersSurvive(s: Sys, id: TxnId, u: TxnId)
    requires Inv(s) && Enabled(s, Commit(id)) && u in s.txns && u != id
    ensures TxnOk(CommitTables(s.tables, s.txns[id]), s.txns[u])
  {
    var t, x, y := s.tables, s.txns[id], s.txns[u];
    var after := CommitTables(t, x);
    CommitTouches(s, id);
    assert TxnOk(t, x) && TxnOk(t, y) && Apart(x, y);
    match y.kind
    case Acquire(session) => AcquireSurvives(t, x, y, after);
    case Cancel(sessions, snapshot) =>
      SinceTransitive(snapshot, t, after);
      forall r | r in y.order[..y.next] ensures Unchanged(after, snapshot, r) {
        assert r in Locks(y);
      }
    case _ =>
  }

  lemma AcquireSurvives(t: Tables, x: Txn, y: Txn, after: Tables)
    requires TxnOk(t, x) && TxnOk(t, y) && Apart(x, y) && x.next == |x.order| && y.kind.Acquire?
    requires after == CommitTables(t, x) && Touches(t, after, Locks(x), x.holds)
    ensures TxnOk(after, y)
  {
    hide CommitTables;
    if y.decided { NotCancelledUnder(t, x, y); }
    if y.next > 0 { StillLocked(t, x, y); }
  }

  /** A decided acquisition holds a lock that any cancellation of its session needs too. */
  lemma CancelNeedsItsLock(t: Tables, x: Txn, y: Txn)
    requires TxnOk(t, x) && x.next == |x.order| && x.kind.Cancel?
    requires TxnOk(t, y) && y.kind.Acquire? && y.decided && y.kind.session in x.kind.sessions
    ensures y.order[0] in Locks(x) && y.order[0] in Locks(y)
  {
    var r := y.order[0];
    assert r in y.order && t.rows[r].session == y.kind.session;
    assert r in x.order && x.order == x.order[..x.next];
    assert y.order == y.order[..y.next];
  }

  lemma NotCancelledUnder(t: Tables, x: Txn, y: Txn)
    requires TxnOk(t, x) && TxnOk(t, y) && Apart(x, y) && x.next == |x.order|
    requires y.kind.Acquire? && y.decided
    ensures y.kind.session !in CommitTables(t, x).cancelled
  {
    if x.kind.Cancel? && y.kind.session in x.kind.sessions { CancelNeedsItsLock(t, x, y); }
  }

  lemma StillLocked(t: Tables, x: Txn, y: Txn)
    requires TxnOk(t, x) && TxnOk(t, y) && Apart(x, y) && EndedRowsLocked(t, y)
    ensures EndedRowsLocked(CommitTables(t, x), y)
  {
  }

  /** What a transaction has locked nobody else changes: its tests still hold when it commits. */
  lemma ReadsStand(s: Sys, step: Step, id: TxnId)
    requires Inv(s) && id in s.txns && step.id != id
    ensures var after := Next(s, step);
      && id in after.txns && after.txns[id] == s.txns[id] && s.txns[id].next <= |s.txns[id].order|
      && (forall h :: h in s.txns[id].holds ==>
            h < |s.tables.holds| <= |after.tables.holds| && after.tables.holds[h] == s.tables.holds[h])
      && (forall r :: r in Locks(s.txns[id]) && r < |s.tables.rows| ==>
            r < |after.tables.rows| && after.tables.rows[r] == s.tables.rows[r])
  {
    assert TxnOk(s.tables, s.txns[id]);
    if step.Commit? && Enabled(s, step) {
      CommitTouches(s, step.id);
      assert Apart(s.txns[step.id], s.txns[id]);
    }
  }

  lemma CommitKeepsInv(s: Sys, id: TxnId)
    requires Inv(s) && Enabled(s, Commit(id))
    ensures Inv(Next(s, Commit(id)))
  {
    CommitKeepsTables(s, id);
    forall u | u in s.txns && u != id ensures TxnOk(CommitTables(s.tables, s.txns[id]), s.txns[u]) {
      OthersSurvive(s, id, u);
    }
  }

  // ------------------------------------------------------------------------
  // The other steps
  // ------------------------------------------------------------------------

  /** Rewriting one transaction keeps the invariant if it stays good and takes nothing from the others. */
  lemma RewriteKeepsInv(s: Sys, id: TxnId, x: Txn)
    requires Inv(s) && TxnOk(s.tables, x)
    requires forall u :: u in s.txns && u != id ==> Apart(x, s.txns[u]) && Apart(s.txns[u], x)
    ensures Inv(s.(txns := s.txns[id := x]))
  {
  }

  /** The stepping transaction's own invariant. */
  lemma LockStepTxnOk(s: Sys, step: Step)
    requires Inv(s) && Enabled(s, step) && (step.TakeHold? || step.TakeRow? || step.Decide?)
    ensures TxnOk(s.tables, Next(s, step).txns[step.id])
  {
    assert TxnOk(s.tables, s.txns[step.id]);
  }

  lemma LockNextTxnOk(s: Sys, id: TxnId)
    requires Inv(s) && Enabled(s, LockNext(id))
    ensures s.txns[id].next < |s.txns[id].order| && TxnOk(s.tables, Next(s, LockNext(id)).txns[id])
  {
    var x := s.txns[id];
    assert TxnOk(s.tables, x);
    assert x.order[..x.next + 1] == x.order[..x.next] + [x.order[x.next]];
  }

  lemma LockStepKeepsInv(s: Sys, step: Step)
    requires Inv(s) && Enabled(s, step) && (step.TakeHold? || step.TakeRow? || step.Decide?)
    ensures Inv(Next(s, step))
  {
    hide TablesOk, OrderOk, PlanOk, Since;
    LockStepTxnOk(s, step);
    var x, y := s.txns[step.id], Next(s, step).txns[step.id];
    assert TxnOk(s.tables, x);
    forall u | u in s.txns && u != step.id ensures Apart(y, s.txns[u]) && Apart(s.txns[u], y) {
      assert Apart(x, s.txns[u]) && Apart(s.txns[u], x);
    }
    RewriteKeepsInv(s, step.id, y);
  }

  lemma LockNextKeepsInv(s: Sys, id: TxnId)
    requires Inv(s) && Enabled(s, LockNext(id))
    ensures Inv(Next(s, LockNext(id)))
  {
    hide TablesOk, OrderOk, PlanOk, Since, Pending, EndedRowsLocked;
    LockNextTxnOk(s, id);
    var x, y := s.txns[id], Next(s, LockNext(id)).txns[id];
    assert y.order[..y.next] == x.order[..x.next] + [x.order[x.next]];
    assert Locks(y) == Locks(x) + {x.order[x.next]};
    forall u | u in s.txns && u != id ensures Apart(y, s.txns[u]) && Apart(s.txns[u], y) {
      assert Apart(x, s.txns[u]) && Apart(s.txns[u], x);
    }
    RewriteKeepsInv(s, id, y);
  }

  lemma FreshTxn(s: Sys, id: TxnId, kind: Kind, order: seq<RowId>, plan: set<HoldId>)
    requires Inv(s) && Enabled(s, Begin(id, kind, order, plan))
    ensures var x := Txn(kind, order, plan, 0, {}, {}, false);
      TxnOk(s.tables, x) && forall u :: u in s.txns && u != id ==> Apart(x, s.txns[u]) && Apart(s.txns[u], x)
  {
    hide OrderOk, PlanOk, TablesOk, Pending;
    assert order[..0] == [];
    assert forall u :: u in s.txns ==> TxnOk(s.tables, s.txns[u]);
  }

  lemma BeginKeepsInv(s: Sys, id: TxnId, kind: Kind, order: seq<RowId>, plan: set<HoldId>)
    requires Inv(s) && Enabled(s, Begin(id, kind, order, plan))
    ensures Inv(Next(s, Begin(id, kind, order, plan)))
  {
    hide TxnOk, Apart, TablesOk, OrderOk;
    FreshTxn(s, id, kind, order, plan);
    RewriteKeepsInv(s, id, Txn(kind, order, plan, 0, {}, {}, false));
  }

  lemma NextKeepsInv(s: Sys, step: Step)
    requires Inv(s)
    ensures Inv(Next(s, step))
  {
    if Enabled(s, step) {
      match step
      case Begin(id, kind, order, plan) => BeginKeepsInv(s, id, kind, order, plan);
      case LockNext(id) => LockNextKeepsInv(s, id);
      case Commit(id) => CommitKeepsInv(s, id);
      case Abort(id) =>
      case _ => LockStepKeepsInv(s, step);
    }
  }

  lemma {:induction false} RunKeepsInv(s: Sys, steps: seq<Step>)
    requires Inv(s)
    ensures Inv(Run(s, steps))
    decreases |steps|
  {
    if steps != [] {
      NextKeepsInv(s, steps[0]);
      RunKeepsInv(Next(s, steps[0]), steps[1..]);
    }
  }

  /** Materialised inventory with nothing held and nothing running. */
  lemma FreshInv(rows: seq<Row>)
    requires forall r :: 0 <= r < |rows| ==> rows[r].state == Free
    ensures Inv(Sys(Tables(rows, [], {}), map[]))
  {
  }

  /** No active hold is on a cancelled session, and no two share a row. */
  ghost predicate Safe(t: Tables) {
    && ActiveOn(t, t.cancelled) == {}
    && forall a, b :: 0 <= a < |t.holds| && 0 <= b < |t.holds| && a != b && t.holds[a].active && t.holds[b].active
         ==> t.holds[a].rows !! t.holds[b].rows
  }

  /**
   * No interleaving of acquisitions, cancellations, endings, checkouts and
   * payments commits an active hold on a cancelled session, or two active holds
   * over one row.
   */
  lemma RunIsSafe(s: Sys, steps: seq<Step>)
    requires Inv(s)
    ensures Safe(Run(s, steps).tables)
  {
    RunKeepsInv(s, steps);
    var t := Run(s, steps).tables;
    forall h | 0 <= h < |t.holds| && t.holds[h].active ensures t.holds[h].session !in t.cancelled {
      assert HoldOk(t, h);
    }
    forall a, b | 0 <= a < |t.holds| && 0 <= b < |t.holds| && a != b && t.holds[a].active && t.holds[b].active
      ensures t.holds[a].rows !! t.holds[b].rows
    {
      assert HoldOk(t, a) && HoldOk(t, b);
    }
  }

  /** Every interleaving is safe from the moment the inventory is materialised. */
  lemma SafeFromTheStart(rows: seq<Row>, steps: seq<Step>)
    requires forall r :: 0 <= r < |rows| ==> rows[r].state == Free
    ensures Safe(Run(Sys(Tables(rows, [], {}), map[]), steps).tables)
  {
    FreshInv(rows);
    RunIsSafe(Sys(Tables(rows, [], {}), map[]), steps);
  }
}
