/**
 * Delivering outbox rows to the event stream. A publication takes effect at
 * once; the row updates of a batch only when its transaction commits. Several
 * dispatchers run at once, each skipping the rows the others have locked.
 */
module OutboxDispatch {
  import opened Common

  /** `wellFormed` says whether the payload parses and names this very row. Rows are numbered in claiming order. */
  datatype Row = Row(
    wellFormed: bool,
    availableAt: Time,
    attempts: nat,
    processedAt: Option<Time>,
    deadLetterAt: Option<Time>)

  datatype Config = Config(batchSize: nat, maxAttempts: nat, backoffBase: nat, backoffMax: nat)

  /** The bounds of the environment schema. */
  predicate ConfigOk(c: Config) {
    1 <= c.batchSize <= 500 && 1 <= c.maxAttempts <= 25
  }

  /** What becomes of one call to publish: done, failed before the script ran, or failed after it. */
  datatype Fault = Fine | Unreached | ReplyLost

  /** The stream and the deduplication keys beside it; neither is trimmed or expires here. */
  datatype Stream = Stream(entries: seq<nat>, dedup: set<nat>)

  // ------------------------------------------------------------------------
  // Backoff
  // ------------------------------------------------------------------------

  function Pow2(n: nat): nat {
    if n == 0 then 1 else 2 * Pow2(n - 1)
  }

  /** calculateOutboxBackoffMs. */
  function Backoff(attempt: nat, base: nat, cap: nat): nat
    requires attempt >= 1
  {
    var exponent := if attempt - 1 < 30 then attempt - 1 else 30;
    var delay := base * Pow2(exponent);
    if cap < delay then cap else delay
  }

  /** Each retry waits at least as long as the one before, never beyond the cap, and twice as long until it reaches it. */
  lemma BackoffGrows(attempt: nat, base: nat, cap: nat)
    requires attempt >= 1
    ensures Backoff(attempt, base, cap) <= Backoff(attempt + 1, base, cap) <= cap
    ensures attempt <= 30 && Backoff(attempt + 1, base, cap) < cap ==>
      Backoff(attempt + 1, base, cap) == 2 * Backoff(attempt, base, cap)
  {
    var e := if attempt - 1 < 30 then attempt - 1 else 30;
    if attempt <= 30 {
      assert Pow2(attempt) == 2 * Pow2(e);
      assert base * Pow2(attempt) == 2 * (base * Pow2(e));
    }
  }

  // ------------------------------------------------------------------------
  // One row
  // ------------------------------------------------------------------------

  predicate Open(r: Row) {
    r.processedAt.None? && r.deadLetterAt.None?
  }

  predicate Ready(r: Row, now: Time) {
    Open(r) && r.availableAt <= now
  }

  /** The publish script: SET NX, and XADD only when the key was new. */
  function Publish(s: Stream, id: nat): Stream {
    if id in s.dedup then s else Stream(s.entries + [id], s.dedup + {id})
  }

  predicate Reaches(r: Row, f: Fault) {
    r.wellFormed && f != Unreached
  }

  function AfterAttempt(s: Stream, id: nat, r: Row, f: Fault): Stream {
    if Reaches(r, f) then Publish(s, id) else s
  }

  /** The row's update: processed, or one attempt more and perhaps dead-lettered. */
  function Outcome(r: Row, f: Fault, now: Time, c: Config): Row {
    if r.wellFormed && f == Fine then r.(processedAt := Some(now))
    else
      var attempts := r.attempts + 1;
      r.(attempts := attempts,
         availableAt := now + Backoff(attempts, c.backoffBase, c.backoffMax),
         deadLetterAt := if attempts >= c.maxAttempts then Some(now) else None)
  }

  function Least(a: int, b: int): int {
    if a < b then a else b
  }

  /**
   * A failed try counts one attempt. It dead-letters the row exactly when that
   * was the last one allowed, and otherwise leaves it open until a delay that
   * doubles with every attempt, thirty times at most, up to the cap.
   */
  lemma FailedTry(r: Row, f: Fault, now: Time, c: Config)
    requires Open(r) && !(r.wellFormed && f == Fine)
    ensures var after := Outcome(r, f, now, c);
      && after.attempts == r.attempts + 1 && after.wellFormed == r.wellFormed && after.processedAt.None?
      && after.deadLetterAt == (if r.attempts + 1 >= c.maxAttempts then Some(now) else None)
      && (Open(after) <==> r.attempts + 1 < c.maxAttempts)
      && after.availableAt == now + Least(c.backoffMax, c.backoffBase * Pow2(Least(r.attempts, 30)))
      && (r.attempts == 0 ==> after.availableAt == now + Least(c.backoffMax, c.backoffBase))
  {
  }

  /** A try that succeeds processes the row and changes nothing else; it is in the stream from then on. */
  lemma FineTry(s: Stream, id: nat, r: Row, now: Time, c: Config)
    requires r.wellFormed
    ensures Outcome(r, Fine, now, c) == r.(processedAt := Some(now))
    ensures id in AfterAttempt(s, id, r, Fine).dedup
  {
  }

  /** A try reaches the stream unless the payload is malformed or the call never arrived, even when its reply is lost. */
  lemma ReachedExactly(s: Stream, id: nat, r: Row, f: Fault)
    requires id !in s.dedup
    ensures AfterAttempt(s, id, r, f) ==
      if r.wellFormed && f in {Fine, ReplyLost} then Stream(s.entries + [id], s.dedup + {id}) else s
  {
  }

  /** The claiming query: the first `limit` ready rows that nobody has locked. */
  function Claim(rows: seq<Row>, now: Time, limit: nat, locked: set<nat>, start: nat): seq<nat>
    requires start <= |rows|
    decreases |rows| - start
  {
    if start == |rows| || limit == 0 then []
    else if Ready(rows[start], now) && start !in locked then
      [start] + Claim(rows, now, limit - 1, locked, start + 1)
    else Claim(rows, now, limit, locked, start + 1)
  }

  /** `ids` are the first `limit` ready rows from `start` on that nobody has locked. */
  ghost predicate FirstReady(ids: seq<nat>, rows: seq<Row>, now: Time, limit: nat, locked: set<nat>, start: nat) {
    && |ids| <= limit
    && (forall i, j :: 0 <= i < j < |ids| ==> ids[i] < ids[j])
    && (forall id :: id in ids ==> start <= id < |rows| && Ready(rows[id], now) && id !in locked)
    && (forall id :: start <= id < |rows| && Ready(rows[id], now) && id !in locked && id !in ids ==>
          |ids| == limit && forall k :: k in ids ==> k < id)
  }

  lemma {:induction false} ClaimSpec(rows: seq<Row>, now: Time, limit: nat, locked: set<nat>, start: nat)
    requires start <= |rows|
    ensures FirstReady(Claim(rows, now, limit, locked, start), rows, now, limit, locked, start)
    decreases |rows| - start
  {
    if start == |rows| || limit == 0 {
    } else if Ready(rows[start], now) && start !in locked {
      ClaimSpec(rows, now, limit - 1, locked, start + 1);
      ClaimFirst(Claim(rows, now, limit - 1, locked, start + 1), rows, now, limit, locked, start);
    } else {
      ClaimSpec(rows, now, limit, locked, start + 1);
    }
  }

  lemma ClaimFirst(rest: seq<nat>, rows: seq<Row>, now: Time, limit: nat, locked: set<nat>, start: nat)
    requires start < |rows| && limit > 0 && Ready(rows[start], now) && start !in locked
    requires FirstReady(rest, rows, now, limit - 1, locked, start + 1)
    ensures FirstReady([start] + rest, rows, now, limit, locked, start)
  {
    var ids := [start] + rest;
    forall j | 0 <= j < |rest| ensures start < rest[j] { assert rest[j] in rest; }
    assert forall id :: id in ids <==> id == start || id in rest;
  }

  // ------------------------------------------------------------------------
  // Dispatchers, row by row
  // ------------------------------------------------------------------------

  /** A transaction in progress: its claim, how far it got, and the updates it has not committed. */
  datatype Batch = Batch(ids: seq<nat>, done: nat, now: Time, pending: map<nat, Row>)

  datatype Sys = Sys(rows: seq<Row>, stream: Stream, running: map<nat, Batch>)

  datatype Step =
    | Enqueue(wellFormed: bool, availableAt: Time)
    | Begin(d: nat, now: Time)
    | Attempt(d: nat, fault: Fault)
    | Commit(d: nat)
    | Abort(d: nat)

  function Locked(running: map<nat, Batch>): set<nat> {
    set d, id | d in running && id in running[d].ids :: id
  }

  predicate Enabled(s: Sys, step: Step) {
    match step
    case Enqueue(_, _) => true
    case Begin(d, _) => d !in s.running
    case Attempt(d, _) =>
      d in s.running && s.running[d].done < |s.running[d].ids| && s.running[d].ids[s.running[d].done] < |s.rows|
    case Commit(d) => d in s.running && s.running[d].done == |s.running[d].ids|
    case Abort(d) => d in s.running
  }

  function Written(rows: seq<Row>, pending: map<nat, Row>): seq<Row> {
    seq(|rows|, i requires 0 <= i < |rows| => if i in pending then pending[i] else rows[i])
  }

  function Next(s: Sys, step: Step, c: Config): Sys {
    if !Enabled(s, step) then s
    else
      match step
      case Enqueue(wellFormed, at) => s.(rows := s.rows + [Row(wellFormed, at, 0, None, None)])
      case Begin(d, now) =>
        var ids := Claim(s.rows, now, c.batchSize, Locked(s.running), 0);
        s.(running := s.running[d := Batch(ids, 0, now, map[])])
      case Attempt(d, fault) =>
        var b := s.running[d];
        var id := b.ids[b.done];
        var b' := b.(done := b.done + 1, pending := b.pending[id := Outcome(s.rows[id], fault, b.now, c)]);
        s.(stream := AfterAttempt(s.stream, id, s.rows[id], fault), running := s.running[d := b'])
      case Commit(d) => s.(rows := Written(s.rows, s.running[d].pending), running := s.running - {d})
      case Abort(d) => s.(running := s.running - {d})
  }

  function Run(s: Sys, steps: seq<Step>, c: Config): Sys
    decreases |steps|
  {
    if steps == [] then s else Run(Next(s, steps[0], c), steps[1..], c)
  }

  // ------------------------------------------------------------------------
  // Exactly once
  // ------------------------------------------------------------------------

  ghost predicate StreamOk(s: Stream) {
    Distinct(s.entries) && Elements(s.entries) == s.dedup
  }

  /** A processed row is in the stream; a row is dead exactly when its attempts are used up. */
  ghost predicate RowOk(id: nat, r: Row, s: Stream, c: Config) {
    && r.attempts <= c.maxAttempts
    && (r.processedAt.Some? ==> id in s.dedup && r.wellFormed)
    && (r.deadLetterAt.Some? <==> r.attempts == c.maxAttempts)
    && !(r.processedAt.Some? && r.deadLetterAt.Some?)
  }

  ghost predicate BatchOk(s: Sys, b: Batch, c: Config) {
    && Distinct(b.ids) && b.done <= |b.ids|
    && (forall id :: id in b.ids ==> id < |s.rows| && Open(s.rows[id]))
    && b.pending.Keys == Elements(b.ids[..b.done])
    && forall id :: id in b.pending ==>
         && id in b.ids && RowOk(id, b.pending[id], s.stream, c)
         && Weight(b.pending[id], c) < Weight(s.rows[id], c)
  }

  ghost predicate Apart(a: Batch, b: Batch) {
    Elements(a.ids) !! Elements(b.ids)
  }

  ghost predicate Inv(s: Sys, c: Config) {
    && StreamOk(s.stream)
    && (forall i :: 0 <= i < |s.rows| ==> RowOk(i, s.rows[i], s.stream, c))
    && (forall d :: d in s.running ==> BatchOk(s, s.running[d], c))
    && (forall d, e :: d in s.running && e in s.running && d != e ==> Apart(s.running[d], s.running[e]))
  }

  /** The attempts an open row still has. */
  function Weight(r: Row, c: Config): int {
    if Open(r) then c.maxAttempts - r.attempts else 0
  }

  lemma PublishKeeps(s: Stream, id: nat)
    requires StreamOk(s)
    ensures StreamOk(Publish(s, id)) && id in Publish(s, id).dedup && s.dedup <= Publish(s, id).dedup
  {
    if id !in s.dedup {
      assert id !in Elements(s.entries);
      assert Elements(s.entries + [id]) == Elements(s.entries) + {id};
    }
  }

  lemma OutcomeOk(id: nat, r: Row, f: Fault, now: Time, s: Stream, c: Config)
    requires StreamOk(s) && RowOk(id, r, s, c) && Open(r)
    ensures RowOk(id, Outcome(r, f, now, c), AfterAttempt(s, id, r, f), c)
    ensures Weight(Outcome(r, f, now, c), c) < Weight(r, c)
  {
    PublishKeeps(s, id);
  }

  /** The attempting dispatcher's own batch. */
  lemma AttemptKeepsBatch(s: Sys, d: nat, fault: Fault, c: Config)
    requires Inv(s, c) && Enabled(s, Attempt(d, fault))
    ensures var after := Next(s, Attempt(d, fault), c); BatchOk(after, after.running[d], c)
  {
    var b, after := s.running[d], Next(s, Attempt(d, fault), c);
    assert BatchOk(s, b, c);
    var id := b.ids[b.done];
    OutcomeOk(id, s.rows[id], fault, b.now, s.stream, c);
    PublishKeeps(s.stream, id);
    assert s.stream.dedup <= after.stream.dedup;
    assert b.ids[..b.done + 1] == b.ids[..b.done] + [id];
  }

  /** More in the stream breaks nothing. */
  lemma LongerStream(s: Sys, stream: Stream, c: Config)
    requires Inv(s, c) && s.stream.dedup <= stream.dedup
    ensures forall i :: 0 <= i < |s.rows| ==> RowOk(i, s.rows[i], stream, c)
    ensures forall d :: d in s.running ==> BatchOk(s.(stream := stream), s.running[d], c)
  {
    forall d | d in s.running ensures BatchOk(s.(stream := stream), s.running[d], c) {
      assert BatchOk(s, s.running[d], c);
    }
  }

  lemma AttemptKeepsInv(s: Sys, d: nat, fault: Fault, c: Config)
    requires Inv(s, c) && Enabled(s, Attempt(d, fault))
    ensures Inv(Next(s, Attempt(d, fault), c), c)
  {
    hide RowOk, BatchOk;
    var b, after := s.running[d], Next(s, Attempt(d, fault), c);
    AttemptKeepsBatch(s, d, fault, c);
    PublishKeeps(s.stream, b.ids[b.done]);
    LongerStream(s, after.stream, c);
    forall e | e in after.running && e != d ensures BatchOk(after, after.running[e], c) {
      SameBatch(s.(stream := after.stream), after, s.running[e], c);
    }
    assert forall e, f :: e in after.running && f in after.running && e != f ==>
      Apart(s.running[e], s.running[f]) && Apart(after.running[e], after.running[f]);
  }

  lemma SameBatch(s: Sys, after: Sys, b: Batch, c: Config)
    requires s.rows == after.rows && s.stream == after.stream && BatchOk(s, b, c)
    ensures BatchOk(after, b, c)
  {
  }

  lemma BeginKeepsInv(s: Sys, d: nat, now: Time, c: Config)
    requires Inv(s, c) && Enabled(s, Begin(d, now))
    ensures Inv(Next(s, Begin(d, now), c), c)
  {
    ClaimSpec(s.rows, now, c.batchSize, Locked(s.running), 0);
    var after := Next(s, Begin(d, now), c);
    var b := after.running[d];
    assert b.ids[..0] == [] && BatchOk(after, b, c);
    forall e | e in s.running ensures BatchOk(after, s.running[e], c) && Apart(b, s.running[e]) && Apart(s.running[e], b) {
      assert BatchOk(s, s.running[e], c);
      assert forall id :: id in s.running[e].ids ==> id in Locked(s.running);
    }
  }

  lemma CommitKeepsInv(s: Sys, d: nat, c: Config)
    requires Inv(s, c) && Enabled(s, Commit(d))
    ensures Inv(Next(s, Commit(d), c), c)
  {
    var b, after := s.running[d], Next(s, Commit(d), c);
    assert BatchOk(s, b, c);
    forall e | e in after.running ensures BatchOk(after, after.running[e], c) {
      assert BatchOk(s, s.running[e], c) && Apart(s.running[d], s.running[e]);
      assert b.pending.Keys <= Elements(b.ids) && Elements(b.ids) !! Elements(s.running[e].ids);
      assert forall id :: id in s.running[e].ids ==> id in Elements(s.running[e].ids);
    }
    assert forall e, f :: e in after.running && f in after.running && e != f ==> Apart(s.running[e], s.running[f]);
  }

  lemma NextKeepsInv(s: Sys, step: Step, c: Config)
    requires Inv(s, c) && c.maxAttempts >= 1
    ensures Inv(Next(s, step, c), c)
  {
    if Enabled(s, step) {
      match step
      case Enqueue(_, _) =>
        var after := Next(s, step, c);
        forall e | e in after.running ensures BatchOk(after, after.running[e], c) {
          assert BatchOk(s, s.running[e], c);
        }
      case Begin(d, now) => BeginKeepsInv(s, d, now, c);
      case Attempt(d, fault) => AttemptKeepsInv(s, d, fault, c);
      case Commit(d) => CommitKeepsInv(s, d, c);
      case Abort(d) =>
    }
  }

  /** A settled row never changes again, and the stream only grows. */
  ghost predicate Later(a: Sys, b: Sys) {
    && |a.rows| <= |b.rows|
    && (forall i :: 0 <= i < |a.rows| && !Open(a.rows[i]) ==> b.rows[i] == a.rows[i])
    && a.stream.entries <= b.stream.entries
  }

  lemma NextIsLater(s: Sys, step: Step, c: Config)
    requires Inv(s, c)
    ensures Later(s, Next(s, step, c))
  {
    if step.Commit? && step.d in s.running { assert BatchOk(s, s.running[step.d], c); }
  }

  /** How often an id occurs in the stream. */
  function Occurrences(entries: seq<nat>, id: nat): nat {
    multiset(entries)[id]
  }

  lemma {:induction false} DistinctOnce(entries: seq<nat>, id: nat)
    requires Distinct(entries)
    ensures Occurrences(entries, id) == if id in entries then 1 else 0
  {
    if entries != [] {
      var front, last := entries[..|entries| - 1], entries[|entries| - 1];
      assert entries == front + [last];
      DistinctOnce(front, id);
      assert last !in front;
    }
  }

  /** What the script is for: the id is in the stream afterwards, once, and no other id comes or goes. */
  lemma PublishOnce(s: Stream, id: nat)
    ensures var after := Publish(s, id);
      && id in after.dedup && s.entries <= after.entries && Publish(after, id) == after
      && (after.entries == s.entries <==> id in s.dedup)
      && (StreamOk(s) ==> StreamOk(after) && Occurrences(after.entries, id) == 1)
      && forall other :: other != id ==> Occurrences(after.entries, other) == Occurrences(s.entries, other)
  {
    var after := Publish(s, id);
    if StreamOk(s) {
      PublishKeeps(s, id);
      DistinctOnce(after.entries, id);
      assert id in Elements(after.entries);
    }
  }

  /**
   * However dispatchers interleave, abort after publishing part of a batch and
   * run again: no id is ever in the stream twice, every processed row is in it
   * exactly once, attempts stay within the maximum, and what is settled stays.
   */
  lemma {:induction false} ExactlyOnce(s: Sys, steps: seq<Step>, c: Config)
    requires Inv(s, c) && c.maxAttempts >= 1
    ensures var end := Run(s, steps, c);
      && Inv(end, c) && Later(s, end)
      && (forall id :: Occurrences(end.stream.entries, id) <= 1)
      && (forall id :: 0 <= id < |end.rows| && end.rows[id].processedAt.Some? ==> Occurrences(end.stream.entries, id) == 1)
      && (forall id :: 0 <= id < |end.rows| ==> end.rows[id].attempts <= c.maxAttempts)
    decreases |steps|
  {
    if steps == [] {
      forall id: nat ensures Occurrences(s.stream.entries, id) == if id in s.stream.dedup then 1 else 0 {
        DistinctOnce(s.stream.entries, id);
        assert id in s.stream.entries <==> id in Elements(s.stream.entries);
      }
    } else {
      var mid := Next(s, steps[0], c);
      NextKeepsInv(s, steps[0], c);
      NextIsLater(s, steps[0], c);
      ExactlyOnce(mid, steps[1..], c);
      var end := Run(s, steps, c);
      assert Later(mid, end);
    }
  }

  /** An outbox that starts empty and a stream that starts empty. */
  const EMPTY := Sys([], Stream([], {}), map[])

  /**
   * So whatever is enqueued and however it is dispatched, what is processed was
   * streamed exactly once, and what is dead failed exactly as often as allowed.
   */
  lemma DeliveredFromEmpty(steps: seq<Step>, c: Config)
    requires ConfigOk(c)
    ensures var end := Run(EMPTY, steps, c);
      && Inv(end, c)
      && (forall id :: Occurrences(end.stream.entries, id) <= 1)
      && (forall id :: 0 <= id < |end.rows| && end.rows[id].processedAt.Some? ==> Occurrences(end.stream.entries, id) == 1)
      && (forall id :: 0 <= id < |end.rows| ==>
            (end.rows[id].deadLetterAt.Some? <==> FailedCommits(EMPTY, steps, c, id) == c.maxAttempts))
  {
    assert Inv(EMPTY, c);
    ExactlyOnce(EMPTY, steps, c);
    forall id | 0 <= id < |Run(EMPTY, steps, c).rows|
      ensures Run(EMPTY, steps, c).rows[id].deadLetterAt.Some? <==> FailedCommits(EMPTY, steps, c, id) == c.maxAttempts
    {
      AttemptsAreFailures(EMPTY, steps, c, id);
    }
  }

  // ------------------------------------------------------------------------
  // Attempts are failures that were committed
  // ------------------------------------------------------------------------

  function AttemptsOf(s: Sys, id: nat): nat {
    if id < |s.rows| then s.rows[id].attempts else 0
  }

  /** The step commits a batch in which the row was tried and not processed. */
  predicate CommitsFailure(s: Sys, step: Step, id: nat) {
    step.Commit? && Enabled(s, step) && id in s.running[step.d].pending && s.running[step.d].pending[id].processedAt.None?
  }

  function FailedCommits(s: Sys, steps: seq<Step>, c: Config, id: nat): nat
    decreases |steps|
  {
    if steps == [] then 0
    else (if CommitsFailure(s, steps[0], id) then 1 else 0) + FailedCommits(Next(s, steps[0], c), steps[1..], c, id)
  }

  /** An uncommitted update counts one attempt more exactly if the try failed. */
  ghost predicate UpdateOk(rows: seq<Row>, b: Batch, id: nat)
    requires id in b.pending
  {
    id < |rows| && b.pending[id].attempts == rows[id].attempts + if b.pending[id].processedAt.Some? then 0 else 1
  }

  ghost predicate PendingOk(s: Sys) {
    forall d, id :: d in s.running && id in s.running[d].pending ==> UpdateOk(s.rows, s.running[d], id)
  }

  lemma OthersNotPending(s: Sys, d: nat, e: nat, c: Config, id: nat)
    requires Inv(s, c) && d in s.running && e in s.running && d != e && id in s.running[e].pending
    ensures id !in s.running[d].pending
  {
    assert BatchOk(s, s.running[d], c) && BatchOk(s, s.running[e], c) && Apart(s.running[d], s.running[e]);
    assert s.running[d].pending.Keys <= Elements(s.running[d].ids);
    assert s.running[e].pending.Keys <= Elements(s.running[e].ids);
  }

  lemma CommitKeepsPending(s: Sys, d: nat, c: Config)
    requires Inv(s, c) && PendingOk(s) && Enabled(s, Commit(d))
    ensures PendingOk(Next(s, Commit(d), c))
  {
    hide Inv;
    var after := Next(s, Commit(d), c);
    forall e, id | e in after.running && id in after.running[e].pending
      ensures UpdateOk(after.rows, after.running[e], id)
    {
      assert e in s.running && e != d && after.running[e] == s.running[e];
      OthersNotPending(s, d, e, c, id);
      assert UpdateOk(s.rows, s.running[e], id);
    }
  }

  lemma AttemptKeepsPending(s: Sys, d: nat, fault: Fault, c: Config)
    requires Inv(s, c) && PendingOk(s) && Enabled(s, Attempt(d, fault))
    ensures PendingOk(Next(s, Attempt(d, fault), c))
  {
    var b, after := s.running[d], Next(s, Attempt(d, fault), c);
    assert BatchOk(s, b, c);
    var id := b.ids[b.done];
    hide Inv, AfterAttempt, Backoff;
    assert id in b.ids && Open(s.rows[id]);
    forall e, x | e in after.running && x in after.running[e].pending ensures UpdateOk(after.rows, after.running[e], x) {
      if e != d || x != id { assert x in s.running[e].pending && UpdateOk(s.rows, s.running[e], x); }
    }
  }

  lemma NextKeepsPending(s: Sys, step: Step, c: Config)
    requires Inv(s, c) && PendingOk(s)
    ensures PendingOk(Next(s, step, c))
  {
    match step
    case Commit(d) => if Enabled(s, step) { CommitKeepsPending(s, d, c); }
    case Attempt(d, fault) => if Enabled(s, step) { AttemptKeepsPending(s, d, fault, c); }
    case _ =>
      var after := Next(s, step, c);
      forall e, x | e in after.running && x in after.running[e].pending ensures UpdateOk(after.rows, after.running[e], x) {
        assert e in s.running && UpdateOk(s.rows, s.running[e], x);
      }
  }

  lemma NextCounts(s: Sys, step: Step, c: Config, id: nat)
    requires Inv(s, c) && PendingOk(s)
    ensures AttemptsOf(Next(s, step, c), id) == AttemptsOf(s, id) + if CommitsFailure(s, step, id) then 1 else 0
  {
    hide Inv;
    if step.Commit? && Enabled(s, step) && id in s.running[step.d].pending {
      assert UpdateOk(s.rows, s.running[step.d], id);
    }
  }

  /**
   * Over every interleaving, aborted tries included, a row's attempts are exactly
   * its tries that failed and were committed, and it is dead-lettered exactly
   * when they reach the maximum.
   */
  lemma {:induction false} AttemptsAreFailures(s: Sys, steps: seq<Step>, c: Config, id: nat)
    requires Inv(s, c) && PendingOk(s) && c.maxAttempts >= 1
    ensures var end := Run(s, steps, c); var attempts := AttemptsOf(s, id) + FailedCommits(s, steps, c, id);
      && PendingOk(end) && AttemptsOf(end, id) == attempts
      && (id < |end.rows| ==> (end.rows[id].deadLetterAt.Some? <==> attempts == c.maxAttempts))
    decreases |steps|
  {
    if steps == [] {
      assert id < |s.rows| ==> RowOk(id, s.rows[id], s.stream, c);
    } else {
      hide Inv, PendingOk;
      NextKeepsInv(s, steps[0], c);
      NextKeepsPending(s, steps[0], c);
      NextCounts(s, steps[0], c, id);
      AttemptsAreFailures(Next(s, steps[0], c), steps[1..], c, id);
    }
  }

  // ------------------------------------------------------------------------
  // Every row is settled in the end
  // ------------------------------------------------------------------------

  function Total(rows: seq<Row>, c: Config): int {
    if rows == [] then 0 else Total(rows[..|rows| - 1], c) + Weight(rows[|rows| - 1], c)
  }

  lemma {:induction false} TotalFalls(before: seq<Row>, after: seq<Row>, c: Config)
    requires |before| == |after| && forall i :: 0 <= i < |before| ==> 0 <= Weight(after[i], c) <= Weight(before[i], c)
    ensures 0 <= Total(after, c) <= Total(before, c)
    ensures (exists i :: 0 <= i < |before| && Weight(after[i], c) < Weight(before[i], c)) ==> Total(after, c) < Total(before, c)
  {
    if before != [] {
      TotalFalls(before[..|before| - 1], after[..|after| - 1], c);
    }
  }

  /** A committed batch that claimed anything spends at least one of the remaining attempts. */
  lemma CommitSpends(s: Sys, d: nat, c: Config)
    requires Inv(s, c) && Enabled(s, Commit(d))
    ensures 0 <= Total(Next(s, Commit(d), c).rows, c) <= Total(s.rows, c)
    ensures s.running[d].ids != [] ==> Total(Next(s, Commit(d), c).rows, c) < Total(s.rows, c)
  {
    var b, after := s.running[d], Next(s, Commit(d), c);
    assert BatchOk(s, b, c);
    CommitKeepsInv(s, d, c);
    assert forall i :: 0 <= i < |after.rows| ==> RowOk(i, after.rows[i], after.stream, c);
    TotalFalls(s.rows, after.rows, c);
    if b.ids != [] {
      assert b.ids[..b.done] == b.ids && b.ids[0] in Elements(b.ids);
      assert Weight(after.rows[b.ids[0]], c) < Weight(s.rows[b.ids[0]], c);
    }
  }

  /** The commits of a run that had claimed something. */
  function Spending(s: Sys, steps: seq<Step>, c: Config): nat
    decreases |steps|
  {
    if steps == [] then 0
    else
      (if steps[0].Commit? && Enabled(s, steps[0]) && s.running[steps[0].d].ids != [] then 1 else 0)
      + Spending(Next(s, steps[0], c), steps[1..], c)
  }

  lemma TotalNonNegative(s: Sys, c: Config)
    requires Inv(s, c)
    ensures Total(s.rows, c) >= 0
  {
    assert forall i :: 0 <= i < |s.rows| ==> RowOk(i, s.rows[i], s.stream, c);
    TotalFalls(s.rows, s.rows, c);
  }

  /** Without new rows there are only so many such commits: as many as there are attempts left. */
  lemma {:induction false} CommitsAreBounded(s: Sys, steps: seq<Step>, c: Config)
    requires Inv(s, c) && c.maxAttempts >= 1
    requires forall i :: 0 <= i < |steps| ==> !steps[i].Enqueue?
    ensures Spending(s, steps, c) <= Total(s.rows, c) - Total(Run(s, steps, c).rows, c)
    ensures Total(Run(s, steps, c).rows, c) >= 0
    decreases |steps|
  {
    if steps == [] {
      TotalNonNegative(s, c);
    } else {
      NextKeepsInv(s, steps[0], c);
      if steps[0].Commit? && Enabled(s, steps[0]) { CommitSpends(s, steps[0].d, c); }
      CommitsAreBounded(Next(s, steps[0], c), steps[1..], c);
    }
  }

  lemma {:induction false} NothingLeft(rows: seq<Row>, c: Config)
    requires forall i :: 0 <= i < |rows| ==> 0 <= Weight(rows[i], c) && (Open(rows[i]) ==> Weight(rows[i], c) > 0)
    ensures Total(rows, c) >= 0
    ensures Total(rows, c) == 0 <==> forall i :: 0 <= i < |rows| ==> !Open(rows[i])
  {
    if rows != [] {
      NothingLeft(rows[..|rows| - 1], c);
      assert forall i :: 0 <= i < |rows| - 1 ==> rows[..|rows| - 1][i] == rows[i];
    }
  }

  /** When no attempts are left every row is processed or dead-lettered; while some are, an idle system can claim a row. */
  lemma SettledOrClaimable(s: Sys, d: nat, c: Config)
    requires Inv(s, c) && ConfigOk(c) && s.running == map[]
    ensures Total(s.rows, c) == 0 <==> forall i :: 0 <= i < |s.rows| ==> !Open(s.rows[i])
    ensures Total(s.rows, c) > 0 ==> exists now :: Next(s, Begin(d, now), c).running[d].ids != []
  {
    forall i | 0 <= i < |s.rows| ensures 0 <= Weight(s.rows[i], c) && (Open(s.rows[i]) ==> Weight(s.rows[i], c) > 0) {
      assert RowOk(i, s.rows[i], s.stream, c);
    }
    NothingLeft(s.rows, c);
    if Total(s.rows, c) > 0 {
      var i :| 0 <= i < |s.rows| && Open(s.rows[i]);
      var now := s.rows[i].availableAt;
      ClaimSpec(s.rows, now, c.batchSize, {}, 0);
      assert Locked(s.running) == {} && Ready(s.rows[i], now);
      assert Next(s, Begin(d, now), c).running[d].ids == Claim(s.rows, now, c.batchSize, {}, 0);
    }
  }
}
