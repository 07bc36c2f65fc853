/**
 * The dispatcher as the program runs it: one transaction over its claimed rows,
 * retried a bounded number of times, beside a stream no rollback reaches.
 */
module DispatchService {
  import opened Common
  import opened OutboxDispatch

  /** The rows a batch leaves if it commits. */
  function BatchRows(rows: seq<Row>, ids: seq<nat>, faults: nat -> Fault, now: Time, c: Config): seq<Row> {
    seq(|rows|, i requires 0 <= i < |rows| => if i in ids then Outcome(rows[i], faults(i), now, c) else rows[i])
  }

  predicate InTable(rows: seq<Row>, ids: seq<nat>) {
    forall i :: 0 <= i < |ids| ==> ids[i] < |rows|
  }

  /** The stream after publishing those rows, whatever becomes of the transaction. */
  function BatchStream(s: Stream, rows: seq<Row>, ids: seq<nat>, faults: nat -> Fault): Stream
    requires InTable(rows, ids)
  {
    if ids == [] then s
    else
      var front, last := ids[..|ids| - 1], ids[|ids| - 1];
      AfterAttempt(BatchStream(s, rows, front, faults), last, rows[last], faults(last))
  }

  function CountIf(rows: seq<Row>, ids: seq<nat>, which: (nat, Row) -> bool): nat
    requires InTable(rows, ids)
  {
    if ids == [] then 0
    else
      var last := ids[|ids| - 1];
      CountIf(rows, ids[..|ids| - 1], which) + if which(last, rows[last]) then 1 else 0
  }

  datatype Result = Dispatched(claimed: nat, processed: nat, failed: nat, deadLettered: nat)

  function ResultOf(rows: seq<Row>, ids: seq<nat>, faults: nat -> Fault, now: Time, c: Config): Result
    requires InTable(rows, ids)
  {
    Dispatched(
      |ids|,
      CountIf(rows, ids, (id: nat, r: Row) => r.wellFormed && faults(id) == Fine),
      CountIf(rows, ids, (id: nat, r: Row) => !(r.wellFormed && faults(id) == Fine)),
      CountIf(rows, ids, (id: nat, r: Row) => !(r.wellFormed && faults(id) == Fine) && r.attempts + 1 >= c.maxAttempts))
  }

  /** How one try of the transaction ends: the row before which it aborts, if it does, and whether that is retryable. */
  datatype Ending = Commits | Aborts(after: nat, retryable: bool)

  /** One try: what the publish calls met with, and how it ended. */
  datatype Try = Try(faults: nat -> Fault, ending: Ending)

  /** One try of the transaction: the rows and the stream it leaves, and its result if it committed. */
  function Once(rows: seq<Row>, s: Stream, t: Try, now: Time, locked: set<nat>, c: Config): (seq<Row>, Stream, Option<Result>)
  {
    var ids := Claim(rows, now, c.batchSize, locked, 0);
    ClaimInTable(rows, now, c.batchSize, locked);
    match t.ending
    case Commits => (BatchRows(rows, ids, t.faults, now, c), BatchStream(s, rows, ids, t.faults), Some(ResultOf(rows, ids, t.faults, now, c)))
    case Aborts(after, _) =>
      var reached := if after < |ids| then ids[..after] else ids;
      (rows, BatchStream(s, rows, reached, t.faults), None)
  }

  /** runInTransaction from the given attempt on: at most five, and only after retryable failures. */
  function Retried(rows: seq<Row>, s: Stream, tries: nat -> Try, attempt: nat, now: Time, locked: set<nat>, c: Config)
    : (seq<Row>, Stream, Option<Result>)
    requires 1 <= attempt <= 5
    decreases 5 - attempt
  {
    var (rows', s', result) := Once(rows, s, tries(attempt), now, locked, c);
    if result.Some? || !tries(attempt).ending.retryable || attempt == 5 then (rows', s', result)
    else Retried(rows', s', tries, attempt + 1, now, locked, c)
  }

  predicate Again(t: Try) {
    t.ending.Aborts? && t.ending.retryable
  }

  /** A call succeeds exactly when one of its first five tries commits and all before it failed retryably. */
  lemma {:induction false} RetriedExactly(rows: seq<Row>, s: Stream, tries: nat -> Try, attempt: nat, now: Time, locked: set<nat>, c: Config)
    requires 1 <= attempt <= 5
    ensures Retried(rows, s, tries, attempt, now, locked, c).2.Some? <==>
      exists k :: attempt <= k <= 5 && tries(k).ending.Commits? && forall j :: attempt <= j < k ==> Again(tries(j))
    ensures Retried(rows, s, tries, attempt, now, locked, c).2.None? ==>
      Retried(rows, s, tries, attempt, now, locked, c).0 == rows
    decreases 5 - attempt
  {
    hide BatchRows, BatchStream, ResultOf, Claim;
    if Again(tries(attempt)) && attempt < 5 {
      var (rows', s', _) := Once(rows, s, tries(attempt), now, locked, c);
      RetriedExactly(rows', s', tries, attempt + 1, now, locked, c);
      if k :| attempt + 1 <= k <= 5 && tries(k).ending.Commits? && forall j :: attempt + 1 <= j < k ==> Again(tries(j)) {
        assert forall j :: attempt <= j < k ==> Again(tries(j));
      }
    }
  }

  lemma ClaimInTable(rows: seq<Row>, now: Time, limit: nat, locked: set<nat>)
    ensures var ids := Claim(rows, now, limit, locked, 0); Distinct(ids) && InTable(rows, ids)
  {
    ClaimSpec(rows, now, limit, locked, 0);
    var ids := Claim(rows, now, limit, locked, 0);
    assert forall i :: 0 <= i < |ids| ==> ids[i] in ids;
  }

  class Dispatcher {
    const config: Config
    var rows: seq<Row>
    var entries: seq<nat>
    var dedup: set<nat>

    constructor (config: Config, rows: seq<Row>)
      ensures this.config == config && this.rows == rows && Streamed() == Stream([], {})
    {
      this.config, this.rows, this.entries, this.dedup := config, rows, [], {};
    }

    function Streamed(): Stream
      reads this
    {
      Stream(entries, dedup)
    }

    /** The script: it runs to the end or not at all, even when its reply is lost. */
    method RunPublishScript(id: nat)
      modifies this`entries, this`dedup
      ensures StreamOk(old(Streamed())) ==> StreamOk(Streamed()) && Occurrences(entries, id) == 1
      ensures old(entries) <= entries && (entries == old(entries) <==> id in old(dedup))
      ensures forall other :: other != id ==> Occurrences(entries, other) == Occurrences(old(entries), other)
      ensures Streamed() == Publish(old(Streamed()), id)
    {
      PublishOnce(Streamed(), id);
      var inserted := id !in dedup;
      if inserted {
        dedup := dedup + {id};
        entries := entries + [id];
      }
    }

    /** The publish call of one row; false means it threw. */
    method PublishRow(id: nat, fault: Fault) returns (ok: bool)
      requires id < |rows|
      modifies this`entries, this`dedup
      ensures ok == (rows[id].wellFormed && fault == Fine)
      ensures Streamed() == AfterAttempt(old(Streamed()), id, rows[id], fault)
    {
      if !rows[id].wellFormed { return false; }
      if fault == Unreached { return false; }
      RunPublishScript(id);
      ok := fault == Fine;
    }

    /** The body of that loop: publish, then mark the row processed or count a failed attempt. */
    method DispatchRow(id: nat, fault: Fault, now: Time) returns (ok: bool, dead: bool)
      requires id < |rows|
      modifies this
      ensures rows == old(rows)[id := Outcome(old(rows)[id], fault, now, config)]
      ensures Streamed() == AfterAttempt(old(Streamed()), id, old(rows)[id], fault)
      ensures ok == (old(rows)[id].wellFormed && fault == Fine)
      ensures dead == (!ok && old(rows)[id].attempts + 1 >= config.maxAttempts)
    {
      ok := PublishRow(id, fault);
      dead := false;
      if ok {
        rows := rows[id := rows[id].(processedAt := Some(now))];
      } else {
        var attempts := rows[id].attempts + 1;
        dead := attempts >= config.maxAttempts;
        rows := rows[id := rows[id].(attempts := attempts,
                                     availableAt := now + Backoff(attempts, config.backoffBase, config.backoffMax),
                                     deadLetterAt := if dead then Some(now) else None)];
      }
    }

    /** The loop of dispatchInventoryEventBatch over the rows it claimed. */
    method DispatchRows(ids: seq<nat>, faults: nat -> Fault, now: Time) returns (r: Result)
      requires Distinct(ids) && InTable(rows, ids)
      modifies this
      ensures rows == BatchRows(old(rows), ids, faults, now, config)
      ensures Streamed() == BatchStream(old(Streamed()), old(rows), ids, faults)
      ensures r == ResultOf(old(rows), ids, faults, now, config)
    {
      hide Outcome, AfterAttempt;
      ghost var before, stream := rows, Streamed();
      var processed, failed, deadLettered := 0, 0, 0;
      assert BatchRows(before, [], faults, now, config) == before;
      for i := 0 to |ids|
        invariant rows == BatchRows(before, ids[..i], faults, now, config)
        invariant Streamed() == BatchStream(stream, before, ids[..i], faults)
        invariant Dispatched(i, processed, failed, deadLettered) == ResultOf(before, ids[..i], faults, now, config)
      {
        var id := ids[i];
        assert ids[..i + 1][..i] == ids[..i] && id !in ids[..i] && rows[id] == before[id];
        OneMoreRow(before, ids[..i], id, faults, now, config);
        var ok, dead := DispatchRow(id, faults(id), now);
        if ok { processed := processed + 1; } else { failed := failed + 1; }
        if dead { deadLettered := deadLettered + 1; }
        assert ids[..i + 1] == ids[..i] + [id];
      }
      assert ids[..|ids|] == ids;
      r := Dispatched(|ids|, processed, failed, deadLettered);
    }

    /** One try of the transaction over the rows no other dispatcher has locked. */
    method DispatchOnce(t: Try, now: Time, locked: set<nat>) returns (r: Option<Result>)
      modifies this
      ensures (rows, Streamed(), r) == Once(old(rows), old(Streamed()), t, now, locked, config)
    {
      var before := rows;
      ClaimInTable(rows, now, config.batchSize, locked);
      var claimed := Claim(rows, now, config.batchSize, locked, 0);
      match t.ending
      case Commits =>
        var result := DispatchRows(claimed, t.faults, now);
        r := Some(result);
      case Aborts(after, _) =>
        var reached := if after < |claimed| then claimed[..after] else claimed;
        var _ := DispatchRows(reached, t.faults, now);
        rows := before;
        r := None;
    }

    /** dispatchInventoryEventBatch inside its retry loop; None means it threw. */
    method DispatchInventoryEventBatch(tries: nat -> Try, now: Time, locked: set<nat>) returns (r: Option<Result>)
      modifies this
      ensures (rows, Streamed(), r) == Retried(old(rows), old(Streamed()), tries, 1, now, locked, config)
    {
      var attempt := 1;
      while true
        invariant 1 <= attempt <= 5
        invariant Retried(rows, Streamed(), tries, attempt, now, locked, config)
                  == Retried(old(rows), old(Streamed()), tries, 1, now, locked, config)
        decreases 5 - attempt
      {
        r := DispatchOnce(tries(attempt), now, locked);
        if r.Some? || !tries(attempt).ending.retryable || attempt == 5 { return; }
        attempt := attempt + 1;
      }
    }
  }

  lemma OneMoreRow(rows: seq<Row>, ids: seq<nat>, id: nat, faults: nat -> Fault, now: Time, c: Config)
    requires id < |rows| && id !in ids
    ensures BatchRows(rows, ids + [id], faults, now, c)
      == BatchRows(rows, ids, faults, now, c)[id := Outcome(rows[id], faults(id), now, c)]
  {
  }

  // ------------------------------------------------------------------------
  // What the reported counts count
  // ------------------------------------------------------------------------

  /** Claimed rows: open, with attempts left. */
  ghost predicate Claimed(rows: seq<Row>, ids: seq<nat>, c: Config) {
    Distinct(ids) && forall i :: 0 <= i < |ids| ==> ids[i] < |rows| && Open(rows[ids[i]]) && rows[ids[i]].attempts < c.maxAttempts
  }

  /** The listed rows of which it is true. */
  ghost function Those(rows: seq<Row>, ids: seq<nat>, which: Row -> bool): set<nat> {
    set id | id in ids && id < |rows| && which(rows[id])
  }

  predicate IsProcessed(r: Row) { r.processedAt.Some? }

  predicate IsUnprocessed(r: Row) { r.processedAt.None? }

  predicate IsDead(r: Row) { r.deadLetterAt.Some? }

  /** One row more is counted if it is true of the row the batch leaves. */
  lemma OneMoreCounted(rows: seq<Row>, front: seq<nat>, last: nat, faults: nat -> Fault, now: Time, c: Config, which: Row -> bool)
    requires last < |rows| && last !in front
    ensures var ids := front + [last];
      |Those(BatchRows(rows, ids, faults, now, c), ids, which)|
      == |Those(BatchRows(rows, front, faults, now, c), front, which)|
         + if which(Outcome(rows[last], faults(last), now, c)) then 1 else 0
  {
    hide Outcome;
    var ids := front + [last];
    var before, after := BatchRows(rows, front, faults, now, c), BatchRows(rows, ids, faults, now, c);
    assert after[last] == Outcome(rows[last], faults(last), now, c);
    assert forall id :: id in ids <==> id in front || id == last;
    assert forall id :: id in front && id < |rows| ==> after[id] == before[id];
    assert last !in Those(before, front, which);
    assert Those(after, ids, which) == Those(before, front, which) + if which(after[last]) then {last} else {};
  }

  /** The result of a committed batch counts the rows it leaves processed, still unprocessed, and dead. */
  lemma {:induction false} ResultCounts(rows: seq<Row>, ids: seq<nat>, faults: nat -> Fault, now: Time, c: Config)
    requires InTable(rows, ids) && Claimed(rows, ids, c)
    ensures var r := ResultOf(rows, ids, faults, now, c); var after := BatchRows(rows, ids, faults, now, c);
      && r.claimed == |ids| == r.processed + r.failed
      && r.processed == |Those(after, ids, IsProcessed)| && r.failed == |Those(after, ids, IsUnprocessed)|
      && r.deadLettered == |Those(after, ids, IsDead)|
  {
    hide Backoff;
    if ids != [] {
      hide BatchRows;
      var front, last := ids[..|ids| - 1], ids[|ids| - 1];
      assert ids == front + [last] && last !in front;
      ResultCounts(rows, front, faults, now, c);
      OneMoreCounted(rows, front, last, faults, now, c, IsProcessed);
      OneMoreCounted(rows, front, last, faults, now, c, IsUnprocessed);
      OneMoreCounted(rows, front, last, faults, now, c, IsDead);
    }
  }

  // ------------------------------------------------------------------------
  // The program is a run of the steps
  // ------------------------------------------------------------------------

  lemma {:induction false} RunAppend(s: Sys, first: seq<Step>, second: seq<Step>, c: Config)
    ensures Run(s, first + second, c) == Run(Run(s, first, c), second, c)
    decreases |first|
  {
    if first == [] {
      assert first + second == second;
    } else {
      assert (first + second)[1..] == first[1..] + second;
      RunAppend(Next(s, first[0], c), first[1..], second, c);
    }
  }

  lemma RunOne(s: Sys, step: Step, c: Config)
    ensures Run(s, [step], c) == Next(s, step, c)
  {
    assert [step][1..] == [];
  }

  /** The state once dispatcher d has attempted the first k of its rows. */
  function Midway(s: Sys, d: nat, ids: seq<nat>, k: nat, faults: nat -> Fault, now: Time, c: Config): Sys
    requires k <= |ids| && InTable(s.rows, ids)
  {
    var pending := map id | id in Elements(ids[..k]) && id < |s.rows| :: Outcome(s.rows[id], faults(id), now, c);
    Sys(s.rows, BatchStream(s.stream, s.rows, ids[..k], faults), s.running[d := Batch(ids, k, now, pending)])
  }

  function Attempts(d: nat, ids: seq<nat>, faults: nat -> Fault): seq<Step> {
    seq(|ids|, i requires 0 <= i < |ids| => Step.Attempt(d, faults(ids[i])))
  }

  lemma MidwayPending(s: Sys, d: nat, ids: seq<nat>, k: nat, faults: nat -> Fault, now: Time, c: Config)
    requires k < |ids| && InTable(s.rows, ids)
    ensures Midway(s, d, ids, k + 1, faults, now, c).running[d].pending
      == Midway(s, d, ids, k, faults, now, c).running[d].pending[ids[k] := Outcome(s.rows[ids[k]], faults(ids[k]), now, c)]
  {
    hide Outcome, BatchStream;
    assert ids[..k + 1] == ids[..k] + [ids[k]];
    assert Elements(ids[..k + 1]) == Elements(ids[..k]) + {ids[k]};
  }

  lemma MidwayNext(s: Sys, d: nat, ids: seq<nat>, k: nat, faults: nat -> Fault, now: Time, c: Config)
    requires k < |ids| && InTable(s.rows, ids)
    ensures Next(Midway(s, d, ids, k, faults, now, c), Step.Attempt(d, faults(ids[k])), c)
            == Midway(s, d, ids, k + 1, faults, now, c)
  {
    hide Outcome, AfterAttempt, Claim, Locked, Elements;
    assert ids[..k + 1][..k] == ids[..k];
    MidwayPending(s, d, ids, k, faults, now, c);
  }

  lemma OneMoreAttempt(d: nat, ids: seq<nat>, k: nat, faults: nat -> Fault)
    requires 0 < k <= |ids|
    ensures Attempts(d, ids[..k], faults) == Attempts(d, ids[..k - 1], faults) + [Step.Attempt(d, faults(ids[k - 1]))]
  {
  }

  lemma {:induction false} AttemptsRun(s: Sys, d: nat, ids: seq<nat>, k: nat, faults: nat -> Fault, now: Time, c: Config)
    requires k <= |ids| && InTable(s.rows, ids)
    ensures Run(Midway(s, d, ids, 0, faults, now, c), Attempts(d, ids[..k], faults), c)
            == Midway(s, d, ids, k, faults, now, c)
  {
    if k > 0 {
      hide Midway, Next, Attempts, Run;
      AttemptsRun(s, d, ids, k - 1, faults, now, c);
      var mid, step := Midway(s, d, ids, k - 1, faults, now, c), Step.Attempt(d, faults(ids[k - 1]));
      OneMoreAttempt(d, ids, k, faults);
      RunAppend(Midway(s, d, ids, 0, faults, now, c), Attempts(d, ids[..k - 1], faults), [step], c);
      RunOne(mid, step, c);
      MidwayNext(s, d, ids, k - 1, faults, now, c);
    }
  }

  /** The steps of one try. */
  function StepsOf(s: Sys, d: nat, t: Try, now: Time, c: Config): seq<Step> {
    var ids := Claim(s.rows, now, c.batchSize, Locked(s.running), 0);
    match t.ending
    case Commits => [Begin(d, now)] + Attempts(d, ids, t.faults) + [Commit(d)]
    case Aborts(after, _) =>
      [Begin(d, now)] + Attempts(d, if after < |ids| then ids[..after] else ids, t.faults) + [Abort(d)]
  }

  lemma BeginIsMidway(s: Sys, d: nat, faults: nat -> Fault, now: Time, c: Config)
    requires d !in s.running
    ensures var ids := Claim(s.rows, now, c.batchSize, Locked(s.running), 0);
      InTable(s.rows, ids) && Next(s, Begin(d, now), c) == Midway(s, d, ids, 0, faults, now, c)
  {
    var ids := Claim(s.rows, now, c.batchSize, Locked(s.running), 0);
    ClaimInTable(s.rows, now, c.batchSize, Locked(s.running));
    assert ids[..0] == [];
  }

  lemma MidwayEnds(s: Sys, d: nat, ids: seq<nat>, k: nat, faults: nat -> Fault, now: Time, c: Config)
    requires d !in s.running && k <= |ids| && InTable(s.rows, ids)
    ensures var mid := Midway(s, d, ids, k, faults, now, c);
      && Next(mid, Abort(d), c) == Sys(s.rows, BatchStream(s.stream, s.rows, ids[..k], faults), s.running)
      && (k == |ids| ==>
            Next(mid, Commit(d), c)
            == Sys(BatchRows(s.rows, ids, faults, now, c), BatchStream(s.stream, s.rows, ids, faults), s.running))
  {
    hide Outcome, BatchStream, Claim, Locked;
    var mid := Midway(s, d, ids, k, faults, now, c);
    assert s.running[d := mid.running[d]] - {d} == s.running;
    if k == |ids| {
      assert ids[..k] == ids;
      assert Written(s.rows, mid.running[d].pending) == BatchRows(s.rows, ids, faults, now, c);
    }
  }

  lemma OnceIsSteps(s: Sys, d: nat, t: Try, now: Time, c: Config)
    requires d !in s.running
    ensures var (rows, stream, _) := Once(s.rows, s.stream, t, now, Locked(s.running), c);
      Run(s, StepsOf(s, d, t, now, c), c) == Sys(rows, stream, s.running)
  {
    hide Midway, Next, BatchStream, BatchRows, Claim, Locked, ResultOf, Run;
    var ids := Claim(s.rows, now, c.batchSize, Locked(s.running), 0);
    BeginIsMidway(s, d, t.faults, now, c);
    var k := if t.ending.Aborts? && t.ending.after < |ids| then t.ending.after else |ids|;
    var end := if t.ending.Commits? then Commit(d) else Abort(d);
    assert ids[..|ids|] == ids;
    var attempts := Attempts(d, ids[..k], t.faults);
    RunOne(s, Begin(d, now), c);
    AttemptsRun(s, d, ids, k, t.faults, now, c);
    RunOne(Midway(s, d, ids, k, t.faults, now, c), end, c);
    MidwayEnds(s, d, ids, k, t.faults, now, c);
    RunAppend(s, [Begin(d, now)], attempts, c);
    RunAppend(s, [Begin(d, now)] + attempts, [end], c);
  }

  // ------------------------------------------------------------------------
  // A call among other dispatchers
  // ------------------------------------------------------------------------

  /** The producers and the other dispatchers. */
  predicate ByOthers(step: Step, d: nat) {
    match step
    case Enqueue(_, _) => true
    case Begin(e, _) => e != d
    case Attempt(e, _) => e != d
    case Commit(e) => e != d
    case Abort(e) => e != d
  }

  /** The call from the given attempt on, when the others take any steps they like before each try. */
  function RetriedAmong(s: Sys, tries: nat -> Try, others: nat -> seq<Step>, attempt: nat, now: Time, c: Config)
    : (Sys, Option<Result>)
    requires 1 <= attempt <= 5
    decreases 5 - attempt
  {
    var s' := Run(s, others(attempt), c);
    var (rows, stream, result) := Once(s'.rows, s'.stream, tries(attempt), now, Locked(s'.running), c);
    var after := Sys(rows, stream, s'.running);
    if result.Some? || !tries(attempt).ending.retryable || attempt == 5 then (after, result)
    else RetriedAmong(after, tries, others, attempt + 1, now, c)
  }

  /** With the others idle this is the call as the method makes it. */
  lemma {:induction false} CallAlone(s: Sys, tries: nat -> Try, others: nat -> seq<Step>, attempt: nat, now: Time, c: Config)
    requires 1 <= attempt <= 5 && forall k: nat :: others(k) == []
    ensures var (rows, stream, result) := Retried(s.rows, s.stream, tries, attempt, now, Locked(s.running), c);
      RetriedAmong(s, tries, others, attempt, now, c) == (Sys(rows, stream, s.running), result)
    decreases 5 - attempt
  {
    hide BatchRows, BatchStream, ResultOf, Claim, Locked;
    var (rows, stream, result) := Once(s.rows, s.stream, tries(attempt), now, Locked(s.running), c);
    if !(result.Some? || !tries(attempt).ending.retryable || attempt == 5) {
      CallAlone(Sys(rows, stream, s.running), tries, others, attempt + 1, now, c);
    }
  }

  lemma {:induction false} OthersKeepOut(s: Sys, d: nat, steps: seq<Step>, c: Config)
    requires d !in s.running && forall i :: 0 <= i < |steps| ==> ByOthers(steps[i], d)
    ensures d !in Run(s, steps, c).running
    decreases |steps|
  {
    if steps != [] { OthersKeepOut(Next(s, steps[0], c), d, steps[1..], c); }
  }

  /** Whatever its retries meet with and the others do meanwhile, a call leaves what some run of the steps leaves. */
  lemma CallIsSteps(s: Sys, d: nat, tries: nat -> Try, others: nat -> seq<Step>, attempt: nat, now: Time, c: Config)
    returns (steps: seq<Step>)
    requires d !in s.running && 1 <= attempt <= 5
    requires forall k: nat, i: nat :: i < |others(k)| ==> ByOthers(others(k)[i], d)
    ensures Run(s, steps, c) == RetriedAmong(s, tries, others, attempt, now, c).0
    decreases 5 - attempt
  {
    hide Run, BatchRows, BatchStream, ResultOf, Claim, StepsOf, Locked;
    var t := tries(attempt);
    var s' := Run(s, others(attempt), c);
    OthersKeepOut(s, d, others(attempt), c);
    OnceIsSteps(s', d, t, now, c);
    var (rows, stream, result) := Once(s'.rows, s'.stream, t, now, Locked(s'.running), c);
    var after := Sys(rows, stream, s'.running);
    steps := others(attempt) + StepsOf(s', d, t, now, c);
    RunAppend(s, others(attempt), StepsOf(s', d, t, now, c), c);
    if !(result.Some? || !t.ending.retryable || attempt == 5) {
      var rest := CallIsSteps(after, d, tries, others, attempt + 1, now, c);
      RunAppend(s, steps, rest, c);
      steps := steps + rest;
    }
  }

  /** So a call, retries and all, keeps exactly-once delivery whatever the others do between its tries. */
  lemma CallIsExactlyOnce(s: Sys, d: nat, tries: nat -> Try, others: nat -> seq<Step>, now: Time, c: Config)
    requires Inv(s, c) && ConfigOk(c) && d !in s.running
    requires forall k: nat, i: nat :: i < |others(k)| ==> ByOthers(others(k)[i], d)
    ensures var end := RetriedAmong(s, tries, others, 1, now, c).0;
      && Inv(end, c) && Later(s, end)
      && (forall id :: Occurrences(end.stream.entries, id) <= 1)
      && (forall id :: 0 <= id < |end.rows| && end.rows[id].processedAt.Some? ==> Occurrences(end.stream.entries, id) == 1)
  {
    var steps := CallIsSteps(s, d, tries, others, 1, now, c);
    ExactlyOnce(s, steps, c);
  }
}
