/** Writing a session's inventory rows, at publication and in the backfill of older sessions. */
module Materialisation {
  import opened Common
  import opened Pricing

  /** The unique key of an inventory row. */
  datatype Key = Key(session: nat, seat: string)

  type Inventory = map<Key, InventoryRow>

  // ------------------------------------------------------------------------
  // One session
  // ------------------------------------------------------------------------

  /** createMany with skipDuplicates: a row whose key exists is skipped. */
  function Insert(inv: Inventory, session: nat, rows: seq<InventoryRow>): Inventory {
    if rows == [] then inv
    else
      var before := Insert(inv, session, rows[..|rows| - 1]);
      var last := rows[|rows| - 1];
      if Key(session, last.seat) in before then before else before[Key(session, last.seat) := last]
  }

  function KeysOf(inv: Inventory, session: nat): set<Key> {
    set k | k in inv && k.session == session
  }

  function CountOf(inv: Inventory, session: nat): nat {
    |KeysOf(inv, session)|
  }

  /** ensureSessionInventory: None when the count differs from the rows, which aborts the transaction. */
  function Ensure(inv: Inventory, session: nat, rows: seq<InventoryRow>): Option<Inventory> {
    var after := Insert(inv, session, rows);
    if CountOf(after, session) != |rows| then None else Some(after)
  }

  lemma {:induction false} InsertKeys(inv: Inventory, session: nat, rows: seq<InventoryRow>)
    ensures var after := Insert(inv, session, rows);
      && (forall k :: k in after <==> k in inv || (k.session == session && exists r :: r in rows && r.seat == k.seat))
      && (forall k :: k in inv ==> after[k] == inv[k])
  {
    if rows != [] {
      var front, last := rows[..|rows| - 1], rows[|rows| - 1];
      assert rows == front + [last];
      InsertKeys(inv, session, front);
    }
  }

  /** Materialising the same rows again adds nothing and changes nothing. */
  lemma {:induction false} InsertTwice(inv: Inventory, session: nat, rows: seq<InventoryRow>)
    ensures Insert(Insert(inv, session, rows), session, rows) == Insert(inv, session, rows)
  {
    InsertPresent(Insert(inv, session, rows), session, rows, inv);
  }

  lemma {:induction false} InsertPresent(inv: Inventory, session: nat, rows: seq<InventoryRow>, first: Inventory)
    requires Insert(first, session, rows).Keys <= inv.Keys
    ensures Insert(inv, session, rows) == inv
  {
    if rows != [] { InsertPresent(inv, session, rows[..|rows| - 1], first); }
  }

  /** A session without inventory gets exactly one row for each of its seats. */
  lemma {:induction false} FreshCount(inv: Inventory, session: nat, rows: seq<InventoryRow>)
    requires UniqueRows(rows) && KeysOf(inv, session) == {}
    ensures CountOf(Insert(inv, session, rows), session) == |rows|
  {
    if rows == [] {
    } else {
      var front, last := rows[..|rows| - 1], rows[|rows| - 1];
      FreshCount(inv, session, front);
      InsertKeys(inv, session, front);
      var before := Insert(inv, session, front);
      var key := Key(session, last.seat);
      assert key !in inv by { assert key !in KeysOf(inv, session); }
      assert key !in before;
      assert KeysOf(before[key := last], session) == KeysOf(before, session) + {key};
    }
  }

  lemma LastIsNew(rows: seq<InventoryRow>)
    requires UniqueRows(rows) && rows != []
    ensures var front, last := rows[..|rows| - 1], rows[|rows| - 1];
      UniqueRows(front) && rows == front + [last] && forall x :: x in front ==> x.seat != last.seat
  {
    var front := rows[..|rows| - 1];
    assert forall i :: 0 <= i < |front| ==> front[i] == rows[i] && rows[i].seat != rows[|rows| - 1].seat;
  }

  /** Every new row is one of the rows given: under its key stands exactly what it says. */
  lemma {:induction false} InsertContents(inv: Inventory, session: nat, rows: seq<InventoryRow>, r: InventoryRow)
    requires UniqueRows(rows) && r in rows
    ensures Key(session, r.seat) in Insert(inv, session, rows)
    ensures Insert(inv, session, rows)[Key(session, r.seat)]
      == if Key(session, r.seat) in inv then inv[Key(session, r.seat)] else r
  {
    hide UniqueRows;
    var front, last := rows[..|rows| - 1], rows[|rows| - 1];
    LastIsNew(rows);
    if r in front {
      InsertContents(inv, session, front, r);
    } else {
      assert r == last;
      InsertKeys(inv, session, front);
    }
  }

  lemma OthersKept(inv: Inventory, session: nat, rows: seq<InventoryRow>, other: nat)
    requires other != session
    ensures KeysOf(Insert(inv, session, rows), other) == KeysOf(inv, other)
  {
    InsertKeys(inv, session, rows);
  }

  // ------------------------------------------------------------------------
  // The backfill
  // ------------------------------------------------------------------------

  datatype Candidate = Candidate(session: nat, source: Source)

  datatype Outcome = Materialized | SkippedComplete | SkippedIneligible | RefusedInconsistent

  datatype Summary = Summary(materialized: nat, skippedComplete: nat, skippedIneligible: nat, refused: nat)

  function Expected(c: Candidate): seq<InventoryRow> {
    RowsOf(c.source, c.source.sections)
  }

  ghost function OutcomeFor(inv: Inventory, c: Candidate): Outcome {
    var existing := CountOf(inv, c.session);
    if !NoIssues(c.source) || TotalSellable(c.source.sections) <= 0 then SkippedIneligible
    else if existing == |Expected(c)| then SkippedComplete
    else if existing != 0 then RefusedInconsistent
    else Materialized
  }

  function Tally(s: Summary, o: Outcome): Summary {
    match o
    case Materialized => s.(materialized := s.materialized + 1)
    case SkippedComplete => s.(skippedComplete := s.skippedComplete + 1)
    case SkippedIneligible => s.(skippedIneligible := s.skippedIneligible + 1)
    case RefusedInconsistent => s.(refused := s.refused + 1)
  }

  /** One candidate, in its own transaction; no counts if it throws. */
  ghost function BackfillOne(inv: Inventory, counts: Summary, c: Candidate): (Inventory, Option<Summary>) {
    var counted := Tally(counts, OutcomeFor(inv, c));
    if OutcomeFor(inv, c) != Materialized then (inv, Some(counted))
    else
      match Ensure(inv, c.session, Expected(c))
      case None => (inv, None)
      case Some(after) => (after, Some(counted))
  }

  /** The tables and counts after the candidates; a throw ends the run. */
  ghost function Backfill(inv: Inventory, cands: seq<Candidate>): (Inventory, Option<Summary>) {
    if cands == [] then (inv, Some(Summary(0, 0, 0, 0)))
    else
      var (before, counts) := Backfill(inv, cands[..|cands| - 1]);
      if counts.None? then (before, None) else BackfillOne(before, counts.value, cands[|cands| - 1])
  }

  /** The sessions announced on the way. */
  ghost function Announcements(inv: Inventory, cands: seq<Candidate>): seq<nat> {
    if cands == [] then []
    else
      var (before, counts) := Backfill(inv, cands[..|cands| - 1]);
      var c := cands[|cands| - 1];
      Announcements(inv, cands[..|cands| - 1])
      + if counts.Some? && OutcomeFor(before, c) == Materialized && Ensure(before, c.session, Expected(c)).Some?
        then [c.session] else []
  }

  /** Candidates are different sessions over maps that list each seat once. */
  ghost predicate Proper(cands: seq<Candidate>) {
    && (forall i, j :: 0 <= i < j < |cands| ==> cands[i].session != cands[j].session)
    && (forall i :: 0 <= i < |cands| ==> UniqueSeats(SeatsOf(cands[i].source.sections)))
  }

  /** What a candidate's count becomes. */
  ghost function CountAfter(inv: Inventory, c: Candidate): nat {
    if OutcomeFor(inv, c) == Materialized then |Expected(c)| else CountOf(inv, c.session)
  }

  lemma EnsureFresh(inv: Inventory, c: Candidate)
    requires UniqueSeats(SeatsOf(c.source.sections)) && OutcomeFor(inv, c) == Materialized
    ensures Ensure(inv, c.session, Expected(c)) == Some(Insert(inv, c.session, Expected(c)))
    ensures CountOf(Insert(inv, c.session, Expected(c)), c.session) == |Expected(c)|
  {
    RowsUnique(c.source, c.source.sections);
    FreshCount(inv, c.session, Expected(c));
  }

  /** A backfill that read no rows and then finds them all written by another commits and changes nothing. */
  lemma OverlapIsHarmless(inv: Inventory, c: Candidate)
    requires UniqueSeats(SeatsOf(c.source.sections)) && OutcomeFor(inv, c) == Materialized
    ensures var after := Insert(inv, c.session, Expected(c));
      Ensure(inv, c.session, Expected(c)) == Some(after) == Ensure(after, c.session, Expected(c))
  {
    hide Insert, SeatsOf, Expected;
    EnsureFresh(inv, c);
    InsertTwice(inv, c.session, Expected(c));
  }

  /** A candidate is decided by its own session's rows alone. */
  lemma SameOutcome(a: Inventory, b: Inventory, c: Candidate)
    requires KeysOf(a, c.session) == KeysOf(b, c.session)
    ensures OutcomeFor(a, c) == OutcomeFor(b, c) && CountAfter(a, c) == CountAfter(b, c)
  {
  }

  lemma OneCounts(inv: Inventory, counts: Summary, c: Candidate)
    requires UniqueSeats(SeatsOf(c.source.sections))
    ensures var (after, counted) := BackfillOne(inv, counts, c);
      && counted.Some? && CountOf(after, c.session) == CountAfter(inv, c)
      && forall s :: s != c.session ==> KeysOf(after, s) == KeysOf(inv, s)
  {
    if OutcomeFor(inv, c) == Materialized {
      EnsureFresh(inv, c);
      forall s | s != c.session ensures KeysOf(BackfillOne(inv, counts, c).0, s) == KeysOf(inv, s) {
        OthersKept(inv, c.session, Expected(c), s);
      }
    }
  }

  /** Sessions not among the candidates keep their rows, and each candidate is decided on its own. */
  lemma {:induction false} BackfillCounts(inv: Inventory, cands: seq<Candidate>)
    requires Proper(cands)
    ensures Backfill(inv, cands).1.Some?
    ensures forall s :: (forall i :: 0 <= i < |cands| ==> cands[i].session != s) ==>
      KeysOf(Backfill(inv, cands).0, s) == KeysOf(inv, s)
    ensures forall i :: 0 <= i < |cands| ==> CountOf(Backfill(inv, cands).0, cands[i].session) == CountAfter(inv, cands[i])
  {
    hide OutcomeFor, Ensure, KeysOf, CountAfter, BackfillOne, SeatsOf;
    if cands != [] {
      var front, c := cands[..|cands| - 1], cands[|cands| - 1];
      assert forall i :: 0 <= i < |front| ==> cands[i] == front[i];
      BackfillCounts(inv, front);
      var (before, counts) := Backfill(inv, front);
      SameOutcome(before, inv, c);
      OneCounts(before, counts.value, c);
    }
  }

  /** Which session is materialised, skipped or refused: by its pricing, its sellable seats and the rows it has. */
  lemma OutcomeExactly(inv: Inventory, c: Candidate)
    requires UniqueTiers(c.source.tiers)
    ensures var sellable := |ActiveIn(SeatsOf(c.source.sections))|; var rows := |KeysOf(inv, c.session)|;
      && (OutcomeFor(inv, c) == SkippedIneligible <==> !NoIssues(c.source) || sellable == 0)
      && (OutcomeFor(inv, c) == SkippedComplete <==> NoIssues(c.source) && sellable > 0 && rows == sellable)
      && (OutcomeFor(inv, c) == Materialized <==> NoIssues(c.source) && sellable > 0 && rows == 0)
      && (OutcomeFor(inv, c) == RefusedInconsistent <==> NoIssues(c.source) && sellable > 0 && rows !in {0, sellable})
  {
    hide NoIssues, TotalSellable, SeatsOf, ActiveIn;
    TotalIsActiveSeats(c.source.sections);
    if NoIssues(c.source) { NoIssuesMeansPriced(c.source); }
  }

  /** A materialised session has exactly its rows, each as computed. */
  lemma MaterialisedContents(inv: Inventory, c: Candidate)
    requires UniqueSeats(SeatsOf(c.source.sections)) && OutcomeFor(inv, c) == Materialized
    ensures var after := Insert(inv, c.session, Expected(c));
      && (forall r :: r in Expected(c) ==> Key(c.session, r.seat) in after && after[Key(c.session, r.seat)] == r)
      && (forall k :: k in after && k.session == c.session ==> exists r :: r in Expected(c) && r.seat == k.seat)
      && (forall k: Key :: k.session != c.session ==> (k in after <==> k in inv) && (k in inv ==> after[k] == inv[k]))
  {
    var after := Insert(inv, c.session, Expected(c));
    RowsUnique(c.source, c.source.sections);
    InsertKeys(inv, c.session, Expected(c));
    assert KeysOf(inv, c.session) == {};
    assert forall k :: k in inv && k.session == c.session ==> k in KeysOf(inv, c.session);
    forall r | r in Expected(c) ensures Key(c.session, r.seat) in after && after[Key(c.session, r.seat)] == r {
      InsertContents(inv, c.session, Expected(c), r);
    }
  }

  /** How often each outcome occurs when the candidates are decided on one state of the tables. */
  ghost function Decided(inv: Inventory, cands: seq<Candidate>): Summary {
    if cands == [] then Summary(0, 0, 0, 0)
    else
      Tally(Decided(inv, cands[..|cands| - 1]), OutcomeFor(inv, cands[|cands| - 1]))
  }

  /** The candidates decided so. */
  ghost function Those(inv: Inventory, cands: seq<Candidate>, o: Outcome): set<nat> {
    set i | 0 <= i < |cands| && OutcomeFor(inv, cands[i]) == o
  }

  lemma OneMoreOf(inv: Inventory, front: seq<Candidate>, c: Candidate, o: Outcome)
    ensures |Those(inv, front + [c], o)| == |Those(inv, front, o)| + if OutcomeFor(inv, c) == o then 1 else 0
  {
    hide OutcomeFor;
    assert forall i :: 0 <= i < |front| ==> (front + [c])[i] == front[i];
    assert Those(inv, front + [c], o) == Those(inv, front, o) + if OutcomeFor(inv, c) == o then {|front|} else {};
  }

  /** Each of the four counts is the number of candidates with that outcome. */
  lemma {:induction false} SummaryCounts(inv: Inventory, cands: seq<Candidate>)
    ensures var s := Decided(inv, cands);
      && s.materialized == |Those(inv, cands, Materialized)| && s.skippedComplete == |Those(inv, cands, SkippedComplete)|
      && s.skippedIneligible == |Those(inv, cands, SkippedIneligible)| && s.refused == |Those(inv, cands, RefusedInconsistent)|
  {
    if cands == [] {
      assert forall o :: Those(inv, cands, o) == {};
    } else {
      hide OutcomeFor, Those;
      var front, c := cands[..|cands| - 1], cands[|cands| - 1];
      assert cands == front + [c];
      SummaryCounts(inv, front);
      OneMoreOf(inv, front, c, Materialized);
      OneMoreOf(inv, front, c, SkippedComplete);
      OneMoreOf(inv, front, c, SkippedIneligible);
      OneMoreOf(inv, front, c, RefusedInconsistent);
    }
  }

  lemma {:induction false} SummaryIsDecided(inv: Inventory, cands: seq<Candidate>)
    requires Proper(cands)
    ensures Backfill(inv, cands).1 == Some(Decided(inv, cands))
  {
    hide OutcomeFor, Ensure, KeysOf, CountAfter;
    if cands != [] {
      var front, c := cands[..|cands| - 1], cands[|cands| - 1];
      SummaryIsDecided(inv, front);
      BackfillCounts(inv, front);
      BackfillCounts(inv, cands);
      SameOutcome(Backfill(inv, front).0, inv, c);
    }
  }

  lemma {:induction false} NothingToDo(inv: Inventory, cands: seq<Candidate>)
    requires Proper(cands) && forall i :: 0 <= i < |cands| ==> OutcomeFor(inv, cands[i]) != Materialized
    ensures Backfill(inv, cands).0 == inv
  {
    if cands != [] {
      var front, c := cands[..|cands| - 1], cands[|cands| - 1];
      assert forall i :: 0 <= i < |front| ==> cands[i] == front[i];
      NothingToDo(inv, front);
    }
  }

  /** Exactly the sessions it materialises are announced, each once. */
  lemma {:induction false} AnnouncedExactly(inv: Inventory, cands: seq<Candidate>)
    requires Proper(cands)
    ensures var said := Announcements(inv, cands);
      && Distinct(said) && |said| == Decided(inv, cands).materialized
      && forall s :: s in said <==>
           exists i :: 0 <= i < |cands| && cands[i].session == s && OutcomeFor(inv, cands[i]) == Materialized
  {
    hide OutcomeFor, Ensure, KeysOf, CountAfter, SeatsOf, Expected;
    if cands != [] {
      var front, c := cands[..|cands| - 1], cands[|cands| - 1];
      assert forall i :: 0 <= i < |front| ==> cands[i] == front[i];
      AnnouncedExactly(inv, front);
      BackfillCounts(inv, front);
      var before := Backfill(inv, front).0;
      SameOutcome(before, inv, c);
      var said := Announcements(inv, front);
      assert c.session !in said;
      if OutcomeFor(inv, c) == Materialized {
        EnsureFresh(before, c);
        assert Announcements(inv, cands) == said + [c.session];
        assert cands[|cands| - 1].session == c.session;
      } else {
        assert Announcements(inv, cands) == said;
      }
    }
  }

  /** What was materialised counts as complete from then on, and everything else is decided as before. */
  lemma {:induction false} DecidedAgain(inv: Inventory, later: Inventory, cands: seq<Candidate>)
    requires forall i :: 0 <= i < |cands| ==> CountOf(later, cands[i].session) == CountAfter(inv, cands[i])
    ensures var first, second := Decided(inv, cands), Decided(later, cands);
      second == Summary(0, first.skippedComplete + first.materialized, first.skippedIneligible, first.refused)
    ensures forall i :: 0 <= i < |cands| ==> OutcomeFor(later, cands[i]) != Materialized
  {
    hide NoIssues, TotalSellable, Expected;
    if cands != [] {
      var front := cands[..|cands| - 1];
      assert forall i :: 0 <= i < |front| ==> cands[i] == front[i];
      DecidedAgain(inv, later, front);
    }
  }

  /**
   * A backfill never throws, and running it again changes no row: what it
   * materialised is now complete, what it skipped or refused it skips or refuses
   * again, and nothing is announced.
   */
  lemma BackfillTwice(inv: Inventory, cands: seq<Candidate>)
    requires Proper(cands)
    ensures var (after, summary) := Backfill(inv, cands);
      && summary.Some?
      && Backfill(after, cands) == (after, Some(Summary(
           0, summary.value.skippedComplete + summary.value.materialized,
           summary.value.skippedIneligible, summary.value.refused)))
      && Announcements(after, cands) == []
  {
    hide OutcomeFor, Expected, KeysOf, SeatsOf, CountAfter, BackfillOne, Decided, Backfill, Announcements;
    BackfillCounts(inv, cands);
    SummaryIsDecided(inv, cands);
    var after := Backfill(inv, cands).0;
    DecidedAgain(inv, after, cands);
    NothingToDo(after, cands);
    SummaryIsDecided(after, cands);
    AnnouncedExactly(after, cands);
  }

  // ------------------------------------------------------------------------
  // The service
  // ------------------------------------------------------------------------

  /** `announced` lists the sessions of the INVENTORY_MATERIALIZED rows written; their keys are random, so none repeats. */
  class InventoryService {
    var inventory: Inventory
    var announced: seq<nat>

    constructor (inventory: Inventory)
      ensures this.inventory == inventory && announced == []
    {
      this.inventory, this.announced := inventory, [];
    }

    /** The number of rows written is returned. */
    method CreateMany(session: nat, rows: seq<InventoryRow>) returns (created: nat)
      modifies this`inventory
      ensures inventory == Insert(old(inventory), session, rows)
      ensures created == |inventory| - |old(inventory)|
    {
      created := 0;
      for i := 0 to |rows|
        invariant inventory == Insert(old(inventory), session, rows[..i])
        invariant created == |inventory| - |old(inventory)|
      {
        assert rows[..i + 1][..i] == rows[..i];
        var key := Key(session, rows[i].seat);
        if key !in inventory {
          inventory := inventory[key := rows[i]];
          created := created + 1;
        }
      }
      assert rows[..|rows|] == rows;
    }

    /**
     * The transaction of ensureSessionInventory; false means it aborted and wrote
     * nothing. It is announced exactly when it wrote a row.
     */
    method EnsureSessionInventory(session: nat, source: Source) returns (ok: bool)
      modifies this
      ensures ok == Ensure(old(inventory), session, RowsOf(source, source.sections)).Some?
      ensures inventory == if ok then Insert(old(inventory), session, RowsOf(source, source.sections)) else old(inventory)
      ensures announced == old(announced) + if inventory != old(inventory) then [session] else []
    {
      var before := inventory;
      var rows := ComputeInventoryRows(source);
      var created := CreateMany(session, rows);
      GrowsExactly(before, session, rows);
      ok := CountOf(inventory, session) == |rows|;
      if !ok { inventory := before; return; }
      if created > 0 { announced := announced + [session]; }
    }

    /** The body of the backfill's loop; None when its transaction threw. */
    method BackfillSession(c: Candidate, ghost counts: Summary) returns (outcome: Option<Outcome>)
      modifies this
      ensures BackfillOne(old(inventory), counts, c)
        == (inventory, if outcome.Some? then Some(Tally(counts, outcome.value)) else None)
      ensures outcome.Some? ==> outcome.value == OutcomeFor(old(inventory), c)
      ensures outcome.None? <==> OutcomeFor(old(inventory), c) == Materialized && Ensure(old(inventory), c.session, Expected(c)).None?
      ensures inventory == if outcome == Some(Materialized) then Insert(old(inventory), c.session, Expected(c)) else old(inventory)
      ensures announced == old(announced) + if outcome == Some(Materialized) then [c.session] else []
    {
      var coverage := CalculateCoverage(c.source);
      assert coverage.issues == [] <==> NoIssues(c.source) by { IssuesEmpty(c.source, coverage.issues); }
      var expected := ComputeInventoryRows(c.source);
      var existing := CountOf(inventory, c.session);
      if |coverage.issues| > 0 || coverage.total <= 0 { return Some(SkippedIneligible); }
      if existing == |expected| { return Some(SkippedComplete); }
      if existing != 0 { return Some(RefusedInconsistent); }
      ghost var before := inventory;
      var ok := EnsureSessionInventory(c.session, c.source);
      assert ok ==> CountOf(inventory, c.session) != CountOf(before, c.session);
      outcome := if ok then Some(Materialized) else None;
    }

    /** backfillPublishedSessionInventory; None when a transaction threw. */
    method BackfillPublishedSessions(cands: seq<Candidate>) returns (scanned: nat, summary: Option<Summary>)
      modifies this
      ensures (inventory, summary) == Backfill(old(inventory), cands) && scanned == |cands|
      ensures announced == old(announced) + Announcements(old(inventory), cands)
    {
      hide OutcomeFor, Ensure, Expected;
      scanned := |cands|;
      ghost var first, said := inventory, announced;
      var counts := Summary(0, 0, 0, 0);
      for i := 0 to |cands|
        invariant (inventory, Some(counts)) == Backfill(first, cands[..i])
        invariant announced == said + Announcements(first, cands[..i])
      {
        assert cands[..i + 1][..i] == cands[..i];
        var outcome := BackfillSession(cands[i], counts);
        if outcome.None? {
          StaysThrown(first, cands, i + 1);
          return scanned, None;
        }
        counts := Tally(counts, outcome.value);
      }
      assert cands[..|cands|] == cands;
      summary := Some(counts);
    }
  }

  lemma MoreKeys(a: Inventory, b: Inventory)
    requires forall k :: k in a ==> k in b && b[k] == a[k]
    ensures |b| > |a| <==> b != a
  {
    assert |b.Keys| == |a.Keys| + |b.Keys - a.Keys| by { assert b.Keys == a.Keys + (b.Keys - a.Keys); }
    if b.Keys - a.Keys == {} { assert a == b; }
  }

  /** A row was written exactly when the table changed. */
  lemma GrowsExactly(inv: Inventory, session: nat, rows: seq<InventoryRow>)
    ensures var after := Insert(inv, session, rows); |after| > |inv| <==> after != inv
  {
    hide Insert;
    InsertKeys(inv, session, rows);
    MoreKeys(inv, Insert(inv, session, rows));
  }

  lemma IssuesEmpty(s: Source, issues: seq<Issue>)
    requires forall issue :: issue in issues <==> Raised(s, issue)
    ensures issues == [] <==> NoIssues(s)
  {
    if issues != [] { assert issues[0] in issues; }
  }

  /** After a throw nothing more is done. */
  lemma {:induction false} StaysThrown(inv: Inventory, cands: seq<Candidate>, n: nat)
    requires n <= |cands| && Backfill(inv, cands[..n]).1.None?
    ensures Backfill(inv, cands) == Backfill(inv, cands[..n])
    ensures Announcements(inv, cands) == Announcements(inv, cands[..n])
  {
    if n < |cands| {
      assert cands[..|cands| - 1][..n] == cands[..n];
      StaysThrown(inv, cands[..|cands| - 1], n);
    } else {
      assert cands[..n] == cands;
    }
  }
}
