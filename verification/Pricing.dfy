/** Price tiers assigned to seat-map sections: what is priced, and the inventory rows it yields. */
module Pricing {
  import opened Common

  datatype SeatState = Active | Blocked

  datatype Seat = Seat(id: string, state: SeatState)

  datatype Section = Section(id: string, code: string, rows: seq<seq<Seat>>)

  datatype Tier = Tier(id: string, price: int, currency: Currency)

  datatype Assignment = Assignment(section: string, tier: string)

  datatype Source = Source(sections: seq<Section>, tiers: seq<Tier>, assignments: seq<Assignment>)

  datatype InventoryRow = InventoryRow(seat: string, section: string, tier: string, price: int, currency: Currency)

  // ------------------------------------------------------------------------
  // The lookup tables
  // ------------------------------------------------------------------------

  /** The Map of tiers: a later tier with the same id wins. */
  function TierById(tiers: seq<Tier>, id: string): (t: Option<Tier>)
    ensures t.Some? ==> t.value in tiers && t.value.id == id
    ensures t.None? <==> forall x :: x in tiers ==> x.id != id
  {
    if tiers == [] then None
    else if tiers[|tiers| - 1].id == id then Some(tiers[|tiers| - 1])
    else
      assert tiers == tiers[..|tiers| - 1] + [tiers[|tiers| - 1]];
      TierById(tiers[..|tiers| - 1], id)
  }

  /** The Map of assignments: a later assignment of the same section wins. */
  function AssignedTo(assignments: seq<Assignment>, section: string): (tier: Option<string>)
    ensures tier.Some? ==> Assignment(section, tier.value) in assignments
    ensures tier.None? <==> forall a :: a in assignments ==> a.section != section
  {
    if assignments == [] then None
    else if assignments[|assignments| - 1].section == section then Some(assignments[|assignments| - 1].tier)
    else
      assert assignments == assignments[..|assignments| - 1] + [assignments[|assignments| - 1]];
      AssignedTo(assignments[..|assignments| - 1], section)
  }

  /** The tier a section sells at; an empty tier id counts as none. */
  function TierOf(s: Source, section: string): Option<Tier> {
    match AssignedTo(s.assignments, section)
    case None => None
    case Some(id) => if id == "" then None else TierById(s.tiers, id)
  }

  // ------------------------------------------------------------------------
  // Counting
  // ------------------------------------------------------------------------

  function ActiveIn(seats: seq<Seat>): seq<Seat> {
    if seats == [] then []
    else ActiveIn(seats[..|seats| - 1]) + if seats[|seats| - 1].state == Active then [seats[|seats| - 1]] else []
  }

  function ActiveSeats(rows: seq<seq<Seat>>): seq<Seat> {
    if rows == [] then [] else ActiveSeats(rows[..|rows| - 1]) + ActiveIn(rows[|rows| - 1])
  }

  /** The sum of the rows' active counts. */
  function Sellable(rows: seq<seq<Seat>>): nat {
    if rows == [] then 0 else Sellable(rows[..|rows| - 1]) + |ActiveIn(rows[|rows| - 1])|
  }

  function TotalSellable(sections: seq<Section>): nat {
    if sections == [] then 0 else TotalSellable(sections[..|sections| - 1]) + Sellable(sections[|sections| - 1].rows)
  }

  function PricedSellable(s: Source, sections: seq<Section>): nat {
    if sections == [] then 0
    else
      var last := sections[|sections| - 1];
      PricedSellable(s, sections[..|sections| - 1]) + if TierOf(s, last.id).Some? then Sellable(last.rows) else 0
  }

  /** The capacity of one tier: the sections assigned to its id. */
  function TierCapacity(s: Source, sections: seq<Section>, id: string): nat {
    if sections == [] then 0
    else
      var last := sections[|sections| - 1];
      TierCapacity(s, sections[..|sections| - 1], id)
      + if AssignedTo(s.assignments, last.id) == Some(id) then Sellable(last.rows) else 0
  }

  function SumOfCapacities(s: Source, sections: seq<Section>, tiers: seq<Tier>): nat {
    if tiers == [] then 0
    else SumOfCapacities(s, sections, tiers[..|tiers| - 1]) + TierCapacity(s, sections, tiers[|tiers| - 1].id)
  }

  // ------------------------------------------------------------------------
  // Issues
  // ------------------------------------------------------------------------

  datatype Issue =
    | TwoTiersForSection | ForeignSection | ForeignTier | SectionWithoutTier(code: string)
    | NegativePrice | SeveralCurrencies

  predicate Known(sections: seq<Section>, id: string) {
    exists x :: x in sections && x.id == id
  }

  ghost predicate Raised(s: Source, issue: Issue) {
    match issue
    case TwoTiersForSection =>
      exists i, j :: 0 <= i < j < |s.assignments| && s.assignments[i].section == s.assignments[j].section
    case ForeignSection => exists a :: a in s.assignments && !Known(s.sections, a.section)
    case ForeignTier => exists a :: a in s.assignments && TierById(s.tiers, a.tier).None?
    case SectionWithoutTier(code) => exists x :: x in s.sections && x.code == code && Uncovered(s, x)
    case NegativePrice => exists t :: t in s.tiers && t.price < 0
    case SeveralCurrencies => exists t, u :: t in s.tiers && u in s.tiers && t.currency != u.currency
  }

  predicate Uncovered(s: Source, x: Section) {
    Sellable(x.rows) > 0 && AssignedTo(s.assignments, x.id).None?
  }

  /** The issues a prefix of the assignments raises. */
  ghost predicate RaisedByFirst(s: Source, n: nat, issue: Issue)
    requires n <= |s.assignments|
  {
    match issue
    case TwoTiersForSection => exists i, j :: 0 <= i < j < n && s.assignments[i].section == s.assignments[j].section
    case ForeignSection => exists i :: 0 <= i < n && !Known(s.sections, s.assignments[i].section)
    case ForeignTier => exists i :: 0 <= i < n && TierById(s.tiers, s.assignments[i].tier).None?
    case _ => false
  }

  /** The issues the i-th assignment raises when its turn comes. */
  ghost predicate RaisedAt(s: Source, i: nat, issue: Issue)
    requires i < |s.assignments|
  {
    match issue
    case TwoTiersForSection => exists k :: 0 <= k < i && s.assignments[k].section == s.assignments[i].section
    case ForeignSection => !Known(s.sections, s.assignments[i].section)
    case ForeignTier => TierById(s.tiers, s.assignments[i].tier).None?
    case _ => false
  }

  method CheckAssignment(s: Source, i: nat) returns (issues: seq<Issue>)
    requires i < |s.assignments|
    ensures forall issue :: issue in issues <==> RaisedAt(s, i, issue)
  {
    issues := [];
    var a := s.assignments[i];
    if AssignedTo(s.assignments[..i], a.section).Some? {
      assert exists k :: 0 <= k < i && s.assignments[k].section == a.section;
      issues := issues + [TwoTiersForSection];
    } else {
      assert forall k :: 0 <= k < i ==> s.assignments[k] in s.assignments[..i];
    }
    if !Known(s.sections, a.section) { issues := issues + [ForeignSection]; }
    if TierById(s.tiers, a.tier).None? { issues := issues + [ForeignTier]; }
  }

  /** The first loop: one pass over the assignments. */
  method CheckAssignments(s: Source) returns (issues: seq<Issue>)
    ensures forall issue :: issue in issues <==> RaisedByFirst(s, |s.assignments|, issue)
  {
    issues := [];
    for i := 0 to |s.assignments|
      invariant forall issue :: issue in issues <==> RaisedByFirst(s, i, issue)
    {
      var more := CheckAssignment(s, i);
      issues := issues + more;
    }
  }

  function BlockedIn(seats: seq<Seat>): nat {
    if seats == [] then 0
    else BlockedIn(seats[..|seats| - 1]) + if seats[|seats| - 1].state == Blocked then 1 else 0
  }

  function BlockedSeats(rows: seq<seq<Seat>>): nat {
    if rows == [] then 0 else BlockedSeats(rows[..|rows| - 1]) + BlockedIn(rows[|rows| - 1])
  }

  lemma {:induction false} ActiveOrBlocked(seats: seq<Seat>)
    ensures |ActiveIn(seats)| + BlockedIn(seats) == |seats|
  {
    if seats != [] { ActiveOrBlocked(seats[..|seats| - 1]); }
  }

  /** Every seat of a section is either sellable or blocked. */
  lemma {:induction false} SellableOrBlocked(rows: seq<seq<Seat>>)
    ensures Sellable(rows) + BlockedSeats(rows) == |Flat(rows)|
  {
    if rows != [] {
      SellableOrBlocked(rows[..|rows| - 1]);
      ActiveOrBlocked(rows[|rows| - 1]);
    }
  }

  /** One section's line of the report. */
  datatype SectionCoverage = SectionCoverage(section: Section, sellable: nat, blocked: nat, tier: Option<string>)

  ghost predicate Describes(s: Source, line: SectionCoverage, x: Section) {
    && line.section == x && line.tier == AssignedTo(s.assignments, x.id)
    && line.sellable == Sellable(x.rows) && line.sellable + line.blocked == |Flat(x.rows)|
  }

  /** The loop over the sections. */
  method CheckSections(s: Source) returns (lines: seq<SectionCoverage>, issues: seq<Issue>)
    ensures |lines| == |s.sections| && forall i :: 0 <= i < |lines| ==> Describes(s, lines[i], s.sections[i])
    ensures forall issue :: issue in issues <==> issue.SectionWithoutTier? && Raised(s, issue)
  {
    hide Sellable, Flat, AssignedTo;
    lines, issues := [], [];
    for i := 0 to |s.sections|
      invariant |lines| == i && forall k :: 0 <= k < i ==> Describes(s, lines[k], s.sections[k])
      invariant forall issue :: issue in issues <==> (
        issue.SectionWithoutTier?
        && exists k :: 0 <= k < i && s.sections[k].code == issue.code && Uncovered(s, s.sections[k]))
    {
      var x := s.sections[i];
      SellableOrBlocked(x.rows);
      lines := lines + [SectionCoverage(x, Sellable(x.rows), BlockedSeats(x.rows), AssignedTo(s.assignments, x.id))];
      if Uncovered(s, x) { issues := issues + [SectionWithoutTier(x.code)]; }
    }
  }

  method MinimumPrice(tiers: seq<Tier>) returns (minimum: Option<int>)
    ensures forall price :: minimum == Some(price) <==>
      (exists t :: t in tiers && t.price == price) && forall t :: t in tiers ==> price <= t.price
  {
    minimum := None;
    for i := 0 to |tiers|
      invariant minimum.None? <==> i == 0
      invariant minimum.Some? ==> exists k :: 0 <= k < i && tiers[k].price == minimum.value
      invariant minimum.Some? ==> forall k :: 0 <= k < i ==> minimum.value <= tiers[k].price
    {
      if minimum.None? || tiers[i].price < minimum.value { minimum := Some(tiers[i].price); }
    }
  }

  /** The Set of the messages, as a list. */
  method Unique(issues: seq<Issue>) returns (kept: seq<Issue>)
    ensures Distinct(kept) && forall issue :: issue in kept <==> issue in issues
  {
    kept := [];
    for i := 0 to |issues|
      invariant Distinct(kept) && forall issue :: issue in kept <==> issue in issues[..i]
    {
      assert issues[..i + 1] == issues[..i] + [issues[i]];
      if issues[i] !in kept { kept := kept + [issues[i]]; }
    }
    assert issues[..|issues|] == issues;
  }

  /** `capacities` lists the sellable capacity of each tier. */
  datatype Coverage = Coverage(
    sections: seq<SectionCoverage>,
    capacities: seq<nat>,
    total: nat,
    priced: nat,
    unpriced: int,
    minimum: Option<int>,
    currency: Option<Currency>,
    issues: seq<Issue>)

  /** calculatePricingCoverage: the report, and exactly the issues that the input raises, each once. */
  method CalculateCoverage(s: Source) returns (c: Coverage)
    ensures c.total == TotalSellable(s.sections) && c.priced == PricedSellable(s, s.sections)
    ensures c.unpriced == c.total - c.priced && |c.capacities| == |s.tiers|
    ensures forall i :: 0 <= i < |s.tiers| ==> c.capacities[i] == TierCapacity(s, s.sections, s.tiers[i].id)
    ensures |c.sections| == |s.sections| && forall i :: 0 <= i < |c.sections| ==> Describes(s, c.sections[i], s.sections[i])
    ensures forall price :: c.minimum == Some(price) <==>
      (exists t :: t in s.tiers && t.price == price) && forall t :: t in s.tiers ==> price <= t.price
    ensures forall currency :: c.currency == Some(currency) <==>
      s.tiers != [] && forall t :: t in s.tiers ==> t.currency == currency
    ensures Distinct(c.issues) && forall issue :: issue in c.issues <==> Raised(s, issue)
  {
    hide TotalSellable, PricedSellable, TierCapacity, TierById, Describes, Uncovered;
    var first := CheckAssignments(s);
    var lines, second := CheckSections(s);
    AssignmentIssues(s);
    var issues := first + second;
    var several := exists t, u :: t in s.tiers && u in s.tiers && t.currency != u.currency;
    if exists t :: t in s.tiers && t.price < 0 { issues := issues + [NegativePrice]; }
    if several { issues := issues + [SeveralCurrencies]; }
    var total, priced := TotalSellable(s.sections), PricedSellable(s, s.sections);
    var capacities :=
      seq(|s.tiers|, i requires 0 <= i < |s.tiers| => TierCapacity(s, s.sections, s.tiers[i].id));
    var minimum := MinimumPrice(s.tiers);
    var kept := Unique(issues);
    var currency := if s.tiers != [] && !several then Some(s.tiers[0].currency) else None;
    c := Coverage(lines, capacities, total, priced, total as int - priced, minimum, currency, kept);
  }

  lemma AssignmentIssues(s: Source)
    ensures forall issue :: RaisedByFirst(s, |s.assignments|, issue) <==>
      issue in {TwoTiersForSection, ForeignSection, ForeignTier} && Raised(s, issue)
  {
  }

  // ------------------------------------------------------------------------
  // Inventory rows
  // ------------------------------------------------------------------------

  function RowsFor(seats: seq<Seat>, section: string, tier: Tier): seq<InventoryRow> {
    seq(|seats|, i requires 0 <= i < |seats| =>
      InventoryRow(seats[i].id, section, tier.id, tier.price, tier.currency))
  }

  function SectionRows(s: Source, section: Section): seq<InventoryRow> {
    match TierOf(s, section.id)
    case None => []
    case Some(tier) => RowsFor(ActiveSeats(section.rows), section.id, tier)
  }

  function RowsOf(s: Source, sections: seq<Section>): seq<InventoryRow> {
    if sections == [] then [] else RowsOf(s, sections[..|sections| - 1]) + SectionRows(s, sections[|sections| - 1])
  }

  /** computeSessionInventoryRows, with its three loops. */
  method ComputeInventoryRows(s: Source) returns (rows: seq<InventoryRow>)
    ensures rows == RowsOf(s, s.sections)
  {
    hide ActiveSeats, RowsFor, TierOf;
    rows := [];
    for i := 0 to |s.sections|
      invariant rows == RowsOf(s, s.sections[..i])
    {
      var section := s.sections[i];
      assert s.sections[..i + 1][..i] == s.sections[..i];
      var tier := TierOf(s, section.id);
      if tier.Some? { rows := AddSection(rows, section, tier.value); }
    }
    assert s.sections[..|s.sections|] == s.sections;
  }

  /** The middle loop, over the rows of one priced section. */
  method AddSection(before: seq<InventoryRow>, section: Section, tier: Tier) returns (rows: seq<InventoryRow>)
    ensures rows == before + RowsFor(ActiveSeats(section.rows), section.id, tier)
  {
    rows := before;
    for j := 0 to |section.rows|
      invariant rows == before + RowsFor(ActiveSeats(section.rows[..j]), section.id, tier)
    {
      assert section.rows[..j + 1][..j] == section.rows[..j];
      rows := AddRow(rows, section.rows[j], section.id, tier);
      RowsForAppend(ActiveSeats(section.rows[..j]), ActiveIn(section.rows[j]), section.id, tier);
    }
    assert section.rows[..|section.rows|] == section.rows;
  }

  /** The innermost loop, over the seats of one row. */
  method AddRow(before: seq<InventoryRow>, seats: seq<Seat>, section: string, tier: Tier) returns (rows: seq<InventoryRow>)
    ensures rows == before + RowsFor(ActiveIn(seats), section, tier)
  {
    rows := before;
    for k := 0 to |seats|
      invariant rows == before + RowsFor(ActiveIn(seats[..k]), section, tier)
    {
      assert seats[..k + 1][..k] == seats[..k];
      var seat := seats[k];
      if seat.state == Active {
        rows := rows + [InventoryRow(seat.id, section, tier.id, tier.price, tier.currency)];
        RowsForAppend(ActiveIn(seats[..k]), [seat], section, tier);
      }
    }
    assert seats[..|seats|] == seats;
  }

  lemma RowsForAppend(a: seq<Seat>, b: seq<Seat>, section: string, tier: Tier)
    ensures RowsFor(a + b, section, tier) == RowsFor(a, section, tier) + RowsFor(b, section, tier)
    ensures |b| == 1 ==>
      RowsFor(b, section, tier) == [InventoryRow(b[0].id, section, tier.id, tier.price, tier.currency)]
  {
  }

  // ------------------------------------------------------------------------
  // The counts agree
  // ------------------------------------------------------------------------

  lemma {:induction false} ActiveCount(rows: seq<seq<Seat>>)
    ensures |ActiveSeats(rows)| == Sellable(rows)
  {
    if rows != [] { ActiveCount(rows[..|rows| - 1]); }
  }

  /** For every seat map, tier list and assignment list there are as many rows as priced seats. */
  lemma {:induction false} RowsMatchPriced(s: Source, sections: seq<Section>)
    ensures |RowsOf(s, sections)| == PricedSellable(s, sections)
  {
    if sections != [] {
      RowsMatchPriced(s, sections[..|sections| - 1]);
      ActiveCount(sections[|sections| - 1].rows);
    }
  }

  ghost predicate UniqueTiers(tiers: seq<Tier>) {
    && (forall i :: 0 <= i < |tiers| ==> tiers[i].id != "")
    && (forall i, j :: 0 <= i < j < |tiers| ==> tiers[i].id != tiers[j].id)
  }

  predicate IsTier(tiers: seq<Tier>, id: string) {
    exists t :: t in tiers && t.id == id
  }

  /** The seats of the sections whose assigned id is one of these tiers. */
  function AssignedSellable(s: Source, sections: seq<Section>, tiers: seq<Tier>): nat {
    if sections == [] then 0
    else
      var last := sections[|sections| - 1];
      var tier := AssignedTo(s.assignments, last.id);
      AssignedSellable(s, sections[..|sections| - 1], tiers)
      + if tier.Some? && IsTier(tiers, tier.value) then Sellable(last.rows) else 0
  }

  /** One tier more adds exactly its own capacity, since nothing else has its id. */
  lemma {:induction false} OneMoreTier(s: Source, sections: seq<Section>, tiers: seq<Tier>, t: Tier)
    requires !IsTier(tiers, t.id)
    ensures AssignedSellable(s, sections, tiers + [t]) == AssignedSellable(s, sections, tiers) + TierCapacity(s, sections, t.id)
  {
    if sections != [] {
      OneMoreTier(s, sections[..|sections| - 1], tiers, t);
      var tier := AssignedTo(s.assignments, sections[|sections| - 1].id);
      if tier.Some? {
        assert IsTier(tiers + [t], tier.value) <==> IsTier(tiers, tier.value) || tier.value == t.id by {
          assert t in tiers + [t];
          assert forall x :: x in tiers + [t] <==> x in tiers || x == t;
        }
      }
    }
  }

  lemma {:induction false} NoTiers(s: Source, sections: seq<Section>)
    ensures AssignedSellable(s, sections, []) == 0
  {
    if sections != [] { NoTiers(s, sections[..|sections| - 1]); }
  }

  lemma {:induction false} CapacitiesSum(s: Source, sections: seq<Section>, tiers: seq<Tier>)
    requires UniqueTiers(tiers)
    ensures SumOfCapacities(s, sections, tiers) == AssignedSellable(s, sections, tiers)
  {
    if tiers == [] {
      NoTiers(s, sections);
    } else {
      var front, last := tiers[..|tiers| - 1], tiers[|tiers| - 1];
      assert tiers == front + [last];
      CapacitiesSum(s, sections, front);
      OneMoreTier(s, sections, front, last);
    }
  }

  lemma {:induction false} AssignedIsPriced(s: Source, sections: seq<Section>)
    requires UniqueTiers(s.tiers)
    ensures AssignedSellable(s, sections, s.tiers) == PricedSellable(s, sections)
  {
    if sections != [] {
      AssignedIsPriced(s, sections[..|sections| - 1]);
      var tier := AssignedTo(s.assignments, sections[|sections| - 1].id);
      if tier.Some? {
        assert IsTier(s.tiers, tier.value) <==> TierById(s.tiers, tier.value).Some?;
      }
    }
  }

  /** With unique tier ids the tier capacities add up to the priced seats, and so to the rows. */
  lemma TiersShareTheRows(s: Source)
    requires UniqueTiers(s.tiers)
    ensures SumOfCapacities(s, s.sections, s.tiers) == PricedSellable(s, s.sections) == |RowsOf(s, s.sections)|
  {
    CapacitiesSum(s, s.sections, s.tiers);
    AssignedIsPriced(s, s.sections);
    RowsMatchPriced(s, s.sections);
  }

  ghost predicate NoIssues(s: Source) {
    forall issue :: !Raised(s, issue)
  }

  lemma {:induction false} AllPriced(s: Source, sections: seq<Section>)
    requires forall x :: x in sections ==> Sellable(x.rows) == 0 || TierOf(s, x.id).Some?
    ensures PricedSellable(s, sections) == TotalSellable(sections)
  {
    if sections != [] {
      AllPriced(s, sections[..|sections| - 1]);
      assert sections[|sections| - 1] in sections;
    }
  }

  /** Without issues nothing is unpriced: every sellable seat has its row. */
  lemma NoIssuesMeansPriced(s: Source)
    requires NoIssues(s) && UniqueTiers(s.tiers)
    ensures PricedSellable(s, s.sections) == TotalSellable(s.sections) == |RowsOf(s, s.sections)|
  {
    forall x | x in s.sections ensures Sellable(x.rows) == 0 || TierOf(s, x.id).Some? {
      assert !Raised(s, SectionWithoutTier(x.code)) && !Raised(s, ForeignTier);
      var tier := AssignedTo(s.assignments, x.id);
      if tier.Some? {
        assert Assignment(x.id, tier.value) in s.assignments;
        assert TierById(s.tiers, tier.value).Some?;
      }
    }
    AllPriced(s, s.sections);
    RowsMatchPriced(s, s.sections);
  }

  // ------------------------------------------------------------------------
  // Which seats the rows are for
  // ------------------------------------------------------------------------

  function SeatsOf(sections: seq<Section>): seq<Seat> {
    if sections == [] then [] else SeatsOf(sections[..|sections| - 1]) + Flat(sections[|sections| - 1].rows)
  }

  function Flat(rows: seq<seq<Seat>>): seq<Seat> {
    if rows == [] then [] else Flat(rows[..|rows| - 1]) + rows[|rows| - 1]
  }

  ghost predicate UniqueSeats(seats: seq<Seat>) {
    forall i, j :: 0 <= i < j < |seats| ==> seats[i].id != seats[j].id
  }

  lemma {:induction false} ActiveInMembers(seats: seq<Seat>)
    ensures forall x :: x in ActiveIn(seats) <==> x in seats && x.state == Active
  {
    if seats != [] {
      ActiveInMembers(seats[..|seats| - 1]);
      assert seats == seats[..|seats| - 1] + [seats[|seats| - 1]];
    }
  }

  lemma {:induction false} ActiveMembers(rows: seq<seq<Seat>>)
    ensures forall x :: x in ActiveSeats(rows) <==> x in Flat(rows) && x.state == Active
  {
    if rows != [] {
      ActiveMembers(rows[..|rows| - 1]);
      ActiveInMembers(rows[|rows| - 1]);
    }
  }

  /** A seat has a row exactly when it is active and its section is priced; a blocked seat never has one. */
  lemma {:induction false} RowMembers(s: Source, sections: seq<Section>, id: string)
    ensures (exists r :: r in RowsOf(s, sections) && r.seat == id) <==>
      exists x, seat :: x in sections && TierOf(s, x.id).Some? && seat in Flat(x.rows) && seat.state == Active && seat.id == id
  {
    if sections != [] {
      var front, last := sections[..|sections| - 1], sections[|sections| - 1];
      assert sections == front + [last];
      RowMembers(s, front, id);
      LastRows(s, last, id);
    }
  }

  lemma LastRows(s: Source, last: Section, id: string)
    ensures (exists r :: r in SectionRows(s, last) && r.seat == id) <==>
      TierOf(s, last.id).Some? && exists seat :: seat in Flat(last.rows) && seat.state == Active && seat.id == id
  {
    ActiveMembers(last.rows);
    if TierOf(s, last.id).Some? {
      var active, rows := ActiveSeats(last.rows), SectionRows(s, last);
      assert forall i :: 0 <= i < |active| ==> rows[i].seat == active[i].id && rows[i] in rows && active[i] in active;
    }
  }

  /** The row sells that active seat of that section at the tier the section is assigned. */
  ghost predicate RowFor(s: Source, r: InventoryRow, x: Section, seat: Seat) {
    && seat in Flat(x.rows) && seat.state == Active && r.seat == seat.id && r.section == x.id
    && AssignedTo(s.assignments, x.id) == Some(r.tier) && r.tier != ""
    && Tier(r.tier, r.price, r.currency) in s.tiers
  }

  lemma SectionRowFor(s: Source, x: Section, r: InventoryRow)
    requires r in SectionRows(s, x)
    ensures exists seat :: RowFor(s, r, x, seat)
  {
    ActiveMembers(x.rows);
    var active := ActiveSeats(x.rows);
    var i :| 0 <= i < |active| && SectionRows(s, x)[i] == r;
    assert active[i] in active;
    assert RowFor(s, r, x, active[i]);
  }

  lemma SectionHasRow(s: Source, x: Section, r: InventoryRow, seat: Seat)
    requires UniqueTiers(s.tiers) && RowFor(s, r, x, seat)
    ensures r in SectionRows(s, x)
  {
    ActiveMembers(x.rows);
    var active := ActiveSeats(x.rows);
    var i :| 0 <= i < |active| && active[i] == seat;
    assert TierById(s.tiers, r.tier) == Some(Tier(r.tier, r.price, r.currency));
    assert SectionRows(s, x)[i] == r;
  }

  /**
   * What each row says: it is of an active seat of one of the sections, at the
   * price and currency of the tier that section is assigned.
   */
  lemma {:induction false} RowContents(s: Source, sections: seq<Section>, r: InventoryRow)
    requires r in RowsOf(s, sections)
    ensures exists x, seat :: x in sections && RowFor(s, r, x, seat)
  {
    hide RowFor, SectionRows;
    var front, last := sections[..|sections| - 1], sections[|sections| - 1];
    assert sections == front + [last];
    if r in SectionRows(s, last) {
      SectionRowFor(s, last, r);
    } else {
      RowContents(s, front, r);
    }
  }

  /** With unique tiers those are exactly the rows. */
  lemma {:induction false} RowsExactly(s: Source, sections: seq<Section>, r: InventoryRow)
    requires UniqueTiers(s.tiers)
    ensures r in RowsOf(s, sections) <==> exists x, seat :: x in sections && RowFor(s, r, x, seat)
  {
    if r in RowsOf(s, sections) { RowContents(s, sections, r); }
    if x, seat :| x in sections && RowFor(s, r, x, seat) { HasRow(s, sections, r, x, seat); }
  }

  lemma {:induction false} HasRow(s: Source, sections: seq<Section>, r: InventoryRow, x: Section, seat: Seat)
    requires UniqueTiers(s.tiers) && x in sections && RowFor(s, r, x, seat)
    ensures r in RowsOf(s, sections)
  {
    hide RowFor;
    var front, last := sections[..|sections| - 1], sections[|sections| - 1];
    assert sections == front + [last];
    if x == last { SectionHasRow(s, x, r, seat); } else { HasRow(s, front, r, x, seat); }
  }

  lemma OneMoreSection(s: Source, sections: seq<Section>, x: Section)
    ensures RowsOf(s, sections + [x]) == RowsOf(s, sections) + SectionRows(s, x)
  {
    hide SectionRows;
    assert (sections + [x])[..|sections + [x]| - 1] == sections;
  }

  /** Rows come in the order of the map: section by section, row by row, seat by seat. */
  lemma {:induction false} RowsInOrder(s: Source, a: seq<Section>, b: seq<Section>)
    ensures RowsOf(s, a + b) == RowsOf(s, a) + RowsOf(s, b)
  {
    hide SectionRows;
    if b == [] {
      assert a + b == a;
    } else {
      var front, last := b[..|b| - 1], b[|b| - 1];
      RowsInOrder(s, a, front);
      calc {
        RowsOf(s, a + b);
      ==  { assert a + b == (a + front) + [last]; OneMoreSection(s, a + front, last); }
        RowsOf(s, a + front) + SectionRows(s, last);
      ==
        RowsOf(s, a) + RowsOf(s, front) + SectionRows(s, last);
      ==  { Associative(RowsOf(s, a), RowsOf(s, front), SectionRows(s, last)); }
        RowsOf(s, a) + (RowsOf(s, front) + SectionRows(s, last));
      ==  { assert b == front + [last]; OneMoreSection(s, front, last); }
        RowsOf(s, a) + RowsOf(s, b);
      }
    }
  }

  lemma Associative(a: seq<InventoryRow>, b: seq<InventoryRow>, c: seq<InventoryRow>)
    ensures a + b + c == a + (b + c)
  {
  }

  lemma {:induction false} ActiveSeatsInOrder(rows: seq<seq<Seat>>)
    ensures ActiveSeats(rows) == ActiveIn(Flat(rows))
  {
    if rows != [] {
      ActiveSeatsInOrder(rows[..|rows| - 1]);
      ActiveInAppend(Flat(rows[..|rows| - 1]), rows[|rows| - 1]);
    }
  }

  /** The last assignment of a section is the one that counts. */
  lemma {:induction false} LastAssignment(assignments: seq<Assignment>, i: nat)
    requires i < |assignments| && forall j :: i < j < |assignments| ==> assignments[j].section != assignments[i].section
    ensures AssignedTo(assignments, assignments[i].section) == Some(assignments[i].tier)
  {
    if i < |assignments| - 1 { LastAssignment(assignments[..|assignments| - 1], i); }
  }

  /** And of several tiers with one id the last. */
  lemma {:induction false} LastTier(tiers: seq<Tier>, i: nat)
    requires i < |tiers| && forall j :: i < j < |tiers| ==> tiers[j].id != tiers[i].id
    ensures TierById(tiers, tiers[i].id) == Some(tiers[i])
  {
    if i < |tiers| - 1 { LastTier(tiers[..|tiers| - 1], i); }
  }

  /** A section is reported without a tier exactly when it has an active seat and no assignment. */
  lemma UncoveredExactly(s: Source, x: Section)
    ensures Uncovered(s, x) <==>
      (exists seat :: seat in Flat(x.rows) && seat.state == Active) && forall a :: a in s.assignments ==> a.section != x.id
  {
    ActiveMembers(x.rows);
    ActiveCount(x.rows);
    if ActiveSeats(x.rows) != [] { assert ActiveSeats(x.rows)[0] in ActiveSeats(x.rows); }
  }

  function CountTier(rows: seq<InventoryRow>, tier: string): nat {
    if rows == [] then 0 else CountTier(rows[..|rows| - 1], tier) + if rows[|rows| - 1].tier == tier then 1 else 0
  }

  lemma {:induction false} CountTierAppend(a: seq<InventoryRow>, b: seq<InventoryRow>, tier: string)
    ensures CountTier(a + b, tier) == CountTier(a, tier) + CountTier(b, tier)
  {
    if b == [] {
      assert a + b == a;
    } else {
      assert (a + b)[..|a + b| - 1] == a + b[..|b| - 1];
      CountTierAppend(a, b[..|b| - 1], tier);
    }
  }

  lemma {:induction false} CountOneTier(rows: seq<InventoryRow>, tier: string, id: string)
    requires forall r :: r in rows ==> r.tier == id
    ensures CountTier(rows, tier) == if tier == id then |rows| else 0
  {
    if rows != [] {
      assert rows[|rows| - 1] in rows;
      CountOneTier(rows[..|rows| - 1], tier, id);
    }
  }

  /** The capacity reported for a tier is the number of rows sold at it. */
  lemma {:induction false} TierCapacityIsRows(s: Source, sections: seq<Section>, t: Tier)
    requires UniqueTiers(s.tiers) && t in s.tiers
    ensures CountTier(RowsOf(s, sections), t.id) == TierCapacity(s, sections, t.id)
  {
    if sections != [] {
      var front, last := sections[..|sections| - 1], sections[|sections| - 1];
      TierCapacityIsRows(s, front, t);
      CountTierAppend(RowsOf(s, front), SectionRows(s, last), t.id);
      SectionCapacity(s, last, t);
    }
  }

  lemma SectionCapacity(s: Source, x: Section, t: Tier)
    requires UniqueTiers(s.tiers) && t in s.tiers
    ensures CountTier(SectionRows(s, x), t.id) == if AssignedTo(s.assignments, x.id) == Some(t.id) then Sellable(x.rows) else 0
  {
    ActiveCount(x.rows);
    var tier := TierOf(s, x.id);
    if tier.Some? {
      CountOneTier(SectionRows(s, x), t.id, tier.value.id);
    } else {
      assert AssignedTo(s.assignments, x.id) == Some(t.id) ==> TierById(s.tiers, t.id).Some? && t.id != "";
    }
  }

  lemma {:induction false} ActiveInAppend(a: seq<Seat>, b: seq<Seat>)
    ensures ActiveIn(a + b) == ActiveIn(a) + ActiveIn(b)
  {
    if b == [] {
      assert a + b == a;
    } else {
      assert (a + b)[..|a + b| - 1] == a + b[..|b| - 1];
      ActiveInAppend(a, b[..|b| - 1]);
    }
  }

  lemma {:induction false} ActiveFlat(rows: seq<seq<Seat>>)
    ensures |ActiveIn(Flat(rows))| == Sellable(rows)
  {
    if rows != [] {
      ActiveFlat(rows[..|rows| - 1]);
      ActiveInAppend(Flat(rows[..|rows| - 1]), rows[|rows| - 1]);
    }
  }

  /** The sellable total is the number of active seats in the map. */
  lemma {:induction false} TotalIsActiveSeats(sections: seq<Section>)
    ensures TotalSellable(sections) == |ActiveIn(SeatsOf(sections))|
  {
    if sections != [] {
      var front, last := sections[..|sections| - 1], sections[|sections| - 1];
      TotalIsActiveSeats(front);
      ActiveFlat(last.rows);
      ActiveInAppend(SeatsOf(front), Flat(last.rows));
    }
  }

  ghost predicate UniqueRows(rows: seq<InventoryRow>) {
    forall i, j :: 0 <= i < j < |rows| ==> rows[i].seat != rows[j].seat
  }

  lemma UniqueSplits(a: seq<Seat>, b: seq<Seat>)
    requires UniqueSeats(a + b)
    ensures UniqueSeats(a) && UniqueSeats(b)
    ensures forall x, y :: x in a && y in b ==> x.id != y.id
  {
    var all := a + b;
    forall i, j | 0 <= i < j < |a| ensures a[i].id != a[j].id { assert all[i].id != all[j].id; }
    forall i, j | 0 <= i < j < |b| ensures b[i].id != b[j].id {
      assert all[|a| + i].id != all[|a| + j].id;
    }
    forall i, j | 0 <= i < |a| && 0 <= j < |b| ensures a[i].id != b[j].id { assert all[i].id != all[|a| + j].id; }
  }

  lemma {:induction false} ActiveInUnique(seats: seq<Seat>)
    requires UniqueSeats(seats)
    ensures UniqueSeats(ActiveIn(seats))
  {
    if seats != [] {
      var front, last := seats[..|seats| - 1], seats[|seats| - 1];
      assert seats == front + [last];
      UniqueSplits(front, [last]);
      ActiveInUnique(front);
      ActiveInMembers(front);
    }
  }

  lemma {:induction false} ActiveUnique(rows: seq<seq<Seat>>)
    requires UniqueSeats(Flat(rows))
    ensures UniqueSeats(ActiveSeats(rows))
  {
    if rows != [] {
      var front, last := rows[..|rows| - 1], rows[|rows| - 1];
      UniqueSplits(Flat(front), last);
      ActiveUnique(front);
      ActiveInUnique(last);
      ActiveMembers(front);
      ActiveInMembers(last);
    }
  }

  /** When the map lists each seat once, no two rows are for the same seat. */
  lemma {:induction false} RowsUnique(s: Source, sections: seq<Section>)
    requires UniqueSeats(SeatsOf(sections))
    ensures UniqueRows(RowsOf(s, sections))
    ensures forall r :: r in RowsOf(s, sections) ==> exists x :: x in SeatsOf(sections) && x.id == r.seat
  {
    if sections != [] {
      var front, last := sections[..|sections| - 1], sections[|sections| - 1];
      UniqueSplits(SeatsOf(front), Flat(last.rows));
      RowsUnique(s, front);
      SectionRowsUnique(s, last);
      assert SeatsOf(sections) == SeatsOf(front) + Flat(last.rows);
    }
  }

  lemma SectionRowsUnique(s: Source, section: Section)
    requires UniqueSeats(Flat(section.rows))
    ensures UniqueRows(SectionRows(s, section))
    ensures forall r :: r in SectionRows(s, section) ==> exists x :: x in Flat(section.rows) && x.id == r.seat
  {
    ActiveUnique(section.rows);
    ActiveMembers(section.rows);
    var active := ActiveSeats(section.rows);
    assert forall i :: 0 <= i < |active| ==> active[i] in active;
  }
}
