/** Venue-local times and the instants they name in a time zone. */
module ZonedTime {
  import opened Common
  import opened CalendarTime

  /** The offset of local time from UTC at each instant, in whole minutes. */
  type Zone = Minutes -> int

  /** partsInTimeZone. */
  function LocalParts(zone: Zone, t: Minutes): Parts {
    PartsOf(t + zone(t))
  }

  /** offsetAt, computed back from the local fields. */
  function OffsetAt(zone: Zone, t: Minutes): int {
    DateUtc(LocalParts(zone, t)) - t
  }

  ghost predicate Bounded(zone: Zone, bound: nat) {
    forall t :: -(bound as int) <= zone(t) <= bound
  }

  /** Past the years that Date.UTC reads as 1900 to 1999. */
  predicate PastShortYears(t: Minutes) {
    PartsOf(t).date.year >= 100
  }

  /** Once local years have three digits, offsetAt is the zone's offset. */
  lemma OffsetIsOffset(zone: Zone, t: Minutes)
    requires PastShortYears(t + zone(t))
    ensures OffsetAt(zone, t) == zone(t)
  {
    var p := LocalParts(zone, t);
    DateUtcInverse(p);
    PartsInjective(DateUtc(p), t + zone(t));
  }

  lemma LaterYears(a: Minutes, b: Minutes)
    requires a <= b
    ensures PastShortYears(a) ==> PastShortYears(b)
  {
    var x, y := CivilOf(a / 1440), CivilOf(b / 1440);
    assert a / 1440 <= b / 1440;
    DayOfYear(x);
    DayOfYear(y);
    if y.year < x.year { YearsAscend(y.year, x.year); }
  }

  // ------------------------------------------------------------------------
  // Finding the instant
  // ------------------------------------------------------------------------

  /** One iteration of the loop, for the local time that reads `local` in UTC. */
  function Refine(zone: Zone, local: Minutes, candidate: Minutes): Minutes {
    local - OffsetAt(zone, candidate)
  }

  function Candidate(zone: Zone, local: Minutes, iterations: nat): Minutes {
    if iterations == 0 then local else Refine(zone, local, Candidate(zone, local, iterations - 1))
  }

  /** zonedLocalDateTimeToUtc on parsed fields; None is the error about a clock change. */
  function ToUtc(p: Parts, zone: Zone): Option<Minutes> {
    var candidate := Candidate(zone, DateUtc(p), 3);
    if LocalParts(zone, candidate) == p then Some(candidate) else None
  }

  /** The loop of zonedLocalDateTimeToUtc. */
  method ZonedLocalToUtc(p: Parts, zone: Zone) returns (r: Option<Minutes>)
    ensures r == ToUtc(p, zone)
  {
    var localAsUtc := DateUtc(p);
    var candidate := localAsUtc;
    for iteration := 0 to 3
      invariant candidate == Candidate(zone, localAsUtc, iteration)
    {
      candidate := localAsUtc - OffsetAt(zone, candidate);
    }
    if LocalParts(zone, candidate) != p { return None; }
    r := Some(candidate);
  }

  /** The instant shows the local time in the zone. */
  ghost predicate Shows(zone: Zone, t: Minutes, p: Parts) {
    LocalParts(zone, t) == p
  }

  lemma ShowsIff(zone: Zone, t: Minutes, p: Parts)
    requires Real(p) && p.date.year >= 100
    ensures Shows(zone, t, p) <==> t + zone(t) == DateUtc(p)
  {
    DateUtcInverse(p);
    if Shows(zone, t, p) { PartsInjective(t + zone(t), DateUtc(p)); }
  }

  /** Offset `before` until the transition and `after` from it on, throughout the window. */
  ghost predicate OneTransition(zone: Zone, from: Minutes, to: Minutes, transition: Minutes, before: int, after: int) {
    forall t :: from <= t <= to ==> zone(t) == if t < transition then before else after
  }

  /** The whole window around the local time is past the years Date.UTC misreads. */
  ghost predicate WellDated(p: Parts, bound: nat) {
    Real(p) && p.date.year >= 100 && PastShortYears(DateUtc(p) - 2 * bound)
  }

  /** Inside the window the candidates are the plain fixed-point iteration. */
  lemma RefineIs(zone: Zone, p: Parts, bound: nat, t: Minutes)
    requires Bounded(zone, bound) && WellDated(p, bound)
    requires DateUtc(p) - bound <= t <= DateUtc(p) + bound
    ensures Refine(zone, DateUtc(p), t) == DateUtc(p) - zone(t)
    ensures DateUtc(p) - bound <= Refine(zone, DateUtc(p), t) <= DateUtc(p) + bound
  {
    hide DateUtc, PastShortYears, LocalParts, OffsetAt;
    LaterYears(DateUtc(p) - 2 * bound, t + zone(t));
    OffsetIsOffset(zone, t);
  }

  lemma ThreeCandidates(zone: Zone, p: Parts, bound: nat)
    requires Bounded(zone, bound) && WellDated(p, bound)
    ensures var local := DateUtc(p); var c1 := local - zone(local); var c2 := local - zone(c1);
      && local - bound <= c1 <= local + bound && local - bound <= c2 <= local + bound
      && Candidate(zone, local, 1) == c1 && Candidate(zone, local, 2) == c2
      && Candidate(zone, local, 3) == local - zone(c2)
  {
    hide DateUtc, PastShortYears, Refine;
    var local := DateUtc(p);
    RefineIs(zone, p, bound, local);
    assert Candidate(zone, local, 1) == Refine(zone, local, Candidate(zone, local, 0));
    RefineIs(zone, p, bound, Candidate(zone, local, 1));
    RefineIs(zone, p, bound, Candidate(zone, local, 2));
  }

  /** Any answer at all shows the local time, whatever the zone does. */
  lemma AnswerShows(p: Parts, zone: Zone)
    ensures ToUtc(p, zone).Some? ==> Shows(zone, ToUtc(p, zone).value, p)
  {
  }

  /**
   * With offsets within `bound` and at most one transition within `bound` of the
   * local time, three iterations find an instant exactly when one exists: the
   * error means the local time falls in a spring-forward gap. When two exist the
   * answer is the one whose offset is in force at the local time read as UTC.
   */
  lemma ExactWithOneTransition(p: Parts, zone: Zone, bound: nat, transition: Minutes, before: int, after: int)
    requires Bounded(zone, bound) && WellDated(p, bound)
    requires OneTransition(zone, DateUtc(p) - bound, DateUtc(p) + bound, transition, before, after)
    ensures ToUtc(p, zone).Some? <==> exists t :: Shows(zone, t, p)
    ensures ToUtc(p, zone).None? <==> DateUtc(p) - after < transition <= DateUtc(p) - before
    ensures var first := DateUtc(p) - zone(DateUtc(p)); Shows(zone, first, p) ==> ToUtc(p, zone) == Some(first)
  {
    hide DateUtc, PastShortYears, Candidate, LocalParts;
    var local := DateUtc(p);
    ThreeCandidates(zone, p, bound);
    ShowsIff(zone, Candidate(zone, local, 3), p);
    ShowsIff(zone, local - zone(local), p);
    if t :| Shows(zone, t, p) {
      ShowsIff(zone, t, p);
      assert local - bound <= t <= local + bound;
    }
    ShowsIff(zone, local - before, p);
    ShowsIff(zone, local - after, p);
  }

  /** Under the same conditions two iterations already find it. */
  lemma TwoIterationsSuffice(p: Parts, zone: Zone, bound: nat, transition: Minutes, before: int, after: int)
    requires Bounded(zone, bound) && WellDated(p, bound)
    requires OneTransition(zone, DateUtc(p) - bound, DateUtc(p) + bound, transition, before, after)
    ensures ToUtc(p, zone).Some? ==> ToUtc(p, zone) == Some(Candidate(zone, DateUtc(p), 2))
  {
    hide DateUtc, PastShortYears, Candidate, LocalParts;
    ThreeCandidates(zone, p, bound);
    var candidate := Candidate(zone, DateUtc(p), 3);
    ShowsIff(zone, candidate, p);
  }

  /**
   * Two transitions inside the window, as no real time zone has them: 20 minutes
   * behind, then level from T + 10, then an hour behind from T + 40.
   */
  function TwiceChanging(start: Minutes): Zone {
    t => if t < start + 10 then -20 else if t < start + 40 then 0 else -60
  }

  /** The bound of one transition is sharp: with two, the iteration can run in a circle although the local time exists. */
  lemma TwoTransitionsCanFail(p: Parts)
    requires WellDated(p, 60)
    ensures var zone := TwiceChanging(DateUtc(p));
      Bounded(zone, 60) && ToUtc(p, zone).None? && exists t :: Shows(zone, t, p)
  {
    hide DateUtc, PastShortYears, Candidate, LocalParts;
    var local := DateUtc(p);
    var zone := TwiceChanging(local);
    ThreeCandidates(zone, p, 60);
    ShowsIff(zone, Candidate(zone, local, 3), p);
    ShowsIff(zone, local + 60, p);
  }

  // ------------------------------------------------------------------------
  // Strings
  // ------------------------------------------------------------------------

  function DigitOf(n: int): char
    requires 0 <= n <= 9
  {
    '0' + n as char
  }

  /** The digits of a number, as String(n) writes them. */
  function Decimal(n: nat): string {
    if n < 10 then [DigitOf(n)] else Decimal(n / 10) + [DigitOf(n % 10)]
  }

  /** String(n).padStart(2, "0"). */
  function Pad2(n: nat): string {
    if |Decimal(n)| < 2 then "0" + Decimal(n) else Decimal(n)
  }

  /** The pattern dddd-dd-ddTdd:dd. */
  predicate Matches(s: string) {
    && |s| == 16
    && IsDigit(s[0]) && IsDigit(s[1]) && IsDigit(s[2]) && IsDigit(s[3]) && s[4] == '-'
    && IsDigit(s[5]) && IsDigit(s[6]) && s[7] == '-'
    && IsDigit(s[8]) && IsDigit(s[9]) && s[10] == 'T'
    && IsDigit(s[11]) && IsDigit(s[12]) && s[13] == ':'
    && IsDigit(s[14]) && IsDigit(s[15])
  }

  function TwoDigits(a: char, b: char): int
    requires IsDigit(a) && IsDigit(b)
  {
    Digit(a) * 10 + Digit(b)
  }

  function FieldsOf(s: string): Parts
    requires Matches(s)
  {
    Parts(Date(TwoDigits(s[0], s[1]) * 100 + TwoDigits(s[2], s[3]), TwoDigits(s[5], s[6]), TwoDigits(s[8], s[9])),
          TwoDigits(s[11], s[12]), TwoDigits(s[14], s[15]))
  }

  /** parseLocalDateTime; None stands for either of its errors. */
  function Parse(s: string): Option<Parts> {
    if !Matches(s) then None
    else if PartsOf(DateUtc(FieldsOf(s))) != FieldsOf(s) then None
    else Some(FieldsOf(s))
  }

  /** Parsing accepts exactly the well-formed strings that name a real date and time from the year 100 on. */
  lemma ParseAcceptsExactly(s: string)
    ensures Parse(s).Some? <==> Matches(s) && Real(FieldsOf(s)) && FieldsOf(s).date.year >= 100
  {
    if Matches(s) { DateUtcInverse(FieldsOf(s)); }
  }

  /** toVenueLocalInputValue. */
  function Format(p: Parts): string
    requires Real(p) && p.date.year >= 0
  {
    Decimal(p.date.year) + "-" + Pad2(p.date.month) + "-" + Pad2(p.date.day) + "T" + Pad2(p.hour) + ":" + Pad2(p.minute)
  }

  lemma PadIsTwoDigits(a: char, b: char)
    requires IsDigit(a) && IsDigit(b)
    ensures Pad2(TwoDigits(a, b)) == [a, b]
  {
    var n := TwoDigits(a, b);
    assert n / 10 == Digit(a) && n % 10 == Digit(b);
    if n < 10 {
      assert Decimal(n) == [b] && a == '0';
    } else {
      assert Decimal(n / 10) == [a];
    }
  }

  /** A year is written with all its four digits exactly from 1000 on. */
  lemma YearDigits(a: char, b: char, c: char, d: char)
    requires IsDigit(a) && IsDigit(b) && IsDigit(c) && IsDigit(d)
    ensures var year := TwoDigits(a, b) * 100 + TwoDigits(c, d);
      && (year >= 1000 ==> Decimal(year) == [a, b, c, d])
      && (year < 1000 ==> |Decimal(year)| < 4)
  {
    var year := TwoDigits(a, b) * 100 + TwoDigits(c, d);
    assert year / 10 == TwoDigits(a, b) * 10 + Digit(c) && year % 10 == Digit(d);
    var tens := year / 10;
    assert tens / 10 == TwoDigits(a, b) && tens % 10 == Digit(c);
    var hundreds := tens / 10;
    assert hundreds / 10 == Digit(a) && hundreds % 10 == Digit(b);
    assert Decimal(Digit(a)) == [a];
    assert hundreds >= 10 ==> Decimal(hundreds) == [a, b];
    assert hundreds < 10 ==> |Decimal(hundreds)| == 1;
    assert tens >= 100 ==> Decimal(tens) == [a, b, c];
    assert tens < 100 ==> |Decimal(tens)| <= 2;
  }

  /** Writing parsed fields gives the input back exactly when the year has four digits. */
  lemma FormatInverts(s: string)
    requires Parse(s).Some?
    ensures Real(Parse(s).value) && Format(Parse(s).value) == s <==> Parse(s).value.date.year >= 1000
  {
    hide DateUtc, PartsOf, Decimal, Pad2;
    ParseAcceptsExactly(s);
    var p := Parse(s).value;
    YearDigits(s[0], s[1], s[2], s[3]);
    PadIsTwoDigits(s[5], s[6]);
    PadIsTwoDigits(s[8], s[9]);
    PadIsTwoDigits(s[11], s[12]);
    PadIsTwoDigits(s[14], s[15]);
    var rest := "-" + [s[5], s[6]] + "-" + [s[8], s[9]] + "T" + [s[11], s[12]] + ":" + [s[14], s[15]];
    assert Format(p) == Decimal(p.date.year) + rest;
    assert s == [s[0], s[1], s[2], s[3]] + rest;
  }

  /** The venue's input string survives the trip to UTC and back from the year 1000 on. */
  lemma RoundTrip(s: string, zone: Zone)
    requires Parse(s).Some? && ToUtc(Parse(s).value, zone).Some?
    ensures var shown := LocalParts(zone, ToUtc(Parse(s).value, zone).value);
      shown.date.year >= 100 && (Format(shown) == s <==> shown.date.year >= 1000)
  {
    ParseAcceptsExactly(s);
    FormatInverts(s);
  }

  /** Year, month, day, hour and minute are read in that order. */
  lemma ReadsInOrder()
    ensures Parse("2024-03-10T09:45") == Some(Parts(Date(2024, 3, 10), 9, 45))
  {
    var s := "2024-03-10T09:45";
    assert Matches(s) && FieldsOf(s) == Parts(Date(2024, 3, 10), 9, 45);
    ParseAcceptsExactly(s);
  }
}
