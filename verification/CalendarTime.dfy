/** UTC instants, in minutes since the start of year 0, and their calendar fields. */
module CalendarTime {
  import opened Common

  type Minutes = int

  datatype Date = Date(year: int, month: int, day: int)

  datatype Parts = Parts(date: Date, hour: int, minute: int)

  predicate Leap(year: int) {
    year % 4 == 0 && (year % 100 != 0 || year % 400 == 0)
  }

  function YearLength(year: int): int {
    if Leap(year) then 366 else 365
  }

  function MonthLength(year: int, month: int): int {
    if month == 2 then (if Leap(year) then 29 else 28)
    else if month in {4, 6, 9, 11} then 30 else 31
  }

  /** A date and time of the calendar. */
  predicate RealDate(d: Date) {
    1 <= d.month <= 12 && 1 <= d.day <= MonthLength(d.year, d.month)
  }

  predicate Real(p: Parts) {
    RealDate(p.date) && 0 <= p.hour <= 23 && 0 <= p.minute <= 59
  }

  // ------------------------------------------------------------------------
  // Day numbers
  // ------------------------------------------------------------------------

  function DayFromYear(year: int): int
    decreases if year < 0 then -year else year
  {
    if year == 0 then 0
    else if year > 0 then DayFromYear(year - 1) + YearLength(year - 1)
    else DayFromYear(year + 1) - YearLength(year)
  }

  function DaysBefore(year: int, month: int): int
    requires 1 <= month <= 13
  {
    if month == 1 then 0 else DaysBefore(year, month - 1) + MonthLength(year, month - 1)
  }

  function DayNumber(d: Date): int
    requires 1 <= d.month <= 12
  {
    DayFromYear(d.year) + DaysBefore(d.year, d.month) + d.day - 1
  }

  /** The year that lies n days from the start of `year`, and the day within it. */
  function YearOf(n: int, year: int): (r: (int, int))
    ensures 0 <= r.1 < YearLength(r.0) && DayFromYear(r.0) + r.1 == DayFromYear(year) + n
    decreases if n < 0 then 1 else 0, if n < 0 then -n else n
  {
    if n < 0 then YearOf(n + YearLength(year - 1), year - 1)
    else if n < YearLength(year) then (year, n)
    else YearOf(n - YearLength(year), year + 1)
  }

  /** The month and day n days after the first of `month`. */
  function MonthOf(year: int, n: int, month: int): (r: (int, int))
    requires 1 <= month <= 12 && 0 <= n && DaysBefore(year, month) + n < DaysBefore(year, 13)
    ensures 1 <= r.0 <= 12 && 1 <= r.1 <= MonthLength(year, r.0)
    ensures DaysBefore(year, r.0) + r.1 - 1 == DaysBefore(year, month) + n
    decreases 12 - month
  {
    if n < MonthLength(year, month) then (month, n + 1)
    else MonthOf(year, n - MonthLength(year, month), month + 1)
  }

  lemma YearIsItsMonths(year: int)
    ensures DaysBefore(year, 13) == YearLength(year)
  {
    var february := MonthLength(year, 2);
    assert DaysBefore(year, 1) == 0 && DaysBefore(year, 2) == 31;
    assert DaysBefore(year, 3) == 31 + february;
    assert DaysBefore(year, 5) == 92 + february;
    assert DaysBefore(year, 7) == 153 + february;
    assert DaysBefore(year, 9) == 215 + february;
    assert DaysBefore(year, 11) == 276 + february;
  }

  /** The calendar itself: the twelve months, in order. */
  lemma MonthsOfTheYear(year: int)
    ensures [MonthLength(year, 1), MonthLength(year, 2), MonthLength(year, 3), MonthLength(year, 4),
             MonthLength(year, 5), MonthLength(year, 6), MonthLength(year, 7), MonthLength(year, 8),
             MonthLength(year, 9), MonthLength(year, 10), MonthLength(year, 11), MonthLength(year, 12)]
      == [31, YearLength(year) - 337, 31, 30, 31, 30, 31, 31, 30, 31, 30, 31]
  {
  }

  /** A year is a leap year if its number is divisible by 4, unless it is divisible by 100 and not by 400. */
  lemma LeapYears(year: int)
    ensures YearLength(year) == 366 <==> (year % 4 == 0 && year % 100 != 0) || year % 400 == 0
    ensures YearLength(year) in {365, 366}
  {
  }

  /** The date with the given day number. */
  function CivilOf(n: int): (d: Date)
    ensures RealDate(d) && DayNumber(d) == n
  {
    var (year, day) := YearOf(n, 0);
    YearIsItsMonths(year);
    var (month, dayOfMonth) := MonthOf(year, day, 1);
    Date(year, month, dayOfMonth)
  }

  lemma {:induction false} YearsAscend(a: int, b: int)
    requires a < b
    ensures DayFromYear(a) + YearLength(a) <= DayFromYear(b)
    decreases b - a
  {
    YearStep(b - 1);
    if a < b - 1 { YearsAscend(a, b - 1); }
  }

  lemma YearStep(year: int)
    ensures DayFromYear(year + 1) == DayFromYear(year) + YearLength(year)
  {
  }

  lemma {:induction false} MonthsAscend(year: int, a: int, b: int)
    requires 1 <= a < b <= 13
    ensures DaysBefore(year, a) + MonthLength(year, a) <= DaysBefore(year, b)
    decreases b
  {
    if a < b - 1 { MonthsAscend(year, a, b - 1); }
  }

  lemma DayOfYear(d: Date)
    requires RealDate(d)
    ensures DayFromYear(d.year) <= DayNumber(d) < DayFromYear(d.year) + YearLength(d.year)
  {
    YearIsItsMonths(d.year);
    MonthsAscend(d.year, d.month, 13);
    if d.month > 1 { MonthsAscend(d.year, 1, d.month); }
  }

  /** No two dates share a day number. */
  lemma DayNumberInjective(a: Date, b: Date)
    requires RealDate(a) && RealDate(b) && DayNumber(a) == DayNumber(b)
    ensures a == b
  {
    DayOfYear(a);
    DayOfYear(b);
    if a.year < b.year { YearsAscend(a.year, b.year); }
    if b.year < a.year { YearsAscend(b.year, a.year); }
    if a.month < b.month { MonthsAscend(a.year, a.month, b.month); }
    if b.month < a.month { MonthsAscend(a.year, b.month, a.month); }
  }

  // ------------------------------------------------------------------------
  // Date.UTC and its inverse
  // ------------------------------------------------------------------------

  /** Date.UTC of any fields: months and days overflow, and the years 0 to 99 mean 1900 to 1999. */
  function DateUtc(p: Parts): Minutes {
    var year := FullYear(p.date.year) + (p.date.month - 1) / 12;
    var month := (p.date.month - 1) % 12 + 1;
    (DayFromYear(year) + DaysBefore(year, month) + p.date.day - 1) * 1440 + p.hour * 60 + p.minute
  }

  /** The UTC fields of an instant. */
  function PartsOf(t: Minutes): (p: Parts)
    ensures Real(p)
  {
    Parts(CivilOf(t / 1440), t % 1440 / 60, t % 60)
  }

  lemma DivMod60(t: int, q: int, r: int)
    requires t == q * 60 + r && 0 <= r < 60
    ensures t / 60 == q && t % 60 == r
  {
  }

  lemma DivMod1440(t: int, q: int, r: int)
    requires t == q * 1440 + r && 0 <= r < 1440
    ensures t / 1440 == q && t % 1440 == r
  {
  }

  lemma Recombine(t: Minutes)
    ensures t == t / 1440 * 1440 + t % 1440 / 60 * 60 + t % 60
  {
    var day, rest := t / 1440, t % 1440;
    var hour, minute := rest / 60, rest % 60;
    DivMod60(t, day * 24 + hour, minute);
  }

  lemma PartsInjective(a: Minutes, b: Minutes)
    requires PartsOf(a) == PartsOf(b)
    ensures a == b
  {
    Recombine(a);
    Recombine(b);
    assert DayNumber(CivilOf(a / 1440)) == a / 1440 && DayNumber(CivilOf(b / 1440)) == b / 1440;
  }

  lemma SplitMinutes(day: int, hour: int, minute: int)
    requires 0 <= hour <= 23 && 0 <= minute <= 59
    ensures var t := day * 1440 + hour * 60 + minute;
      t / 1440 == day && t % 1440 / 60 == hour && t % 60 == minute
  {
    var t := day * 1440 + hour * 60 + minute;
    DivMod1440(t, day, hour * 60 + minute);
    DivMod60(hour * 60 + minute, hour, minute);
    DivMod60(t, day * 24 + hour, minute);
  }

  /** The year Date.UTC takes a year for. */
  function FullYear(year: int): int {
    if 0 <= year <= 99 then 1900 + year else year
  }

  /** Years 0 to 99 are read as 1900 to 1999; twelve months too many are a year, a day too many is a day. */
  lemma FieldsOverflow(p: Parts)
    ensures 0 <= p.date.year <= 99 ==> DateUtc(p) == DateUtc(p.(date := p.date.(year := 1900 + p.date.year)))
    ensures p.date.year >= 100 ==>
      DateUtc(p.(date := p.date.(month := p.date.month + 12))) == DateUtc(p.(date := p.date.(year := p.date.year + 1)))
    ensures DateUtc(p.(date := p.date.(day := p.date.day + 1))) == DateUtc(p) + 1440
  {
    var m := p.date.month - 1;
    assert (m + 12) / 12 == m / 12 + 1 && (m + 12) % 12 == m % 12;
  }

  /** On a real date no month or day overflows. */
  lemma DateUtcOfReal(p: Parts)
    requires Real(p)
    ensures PartsOf(DateUtc(p)) == Parts(CivilOf(DayNumber(p.date.(year := FullYear(p.date.year)))), p.hour, p.minute)
  {
    hide CivilOf, DayFromYear, DaysBefore;
    var day := DayNumber(p.date.(year := FullYear(p.date.year)));
    assert DateUtc(p) == day * 1440 + p.hour * 60 + p.minute by {
      assert (p.date.month - 1) / 12 == 0 && (p.date.month - 1) % 12 == p.date.month - 1;
    }
    SplitMinutes(day, p.hour, p.minute);
  }

  /** Date.UTC inverts the field readers on every real date from the year 100 on, and on no other fields. */
  lemma DateUtcInverse(p: Parts)
    ensures PartsOf(DateUtc(p)) == p <==> Real(p) && !(0 <= p.date.year <= 99)
  {
    hide DateUtc, CivilOf, DayNumber;
    if Real(p) {
      DateUtcOfReal(p);
      var full := p.date.(year := FullYear(p.date.year));
      CivilOfNumber(full, p.date);
    }
  }

  /** A date is read back from its day number, unless it was taken for one 1900 years on. */
  lemma CivilOfNumber(full: Date, d: Date)
    requires RealDate(d) && full == d.(year := FullYear(d.year))
    ensures CivilOf(DayNumber(full)) == d <==> full == d
  {
    if full == d {
      DayNumberInjective(CivilOf(DayNumber(d)), d);
    } else if CivilOf(DayNumber(full)) == d {
      ShortYearMoves(d);
    }
  }

  /** A date of the first century never has the day number of the same date 1900 years on. */
  lemma ShortYearMoves(d: Date)
    requires RealDate(d) && 0 <= d.year <= 99
    ensures DayNumber(d) != DayFromYear(1900 + d.year) + DaysBefore(1900 + d.year, d.month) + d.day - 1
  {
    DayOfYear(d);
    YearsAscend(d.year, 1900 + d.year);
    if d.month > 1 { MonthsAscend(1900 + d.year, 1, d.month); }
  }
}
