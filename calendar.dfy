/**
  Gregorian calendar dates with the range of Python's `datetime` (years 1 to
  9999), the anniversary-date construction of `filter_anniversaries`, and the
  month stepping of the calculation date.
*/
module Calendar {
  import opened Wrappers

  /** `datetime.MINYEAR` and `datetime.MAXYEAR`. */
  const MinYear := 1
  const MaxYear := 9999

  /** The range of the C `int` the `datetime` constructor converts its year
      argument to; a year outside it raises `OverflowError`, not `ValueError`. */
  const CIntMin := -0x8000_0000
  const CIntMax := 0x7FFF_FFFF

  predicate FitsCInt(y: int)
  {
    CIntMin <= y <= CIntMax
  }

  datatype Date = Date(year: int, month: int, day: int)

  /** A calculation date, always held on the first day of its month. */
  datatype Period = Period(year: int, month: int)

  /** Divisible by 4, and not by 100 unless also by 400.  For a positive
      divisor Dafny's `%` and Python's `%` agree on every integer. */
  predicate IsLeapYear(y: int)
  {
    y % 4 == 0 && (y % 100 != 0 || y % 400 == 0)
  }

  function DaysInMonth(y: int, m: int): (n: int)
    requires 1 <= m <= 12
    ensures 28 <= n <= 31
    ensures n == 29 <==> m == 2 && IsLeapYear(y)
  {
    if m == 2 then (if IsLeapYear(y) then 29 else 28)
    else if m == 4 || m == 6 || m == 9 || m == 11 then 30
    else 31
  }

  /** The dates the `datetime` constructor accepts without `ValueError`. */
  predicate ValidDate(d: Date)
  {
    MinYear <= d.year <= MaxYear && 1 <= d.month <= 12 && 1 <= d.day <= DaysInMonth(d.year, d.month)
  }

  predicate IsLeapDay(d: Date)
  {
    d.month == 2 && d.day == 29
  }

  /** The date `filter_anniversaries` asks `datetime` to build for a start
      date and a milestone, before `datetime` validates it. */
  function CandidateDate(start: Date, years: int): Date
  {
    var target := start.year + years;
    if IsLeapDay(start) then
      Date(target, 2, if IsLeapYear(target) then 29 else 28)
    else
      Date(target, start.month, start.day)
  }

  /** The anniversary of `start` after `years` years, or `None` where
      `datetime` raises `ValueError` (the row is then skipped).  It stands for
      the constructor call only where the target year fits a C `int`; the
      caller handles the `OverflowError` of the other years first. */
  function AnniversaryDate(start: Date, years: int): (r: Option<Date>)
    ensures r.Some? ==> ValidDate(r.value) && r.value.year == start.year + years
  {
    var d := CandidateDate(start, years);
    if ValidDate(d) then Some(d) else None
  }

  /** A February 29 start falls on February 29 in a leap target year and on
      February 28 otherwise; the milestone is never skipped while the target
      year is one `datetime` can represent. */
  lemma LeapDayAnniversary(start: Date, years: int)
    requires IsLeapDay(start)
    requires MinYear <= start.year + years <= MaxYear
    ensures AnniversaryDate(start, years) ==
      Some(Date(start.year + years, 2, if IsLeapYear(start.year + years) then 29 else 28))
    ensures AnniversaryDate(start, years).value.day == 29 <==> IsLeapYear(start.year + years)
  {
  }

  /** Any other valid start date keeps its month and day. */
  lemma OtherAnniversary(start: Date, years: int)
    requires ValidDate(start) && !IsLeapDay(start)
    requires MinYear <= start.year + years <= MaxYear
    ensures AnniversaryDate(start, years) == Some(Date(start.year + years, start.month, start.day))
  {
    assert start.month == 2 ==> start.day <= 28;
  }

  /** For a valid start date, the construction fails exactly when the
      target year is outside the range of `datetime`; with a target year that
      fits a C `int` this is the `ValueError` branch. */
  lemma AnniversaryFailsOnlyOutOfRange(start: Date, years: int)
    requires ValidDate(start)
    ensures AnniversaryDate(start, years).None? <==> !(MinYear <= start.year + years <= MaxYear)
  {
    if MinYear <= start.year + years <= MaxYear {
      if IsLeapDay(start) {
        LeapDayAnniversary(start, years);
      } else {
        OtherAnniversary(start, years);
      }
    }
  }

  /** Leap-day starts around a leap year, and a century that is not one. */
  lemma LeapDayExamples()
    ensures AnniversaryDate(Date(2000, 2, 29), 1) == Some(Date(2001, 2, 28))
    ensures AnniversaryDate(Date(2000, 2, 29), 4) == Some(Date(2004, 2, 29))
    ensures AnniversaryDate(Date(1896, 2, 29), 4) == Some(Date(1900, 2, 28))
    ensures AnniversaryDate(Date(1990, 6, 15), 10) == Some(Date(2000, 6, 15))
  {
  }

  predicate InPeriod(d: Date, p: Period)
  {
    d.year == p.year && d.month == p.month
  }

  predicate ValidPeriod(p: Period)
  {
    MinYear <= p.year <= MaxYear && 1 <= p.month <= 12
  }

  /** Months elapsed since January of year 0: an independent ordering of periods. */
  function MonthIndex(p: Period): int
  {
    p.year * 12 + (p.month - 1)
  }

  /** The month of today's date ("Current Month"; also the initial value). */
  function CurrentPeriod(today: Date): (p: Period)
    ensures ValidDate(today) ==> ValidPeriod(p) && InPeriod(today, p)
  {
    Period(today.year, today.month)
  }

  /** "Next Month": add one month, then move to day 1.  `None` where the
      year would pass `MaxYear` and `datetime` raises. */
  function NextPeriod(p: Period): (r: Option<Period>)
    requires ValidPeriod(p)
    ensures r.None? <==> p.year == MaxYear && p.month == 12
    ensures r.Some? ==> ValidPeriod(r.value) && MonthIndex(r.value) == MonthIndex(p) + 1
  {
    var q := if p.month == 12 then Period(p.year + 1, 1) else Period(p.year, p.month + 1);
    if q.year <= MaxYear then Some(q) else None
  }

  /** "Prev. Month": subtract one month, then move to day 1.  `None` where the
      year would fall below `MinYear`. */
  function PrevPeriod(p: Period): (r: Option<Period>)
    requires ValidPeriod(p)
    ensures r.None? <==> p.year == MinYear && p.month == 1
    ensures r.Some? ==> ValidPeriod(r.value) && MonthIndex(r.value) == MonthIndex(p) - 1
  {
    var q := if p.month == 1 then Period(p.year - 1, 12) else Period(p.year, p.month - 1);
    if MinYear <= q.year then Some(q) else None
  }

  /** Two periods with the same index and a valid month are the same period. */
  lemma MonthIndexInjective(p: Period, q: Period)
    requires 1 <= p.month <= 12 && 1 <= q.month <= 12
    requires MonthIndex(p) == MonthIndex(q)
    ensures p == q
  {
    assert p.year == MonthIndex(p) / 12 && q.year == MonthIndex(q) / 12;
  }

  /** Next month followed by previous month is the identity. */
  lemma NextThenPrev(p: Period)
    requires ValidPeriod(p) && NextPeriod(p).Some?
    ensures PrevPeriod(NextPeriod(p).value) == Some(p)
  {
    var q := NextPeriod(p).value;
    MonthIndexInjective(PrevPeriod(q).value, p);
  }

  /** Previous month followed by next month is the identity. */
  lemma PrevThenNext(p: Period)
    requires ValidPeriod(p) && PrevPeriod(p).Some?
    ensures NextPeriod(PrevPeriod(p).value) == Some(p)
  {
    var q := PrevPeriod(p).value;
    MonthIndexInjective(NextPeriod(q).value, p);
  }
}
