/**
  Calendar dates as the streak computation sees them.

  A stored activity keeps its local start time as a fixed-format string
  `YYYY-MM-DD HH:MM:SS`.  The streak pass parses that string, keeps the date
  part, and compares dates with `==`, `>` and `+ 1 day`.  Python performs date
  arithmetic through the proleptic Gregorian ordinal (0001-01-01 is day 1), so
  this module defines that ordinal and proves that it is an order-embedding of
  dates in which "the next calendar day" is "ordinal plus one".  The streak
  model can therefore work on integer day numbers.
*/
module Dates {
  import opened Wrappers

  /** The range of years a Python `date` can hold. */
  const MinYear := 1
  const MaxYear := 9999

  /** The ordinal of 9999-12-31, the last representable date. */
  const MaxOrdinal := 3652059

  datatype Date = Date(year: int, month: int, day: int)

  predicate IsLeap(y: int) {
    y % 4 == 0 && (y % 100 != 0 || y % 400 == 0)
  }

  function DaysInMonth(y: int, m: int): (n: int)
    requires 1 <= m <= 12
    ensures 28 <= n <= 31
  {
    if m == 2 then (if IsLeap(y) then 29 else 28)
    else if m == 4 || m == 6 || m == 9 || m == 11 then 30
    else 31
  }

  function DaysInYear(y: int): int {
    if IsLeap(y) then 366 else 365
  }

  /** A date Python can represent. */
  predicate Valid(d: Date) {
    && MinYear <= d.year <= MaxYear
    && 1 <= d.month <= 12
    && 1 <= d.day <= DaysInMonth(d.year, d.month)
  }

  /** Python's date ordering: lexicographic on (year, month, day). */
  predicate Before(a: Date, b: Date) {
    || a.year < b.year
    || (a.year == b.year && a.month < b.month)
    || (a.year == b.year && a.month == b.month && a.day < b.day)
  }

  /** Number of days in the years strictly before `y`. */
  function DaysBeforeYear(y: int): int
    requires y >= 1
  {
    var p := y - 1;
    p * 365 + p / 4 - p / 100 + p / 400
  }

  /** Number of days in year `y` before the first of month `m`. */
  function DaysBeforeMonth(y: int, m: int): (n: int)
    requires 1 <= m <= 12
    ensures 0 <= n
  {
    if m == 1 then 0 else DaysBeforeMonth(y, m - 1) + DaysInMonth(y, m - 1)
  }

  /** The proleptic Gregorian ordinal; 0001-01-01 is day 1. */
  function ToOrdinal(d: Date): int
    requires Valid(d)
  {
    DaysBeforeYear(d.year) + DaysBeforeMonth(d.year, d.month) + d.day
  }

  /** The calendar day after `d`, or `None` past the last representable date. */
  function NextDay(d: Date): Option<Date>
    requires Valid(d)
  {
    if d.day < DaysInMonth(d.year, d.month) then Some(Date(d.year, d.month, d.day + 1))
    else if d.month < 12 then Some(Date(d.year, d.month + 1, 1))
    else if d.year < MaxYear then Some(Date(d.year + 1, 1, 1))
    else None
  }

  lemma YearLength(y: int)
    requires y >= 1
    ensures DaysBeforeYear(y + 1) == DaysBeforeYear(y) + DaysInYear(y)
  {
    var p := y - 1;
    assert (p + 1) / 4 == p / 4 + (if y % 4 == 0 then 1 else 0);
    assert (p + 1) / 100 == p / 100 + (if y % 100 == 0 then 1 else 0);
    assert (p + 1) / 400 == p / 400 + (if y % 400 == 0 then 1 else 0);
  }

  lemma DaysBeforeDecember(y: int)
    ensures DaysBeforeMonth(y, 12) == 334 + (if IsLeap(y) then 1 else 0)
  {
    var leap := if IsLeap(y) then 1 else 0;
    assert DaysBeforeMonth(y, 2) == 31;
    assert DaysBeforeMonth(y, 3) == 59 + leap;
    assert DaysBeforeMonth(y, 4) == 90 + leap;
    assert DaysBeforeMonth(y, 5) == 120 + leap;
    assert DaysBeforeMonth(y, 6) == 151 + leap;
    assert DaysBeforeMonth(y, 7) == 181 + leap;
    assert DaysBeforeMonth(y, 8) == 212 + leap;
    assert DaysBeforeMonth(y, 9) == 243 + leap;
    assert DaysBeforeMonth(y, 10) == 273 + leap;
    assert DaysBeforeMonth(y, 11) == 304 + leap;
  }

  lemma {:induction false} MonthsFillYear(y: int, m: int)
    requires 1 <= m <= 12
    ensures DaysBeforeMonth(y, m) + DaysInMonth(y, m) <= DaysInYear(y)
    ensures m == 12 ==> DaysBeforeMonth(y, m) + DaysInMonth(y, m) == DaysInYear(y)
    decreases 12 - m
  {
    if m < 12 {
      MonthsFillYear(y, m + 1);
    } else {
      DaysBeforeDecember(y);
    }
  }

  lemma {:induction false} DaysBeforeMonthGrows(y: int, m1: int, m2: int)
    requires 1 <= m1 < m2 <= 12
    ensures DaysBeforeMonth(y, m1) + DaysInMonth(y, m1) <= DaysBeforeMonth(y, m2)
    decreases m2 - m1
  {
    if m1 + 1 < m2 {
      DaysBeforeMonthGrows(y, m1 + 1, m2);
    }
  }

  lemma {:induction false} DaysBeforeYearGrows(y1: int, y2: int)
    requires 1 <= y1 < y2
    ensures DaysBeforeYear(y1) + DaysInYear(y1) <= DaysBeforeYear(y2)
    decreases y2 - y1
  {
    YearLength(y1);
    if y1 + 1 < y2 {
      DaysBeforeYearGrows(y1 + 1, y2);
    }
  }

  /** A valid date lies inside its own year's block of ordinals. */
  lemma OrdinalWithinYear(d: Date)
    requires Valid(d)
    ensures DaysBeforeYear(d.year) < ToOrdinal(d) <= DaysBeforeYear(d.year) + DaysInYear(d.year)
  {
    MonthsFillYear(d.year, d.month);
  }

  lemma OrdinalStrictlyMonotone(a: Date, b: Date)
    requires Valid(a) && Valid(b) && Before(a, b)
    ensures ToOrdinal(a) < ToOrdinal(b)
  {
    if a.year < b.year {
      OrdinalWithinYear(a);
      OrdinalWithinYear(b);
      DaysBeforeYearGrows(a.year, b.year);
    } else if a.month < b.month {
      DaysBeforeMonthGrows(a.year, a.month, b.month);
    }
  }

  /**
    The ordinal preserves and reflects both date equality and date order, so
    comparing ordinals is comparing dates.
  */
  lemma OrdinalOrder(a: Date, b: Date)
    requires Valid(a) && Valid(b)
    ensures Before(a, b) <==> ToOrdinal(a) < ToOrdinal(b)
    ensures a == b <==> ToOrdinal(a) == ToOrdinal(b)
  {
    if Before(a, b) {
      OrdinalStrictlyMonotone(a, b);
    } else if Before(b, a) {
      OrdinalStrictlyMonotone(b, a);
    }
  }

  /** Every valid date has an ordinal between 1 and that of 9999-12-31. */
  lemma OrdinalRange(d: Date)
    requires Valid(d)
    ensures 1 <= ToOrdinal(d) <= MaxOrdinal
    ensures ToOrdinal(d) == MaxOrdinal <==> d == Date(MaxYear, 12, 31)
  {
    var last := Date(MaxYear, 12, 31);
    assert ToOrdinal(last) == MaxOrdinal by {
      DaysBeforeDecember(MaxYear);
    }
    OrdinalOrder(d, last);
    OrdinalWithinYear(d);
  }

  /**
    The next calendar day has the next ordinal, and it exists exactly when the
    ordinal is below that of the last representable date.  This is why
    Python's `last_date + timedelta(days=1)` is "ordinal plus one" and fails
    only on 9999-12-31.
  */
  lemma NextDayIsNextOrdinal(d: Date)
    requires Valid(d)
    ensures NextDay(d).Some? <==> ToOrdinal(d) < MaxOrdinal
    ensures NextDay(d).Some? ==> Valid(NextDay(d).value) && ToOrdinal(NextDay(d).value) == ToOrdinal(d) + 1
  {
    OrdinalRange(d);
    if d.day == DaysInMonth(d.year, d.month) {
      if d.month < 12 {
        assert DaysBeforeMonth(d.year, d.month + 1) == DaysBeforeMonth(d.year, d.month) + d.day;
      } else if d.year < MaxYear {
        MonthsFillYear(d.year, 12);
        YearLength(d.year);
      }
    }
  }
}
