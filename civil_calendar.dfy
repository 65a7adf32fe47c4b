// Calendar arithmetic behind the JavaScript `Date` calls of the contribution
// calendar, on day numbers: day 0 is 1970-01-01, a Thursday. Months are
// numbered from 0 as `getMonth()` numbers them; the proleptic Gregorian
// calendar is used for every year, as JavaScript does.

module CivilCalendar {

  predicate IsLeap(y: int) {
    y % 4 == 0 && (y % 100 != 0 || y % 400 == 0)
  }

  function YearLength(y: int): nat {
    if IsLeap(y) then 366 else 365
  }

  function DaysInMonth(y: int, m: int): (n: nat)
    requires 0 <= m < 12
    ensures 28 <= n <= 31
  {
    if m == 1 then (if IsLeap(y) then 29 else 28)
    else if m == 3 || m == 5 || m == 8 || m == 10 then 30
    else 31
  }

  /** Leap years among 1 .. y-1, counted negatively below year 1. */
  function LeapsBefore(y: int): int {
    (y - 1) / 4 - (y - 1) / 100 + (y - 1) / 400
  }

  /** The day number of January 1st of year `y`. */
  function YearStart(y: int): int {
    365 * (y - 1970) + LeapsBefore(y) - LeapsBefore(1970)
  }

  /** Days of a common year before the first of each month, and the whole
      year last. */
  const CommonMonthStarts: seq<nat> := [0, 31, 59, 90, 120, 151, 181, 212, 243, 273, 304, 334, 365]

  /** Days of year `y` before the first of month `m`; from March on, a leap
      year has one more. */
  function MonthStart(y: int, m: int): nat
    requires 0 <= m <= 12
  {
    CommonMonthStarts[m] + if m >= 2 && IsLeap(y) then 1 else 0
  }

  /** A year, a month 0 .. 11 and a day of that month. */
  datatype Civil = Civil(year: int, month: int, day: int)

  predicate Valid(c: Civil) {
    0 <= c.month < 12 && 1 <= c.day <= DaysInMonth(c.year, c.month)
  }

  /** The day number of day `d` of month `m` of year `y`; a day outside the
      month counts on from its first day, as `new Date(y, m, d)` does. */
  function DayNumber(y: int, m: int, d: int): int
    requires 0 <= m < 12
  {
    YearStart(y) + MonthStart(y, m) + d - 1
  }

  /** `new Date(y, m, d)`: the month may lie outside 0 .. 11 and moves the
      year. */
  function DateValue(y: int, m: int, d: int): int {
    DayNumber(y + m / 12, m % 12, d)
  }

  /** `getDay()`: 0 is Sunday. */
  function Weekday(n: int): (w: nat)
    ensures w < 7
  {
    (n + 4) % 7
  }

  // ---------------------------------------------------------------------------
  // Year and month lengths add up

  lemma DivStep(x: int)
    ensures x / 4 - (x - 1) / 4 == if x % 4 == 0 then 1 else 0
    ensures x / 100 - (x - 1) / 100 == if x % 100 == 0 then 1 else 0
    ensures x / 400 - (x - 1) / 400 == if x % 400 == 0 then 1 else 0
  {
  }

  lemma NextYearStart(y: int)
    ensures YearStart(y + 1) == YearStart(y) + YearLength(y)
  {
    DivStep(y);
  }

  lemma WholeYear(y: int)
    ensures MonthStart(y, 12) == YearLength(y)
  {
  }

  /** The table of month starts agrees with the month lengths. */
  lemma MonthLength(y: int, m: int)
    requires 0 <= m < 12
    ensures MonthStart(y, m + 1) == MonthStart(y, m) + DaysInMonth(y, m)
  {
  }

  /** Every 400 years the calendar repeats, 146097 days later. */
  lemma {:induction false} CycleStart(q: int)
    ensures YearStart(1970 + 400 * q) == 146097 * q
    decreases if q < 0 then -q else q
  {
    if q > 0 {
      CycleStart(q - 1);
      CycleStep(1970 + 400 * (q - 1));
    } else if q < 0 {
      CycleStart(q + 1);
      CycleStep(1970 + 400 * q);
    }
  }

  lemma CycleStep(y: int)
    ensures YearStart(y + 400) == YearStart(y) + 146097
  {
    assert (y + 399) / 4 == (y - 1) / 4 + 100;
    assert (y + 399) / 100 == (y - 1) / 100 + 4;
    assert (y + 399) / 400 == (y - 1) / 400 + 1;
  }

  // ---------------------------------------------------------------------------
  // From a day number back to the civil date

  /** The year holding the day `r` days after January 1st of `y`, and the
      day's offset in it. */
  function YearFrom(y: int, r: nat): (yo: (int, nat))
    ensures yo.1 < YearLength(yo.0)
    ensures YearStart(yo.0) + yo.1 == YearStart(y) + r
    decreases r
  {
    if r < YearLength(y) then (y, r)
    else
      NextYearStart(y);
      YearFrom(y + 1, r - YearLength(y))
  }

  /** The month of year `y` holding the day `r` days after January 1st. */
  function MonthOfOffset(y: int, r: nat): (m: int)
    requires r < YearLength(y)
    ensures 0 <= m < 12 && MonthStart(y, m) <= r < MonthStart(y, m + 1)
  {
    if r < MonthStart(y, 1) then 0
    else if r < MonthStart(y, 2) then 1
    else if r < MonthStart(y, 3) then 2
    else if r < MonthStart(y, 4) then 3
    else if r < MonthStart(y, 5) then 4
    else if r < MonthStart(y, 6) then 5
    else if r < MonthStart(y, 7) then 6
    else if r < MonthStart(y, 8) then 7
    else if r < MonthStart(y, 9) then 8
    else if r < MonthStart(y, 10) then 9
    else if r < MonthStart(y, 11) then 10
    else 11
  }

  /** Walks from the 400-year cycle holding day `n` to its year and month. */
  function CivilWalk(n: int): (c: Civil)
    ensures Valid(c)
    ensures DayNumber(c.year, c.month, c.day) == n
  {
    var q := n / 146097;
    CycleStart(q);
    var yo := YearFrom(1970 + 400 * q, n - 146097 * q);
    var m := MonthOfOffset(yo.0, yo.1);
    MonthLength(yo.0, m);
    Civil(yo.0, m, yo.1 - MonthStart(yo.0, m) + 1)
  }

  /** Every day number names a real date. */
  lemma CivilExists(n: int)
    ensures exists c :: Valid(c) && DayNumber(c.year, c.month, c.day) == n
  {
    var c := CivilWalk(n);
  }

  /** The civil date of day number `n`: `getFullYear()`, `getMonth()` and
      `getDate()`. It is the one real date that names day `n`. */
  function CivilOf(n: int): (c: Civil)
    ensures Valid(c)
    ensures DayNumber(c.year, c.month, c.day) == n
  {
    CivilExists(n);
    DayNumbersDistinct();
    var c :| Valid(c) && DayNumber(c.year, c.month, c.day) == n;
    c
  }

  // ---------------------------------------------------------------------------
  // Day numbers of real dates are distinct

  lemma {:induction false} YearStartIncreasing(a: int, b: int)
    requires a < b
    ensures YearStart(a + 1) <= YearStart(b)
    decreases b - a
  {
    if a + 1 < b {
      YearStartIncreasing(a + 1, b);
      NextYearStart(a + 1);
    }
  }

  lemma MonthStartIncreasing(y: int, a: int, b: int)
    requires 0 <= a < b <= 12
    ensures MonthStart(y, a) + DaysInMonth(y, a) <= MonthStart(y, b)
  {
    MonthLength(y, a);
  }

  /** A real date lies within its year. */
  lemma WithinYear(c: Civil)
    requires Valid(c)
    ensures YearStart(c.year) <= DayNumber(c.year, c.month, c.day) < YearStart(c.year + 1)
  {
    NextYearStart(c.year);
    WholeYear(c.year);
    if c.month < 11 {
      MonthStartIncreasing(c.year, c.month, 12);
    }
  }

  /** Two real dates with the same day number are the same date. */
  lemma DayNumberInjective(a: Civil, b: Civil)
    requires Valid(a) && Valid(b)
    requires DayNumber(a.year, a.month, a.day) == DayNumber(b.year, b.month, b.day)
    ensures a == b
  {
    WithinYear(a);
    WithinYear(b);
    if a.year < b.year {
      YearStartIncreasing(a.year, b.year);
    } else if b.year < a.year {
      YearStartIncreasing(b.year, a.year);
    }
    if a.month < b.month {
      MonthStartIncreasing(a.year, a.month, b.month);
    } else if b.month < a.month {
      MonthStartIncreasing(a.year, b.month, a.month);
    }
  }

  lemma DayNumbersDistinct()
    ensures forall a, b :: Valid(a) && Valid(b) && DayNumber(a.year, a.month, a.day) == DayNumber(b.year, b.month, b.day) ==> a == b
  {
    forall a, b | Valid(a) && Valid(b) && DayNumber(a.year, a.month, a.day) == DayNumber(b.year, b.month, b.day)
      ensures a == b
    {
      DayNumberInjective(a, b);
    }
  }

  /** Reading a real date back from its day number gives the date. */
  lemma CivilOfDayNumber(c: Civil)
    requires Valid(c)
    ensures CivilOf(DayNumber(c.year, c.month, c.day)) == c
  {
    DayNumberInjective(CivilOf(DayNumber(c.year, c.month, c.day)), c);
  }

  // ---------------------------------------------------------------------------
  // Days outside their month

  /** Day `k` of a month, for `k` up to 0, is day `k` plus the length of the
      previous month, of that month. */
  lemma PreviousMonth(y: int, m: int, k: int)
    requires 0 <= m < 12
    ensures var py := if m == 0 then y - 1 else y;
            var pm := if m == 0 then 11 else m - 1;
            DayNumber(y, m, k) == DayNumber(py, pm, k + DaysInMonth(py, pm))
  {
    if m == 0 {
      NextYearStart(y - 1);
      WholeYear(y - 1);
    }
  }

  /** Day `k` of a month, past its end, is day `k` less the month's length of
      the next month. */
  lemma NextMonth(y: int, m: int, k: int)
    requires 0 <= m < 12
    ensures var ny := if m == 11 then y + 1 else y;
            var nm := if m == 11 then 0 else m + 1;
            DayNumber(y, m, k) == DayNumber(ny, nm, k - DaysInMonth(y, m))
  {
    if m == 11 {
      NextYearStart(y);
      WholeYear(y);
    }
  }

  /** `new Date(y, m + 1, 0).getDate()` is the length of month `m`: day 0 of
      the next month is the last day of this one. */
  lemma LastDayIdiom(y: int, m: int)
    requires 0 <= m < 12
    ensures CivilOf(DateValue(y, m + 1, 0)) == Civil(y, m, DaysInMonth(y, m))
  {
    LastDayNumber(y, m);
    CivilOfDayNumber(Civil(y, m, DaysInMonth(y, m)));
  }

  lemma LastDayNumber(y: int, m: int)
    requires 0 <= m < 12
    ensures DateValue(y, m + 1, 0) == DayNumber(y, m, DaysInMonth(y, m))
  {
    if m == 11 {
      assert (m + 1) / 12 == 1 && (m + 1) % 12 == 0;
      PreviousMonth(y + 1, 0, 0);
    } else {
      assert (m + 1) / 12 == 0 && (m + 1) % 12 == m + 1;
      PreviousMonth(y, m + 1, 0);
    }
  }

  /** The epoch is a Thursday; 29 February 2024 is day 19782, a Thursday
      too. */
  lemma Anchors()
    ensures DayNumber(1970, 0, 1) == 0 && Weekday(0) == 4
    ensures DayNumber(2024, 1, 29) == 19782 && Weekday(19782) == 4
  {
  }
}
