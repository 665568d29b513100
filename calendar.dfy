/** Calendar days and the date arithmetic the payment-date calculator borrows
    from its date library: adding days (and so weeks) and adding months with
    the day clamped to the end of the target month. Years are added as twelve
    months, as the library does. A day number (days since a fixed origin)
    gives the integer day distance between two dates. */
module Calendar {
  import opened Types

  predicate IsLeapYear(y: int) {
    y % 4 == 0 && (y % 100 != 0 || y % 400 == 0)
  }

  function DaysInMonth(y: int, m: int): (n: int)
    requires 1 <= m <= 12
    ensures 28 <= n <= 31
    ensures n == 29 <==> m == 2 && IsLeapYear(y)
  {
    if m == 2 then (if IsLeapYear(y) then 29 else 28)
    else if m == 4 || m == 6 || m == 9 || m == 11 then 30
    else 31
  }

  function DaysInYear(y: int): int {
    if IsLeapYear(y) then 366 else 365
  }

  predicate ValidYmd(d: Ymd) {
    1 <= d.month <= 12 && 1 <= d.day <= DaysInMonth(d.year, d.month)
  }

  /** A real calendar day. */
  type Date = d: Ymd | ValidYmd(d) witness Ymd(1970, 1, 1)

  /** Months since the origin: the month analogue of DayNumber. */
  function MonthIndex(d: Ymd): int {
    12 * d.year + (d.month - 1)
  }

  /** A key that orders dates as (year, month, day) are ordered: a day of the
      month is below 32. */
  function SortKey(d: Date): int {
    32 * MonthIndex(d) + d.day
  }

  /** Strict chronological order. */
  predicate Before(a: Date, b: Date) {
    SortKey(a) < SortKey(b)
  }

  /** Before is the lexicographic order on (year, month, day). */
  lemma BeforeIsLexicographic(a: Date, b: Date)
    ensures Before(a, b) <==>
              a.year < b.year
              || (a.year == b.year && a.month < b.month)
              || (a.year == b.year && a.month == b.month && a.day < b.day)
    ensures SortKey(a) == SortKey(b) <==> a == b
  {
  }

  predicate After(a: Date, b: Date) {
    Before(b, a)
  }

  lemma BeforeTransitive(a: Date, b: Date, c: Date)
    requires Before(a, b) && Before(b, c)
    ensures Before(a, c)
  {
  }

  // ---------------------------------------------------------------------
  // Day numbers

  /** Days in the years before `y`, counted from a fixed origin (floor division
      keeps the count right for every integer year). */
  function DaysBeforeYear(y: int): int {
    365 * y + (y - 1) / 4 - (y - 1) / 100 + (y - 1) / 400
  }

  /** Days of year `y` before the first of month `m`. */
  function DaysBeforeMonth(y: int, m: int): int
    requires 1 <= m <= 12
  {
    (if m > 2 && IsLeapYear(y) then 1 else 0) +
    (if m == 1 then 0 else if m == 2 then 31 else if m == 3 then 59
     else if m == 4 then 90 else if m == 5 then 120 else if m == 6 then 151
     else if m == 7 then 181 else if m == 8 then 212 else if m == 9 then 243
     else if m == 10 then 273 else if m == 11 then 304 else 334)
  }

  function DayNumber(d: Date): int {
    DaysBeforeYear(d.year) + DaysBeforeMonth(d.year, d.month) + d.day - 1
  }

  lemma YearStep(y: int)
    ensures DaysBeforeYear(y + 1) == DaysBeforeYear(y) + DaysInYear(y)
  {
    var q4, r4 := (y - 1) / 4, (y - 1) % 4;
    var q100, r100 := (y - 1) / 100, (y - 1) % 100;
    var q400, r400 := (y - 1) / 400, (y - 1) % 400;
    assert y / 4 == if r4 == 3 then q4 + 1 else q4;
    assert y / 100 == if r100 == 99 then q100 + 1 else q100;
    assert y / 400 == if r400 == 399 then q400 + 1 else q400;
    assert y % 4 == 0 <==> r4 == 3;
    assert y % 100 == 0 <==> r100 == 99;
    assert y % 400 == 0 <==> r400 == 399;
  }

  lemma {:induction false} DaysBeforeYearMonotone(y1: int, y2: int)
    requires y1 <= y2
    ensures DaysBeforeYear(y1) + 365 * (y2 - y1) <= DaysBeforeYear(y2)
    decreases y2 - y1
  {
    if y1 < y2 {
      DaysBeforeYearMonotone(y1, y2 - 1);
      YearStep(y2 - 1);
    }
  }

  lemma MonthStep(y: int, m: int)
    requires 1 <= m <= 12
    ensures m < 12 ==> DaysBeforeMonth(y, m + 1) == DaysBeforeMonth(y, m) + DaysInMonth(y, m)
    ensures m == 12 ==> DaysBeforeMonth(y, m) + DaysInMonth(y, m) == DaysInYear(y)
  {
  }

  lemma {:induction false} DaysBeforeMonthMonotone(y: int, m1: int, m2: int)
    requires 1 <= m1 < m2 <= 12
    ensures DaysBeforeMonth(y, m1) + DaysInMonth(y, m1) <= DaysBeforeMonth(y, m2)
    decreases m2 - m1
  {
    MonthStep(y, m1);
    if m1 + 1 < m2 {
      DaysBeforeMonthMonotone(y, m1 + 1, m2);
    }
  }

  /** The day number follows chronological order exactly. */
  lemma DayNumberMonotone(a: Date, b: Date)
    ensures Before(a, b) <==> DayNumber(a) < DayNumber(b)
    ensures a == b <==> DayNumber(a) == DayNumber(b)
  {
    BeforeIsLexicographic(a, b);
    if Before(a, b) {
      DayNumberStrict(a, b);
    } else if Before(b, a) {
      DayNumberStrict(b, a);
    }
  }

  lemma DayNumberStrict(a: Date, b: Date)
    requires Before(a, b)
    ensures DayNumber(a) < DayNumber(b)
  {
    BeforeIsLexicographic(a, b);
    if a.year < b.year {
      DayNumberWithinYear(a);
      DayNumberWithinYear(b);
      DaysBeforeYearMonotone(a.year + 1, b.year);
    } else if a.month < b.month {
      DaysBeforeMonthMonotone(a.year, a.month, b.month);
    }
  }

  /** A day's number lies within the numbers of its year. */
  lemma DayNumberWithinYear(d: Date)
    ensures DaysBeforeYear(d.year) <= DayNumber(d) < DaysBeforeYear(d.year + 1)
  {
    MonthStep(d.year, 12);
    if d.month < 12 {
      DaysBeforeMonthMonotone(d.year, d.month, 12);
    }
    YearStep(d.year);
  }

  // ---------------------------------------------------------------------
  // Adding days

  /** `d` moved `n <= 28` days forward: at most one month boundary is crossed. */
  function AddFewDays(d: Date, n: nat): (r: Date)
    requires n <= 28
    ensures n >= 1 ==> Before(d, r)
  {
    var last := DaysInMonth(d.year, d.month);
    if d.day + n <= last then
      Ymd(d.year, d.month, d.day + n)
    else if d.month < 12 then
      Ymd(d.year, d.month + 1, d.day + n - last)
    else
      Ymd(d.year + 1, 1, d.day + n - last)
  }

  lemma AddFewDaysCount(d: Date, n: nat)
    requires n <= 28
    ensures DayNumber(AddFewDays(d, n)) == DayNumber(d) + n
  {
    MonthStep(d.year, d.month);
    YearStep(d.year);
  }

  /** `d` moved `n` calendar days forward, four weeks at a time. */
  function AddDays(d: Date, n: nat): Date
    decreases n
  {
    if n <= 28 then AddFewDays(d, n) else AddDays(AddFewDays(d, 28), n - 28)
  }

  /** Adding `n` days moves the day number by exactly `n`. */
  lemma {:induction false} AddDaysCount(d: Date, n: nat)
    ensures DayNumber(AddDays(d, n)) == DayNumber(d) + n
    decreases n
  {
    if n <= 28 {
      AddFewDaysCount(d, n);
    } else {
      var e := AddFewDays(d, 28);
      assert AddDays(d, n) == AddDays(e, n - 28);
      AddFewDaysCount(d, 28);
      AddDaysCount(e, n - 28);
    }
  }

  // ---------------------------------------------------------------------
  // Adding months

  /** `d` moved `n` months forward; a day that does not exist in the target
      month becomes that month's last day (January 31 plus one month is the
      last day of February). */
  function AddMonths(d: Date, n: nat): (r: Date)
    ensures MonthIndex(r) == MonthIndex(d) + n
    ensures r.day <= d.day
    ensures r.day == d.day || r.day == DaysInMonth(r.year, r.month)
    ensures d.day <= DaysInMonth(r.year, r.month) ==> r.day == d.day
  {
    var t := MonthIndex(d) + n;
    var y, m := t / 12, t % 12 + 1;
    var last := DaysInMonth(y, m);
    Ymd(y, m, if d.day <= last then d.day else last)
  }

  lemma AddMonthsAdvances(d: Date, n: nat)
    requires n >= 1
    ensures Before(d, AddMonths(d, n))
  {
  }
}
