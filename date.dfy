/** The next-payment-date calculator of lib/utils/date.ts: the billing-period
    interval, the rollover loop that advances the anchor date past today, and
    the "payment is near" test. Today is a parameter (the source reads the
    clock and truncates it to midnight). */
module PaymentDates {
  import opened Types
  import opened Calendar

  /** A date-library duration with one non-zero unit. */
  datatype Duration = Weeks(weeks: nat) | Months(months: nat) | Years(years: nat)

  /** The calendar interval of a billing period; a lifetime purchase has none. */
  function PeriodToDuration(p: Period): (r: Option<Duration>)
    ensures r.None? <==> p == Lifetime
  {
    match p
    case Weekly => Some(Weeks(1))
    case Monthly => Some(Months(1))
    case ThreeMonths => Some(Months(3))
    case SixMonths => Some(Months(6))
    case Yearly => Some(Years(1))
    case Lifetime => None
  }

  /** The date library's `add`: months and years first (a year is twelve
      months), then weeks as seven days each (AddDaysCount counts the days).
      Weeks move forward; months and years move whole calendar months, a year
      keeping the month, and the day of the month is kept unless the target
      month is shorter, when it becomes that month's last day. */
  function AddDuration(d: Date, dur: Duration): (r: Date)
    ensures dur.Weeks? && dur.weeks >= 1 ==> Before(d, r)
    ensures dur.Months? ==> MonthIndex(r) == MonthIndex(d) + dur.months
    ensures dur.Years? ==> r.year == d.year + dur.years && r.month == d.month
    ensures !dur.Weeks? ==>
              r.day == (if d.day <= DaysInMonth(r.year, r.month) then d.day else DaysInMonth(r.year, r.month))
  {
    match dur
    case Weeks(w) =>
      AddDaysCount(d, 7 * w);
      DayNumberMonotone(d, AddDays(d, 7 * w));
      AddDays(d, 7 * w)
    case Months(m) => AddMonths(d, m)
    case Years(y) => AddMonths(d, 12 * y)
  }

  /** Months in one interval of a month-based period. */
  function MonthsPerInterval(p: Period): nat {
    match p
    case Monthly => 1
    case ThreeMonths => 3
    case SixMonths => 6
    case Yearly => 12
    case _ => 0
  }

  /** One billing interval added to `d`; every step moves strictly forward. */
  function Step(d: Date, p: Period): (r: Date)
    requires p != Lifetime
    ensures Before(d, r)
  {
    if p == Weekly then AddFewDays(d, 7) else AddMonths(d, MonthsPerInterval(p))
  }

  /** What one interval is on the calendar: a weekly period moves exactly seven
      days; the others move whole calendar months (1, 3, 6 or 12), keeping the
      day of the month unless the target month is shorter, in which case the
      result is that month's last day. */
  lemma StepOnCalendar(d: Date, p: Period)
    requires p != Lifetime
    ensures p == Weekly ==> DayNumber(Step(d, p)) == DayNumber(d) + 7
    ensures p != Weekly ==> MonthIndex(Step(d, p)) == MonthIndex(d) + MonthsPerInterval(p)
    ensures p != Weekly ==>
              var r := Step(d, p);
              r.day == (if d.day <= DaysInMonth(r.year, r.month) then d.day else DaysInMonth(r.year, r.month))
  {
    if p == Weekly {
      AddFewDaysCount(d, 7);
    }
  }

  /** Step is the date library's `add` of the period's duration. */
  lemma StepIsAdd(d: Date, p: Period)
    requires p != Lifetime
    ensures AddDuration(d, PeriodToDuration(p).value) == Step(d, p)
  {
    if p == Weekly {
      assert AddDays(d, 7) == AddFewDays(d, 7);
    }
  }

  /** The interval applied `k` times in succession, each time to the previous
      result (not `k` intervals added to `start` at once). */
  function Iterate(start: Date, p: Period, k: nat): Date
    requires p != Lifetime
  {
    if k == 0 then start
    else
      Step(Iterate(start, p, k - 1), p)
  }

  /** `k` steps of a month-based period move exactly `k` intervals of
      calendar months: only the day of the month can drift. */
  lemma {:induction false} IterateMonths(start: Date, p: Period, k: nat)
    requires p != Lifetime && p != Weekly
    ensures MonthIndex(Iterate(start, p, k)) == MonthIndex(start) + k * MonthsPerInterval(p)
    decreases k
  {
    if k > 0 {
      IterateMonths(start, p, k - 1);
      OneMoreInterval(k, MonthsPerInterval(p));
    }
  }

  lemma OneMoreInterval(k: int, m: int)
    ensures (k - 1) * m + m == k * m
  {
  }

  /** getNextPaymentDate. A lifetime period has no next date; a start after
      today is itself the next date; otherwise the start is advanced one
      interval at a time until it is strictly after today, so a start equal to
      today still advances once. `k` is the number of steps taken. */
  method NextPaymentDate(start: Date, p: Period, today: Date) returns (r: Option<Date>, ghost k: nat)
    ensures p == Lifetime <==> r.None?
    ensures p != Lifetime && After(start, today) ==> r == Some(start) && k == 0
    ensures p != Lifetime && !After(start, today) ==>
              k >= 1 && r == Some(Iterate(start, p, k))
              && !After(Iterate(start, p, k - 1), today)
    ensures r.Some? ==> After(r.value, today) && !Before(r.value, start)
  {
    k := 0;
    if p == Lifetime {
      return None, k;
    }
    if After(start, today) {
      return Some(start), k;
    }
    // The source also returns null when the period has no duration; after the
    // lifetime test above that cannot happen.
    var duration := PeriodToDuration(p).value;
    var next := start;
    while !After(next, today)
      invariant next == Iterate(start, p, k)
      invariant k >= 1 ==> !After(Iterate(start, p, k - 1), today)
      invariant !Before(next, start)
      decreases MonthIndex(today) - MonthIndex(next), 31 - next.day
    {
      var after := AddDuration(next, duration);
      StepIsAdd(next, p);
      if Before(start, next) {
        BeforeTransitive(start, next, after);
      }
      next, k := after, k + 1;
    }
    r := Some(next);
  }

  lemma IterateSteps(start: Date, p: Period)
    requires p != Lifetime
    ensures forall n: nat :: Before(Iterate(start, p, n), Iterate(start, p, n + 1))
  {
    forall n: nat ensures Before(Iterate(start, p, n), Iterate(start, p, n + 1)) {
      assert Iterate(start, p, n + 1) == Step(Iterate(start, p, n), p);
    }
  }

  /** Any strictly increasing series of dates crosses `today` at one index only. */
  lemma {:induction false} IncreasingSeries(f: nat -> Date, i: nat, j: nat)
    requires forall n: nat :: Before(f(n), f(n + 1))
    requires i < j
    ensures Before(f(i), f(j))
    decreases j
  {
    if i < j - 1 {
      IncreasingSeries(f, i, j - 1);
      BeforeTransitive(f(i), f(j - 1), f(j));
    }
  }

  lemma CrossingUnique(f: nat -> Date, today: Date, k1: nat, k2: nat)
    requires forall n: nat :: Before(f(n), f(n + 1))
    requires k1 >= 1 && !After(f(k1 - 1), today) && After(f(k1), today)
    requires k2 >= 1 && !After(f(k2 - 1), today) && After(f(k2), today)
    ensures k1 == k2
  {
    if k1 < k2 - 1 {
      IncreasingSeries(f, k1, k2 - 1);
      BeforeTransitive(today, f(k1), f(k2 - 1));
    } else if k2 < k1 - 1 {
      IncreasingSeries(f, k2, k1 - 1);
      BeforeTransitive(today, f(k2), f(k1 - 1));
    }
  }

  /** The number of steps the rollover takes is determined by the inputs:
      only one count brings the date from "at most today" to "after today". */
  lemma RolloverCountUnique(start: Date, p: Period, today: Date, k1: nat, k2: nat)
    requires p != Lifetime && k1 >= 1 && k2 >= 1
    requires !After(Iterate(start, p, k1 - 1), today) && After(Iterate(start, p, k1), today)
    requires !After(Iterate(start, p, k2 - 1), today) && After(Iterate(start, p, k2), today)
    ensures k1 == k2
  {
    var f := (n: nat) => Iterate(start, p, n);
    IterateSteps(start, p);
    CrossingUnique(f, today, k1, k2);
  }

  /** A monthly subscription anchored on January 31, 2024 and looked at on
      February 15, 2024 is next due on February 29, 2024: the day is clamped
      to the end of February rather than skipping to March. */
  lemma MonthEndRollsToLeapDay(k: nat)
    requires k >= 1
    requires !After(Iterate(Ymd(2024, 1, 31), Monthly, k - 1), Ymd(2024, 2, 15))
    requires After(Iterate(Ymd(2024, 1, 31), Monthly, k), Ymd(2024, 2, 15))
    ensures Iterate(Ymd(2024, 1, 31), Monthly, k) == Ymd(2024, 2, 29)
  {
    JanuaryEndStep();
    RolloverCountUnique(Ymd(2024, 1, 31), Monthly, Ymd(2024, 2, 15), k, 1);
  }

  lemma JanuaryEndStep()
    ensures Iterate(Ymd(2024, 1, 31), Monthly, 1) == Ymd(2024, 2, 29)
  {
    assert Iterate(Ymd(2024, 1, 31), Monthly, 1) == AddMonths(Ymd(2024, 1, 31), 1);
    assert MonthIndex(Ymd(2024, 1, 31)) + 1 == 24289;
  }

  /** Because each step starts from the previous, clamped, result, the
      rollover drifts away from "start plus N intervals": two monthly steps
      from January 31, 2024 reach March 29, while two months added to the
      anchor at once give March 31. */
  lemma RolloverDriftsFromAnchor()
    ensures Iterate(Ymd(2024, 1, 31), Monthly, 2) == Ymd(2024, 3, 29)
    ensures AddMonths(Ymd(2024, 1, 31), 2) == Ymd(2024, 3, 31)
  {
    JanuaryEndStep();
  }

  lemma AddDaysAll(d: Date)
    ensures forall n: nat {:trigger AddDays(d, n)} :: DayNumber(AddDays(d, n)) == DayNumber(d) + n
  {
    forall n: nat ensures DayNumber(AddDays(d, n)) == DayNumber(d) + n {
      AddDaysCount(d, n);
    }
  }

  /** isPaymentDateNear: no date is never near; a date is near when it lies
      between 0 and `threshold` whole days from today, so a past date is never
      near and a date `n` days ahead is near exactly when `n <= threshold`. */
  function IsPaymentDateNear(payment: Option<Date>, today: Date, threshold: int): (r: bool)
    ensures payment.None? ==> !r
    ensures payment.Some? && Before(payment.value, today) ==> !r
    ensures forall n: nat {:trigger AddDays(today, n)} ::
              payment == Some(AddDays(today, n)) ==> (r <==> n <= threshold)
  {
    match payment
    case None => false
    case Some(p) =>
      DayNumberMonotone(p, today);
      AddDaysAll(today);
      var diffDays := DayNumber(p) - DayNumber(today);
      0 <= diffDays <= threshold
  }
}
