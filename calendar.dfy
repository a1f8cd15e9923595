/** Proleptic Gregorian civil dates, the way the timesheet uses JavaScript's `Date`.
    Months are 0-based (January = 0) as with `getMonth()`; weekdays follow `getDay()`
    (0 = Sunday .. 6 = Saturday). Timezones are not modelled: local time is UTC. */
module Calendar {

  datatype Date = Date(year: int, month0: int, day: int)

  /** The Gregorian leap-year rule. */
  predicate IsLeapYear(y: int) {
    y % 4 == 0 && (y % 100 != 0 || y % 400 == 0)
  }

  /** Length of month `m0` (0-based) of year `y`. */
  function MonthLength(y: int, m0: int): (r: int)
    requires 0 <= m0 < 12
    ensures 28 <= r <= 31
    ensures m0 == 1 ==> (r == 29 <==> IsLeapYear(y))
  {
    if m0 == 1 then (if IsLeapYear(y) then 29 else 28)
    else if m0 == 3 || m0 == 5 || m0 == 8 || m0 == 10 then 30
    else 31
  }

  /** A date that exists in the calendar. */
  predicate Valid(d: Date) {
    0 <= d.month0 < 12 && 1 <= d.day <= MonthLength(d.year, d.month0)
  }

  /** Days from 1970-01-01 to 1 March of year `y` (in the proleptic Gregorian calendar). */
  function MarchFirst(y: int): int {
    365 * y + y / 4 - y / 100 + y / 400 - 719468
  }

  /** Days from 1 March to the first of the month `mp` months later (0 <= mp < 12). */
  function MarchOffset(mp: int): int {
    (153 * mp + 2) / 5
  }

  /** Days since 1970-01-01 (negative before it), counting in years that start in March. */
  function DayNumber(d: Date): int
    requires 0 <= d.month0 < 12
  {
    var y := if d.month0 < 2 then d.year - 1 else d.year;
    var mp := (d.month0 + 10) % 12;  // months since March
    MarchFirst(y) + MarchOffset(mp) + d.day - 1
  }

  /** Day of the week as `getDay()` reports it: 1970-01-01 was a Thursday (4). */
  function Weekday(d: Date): (r: int)
    requires 0 <= d.month0 < 12
    ensures 0 <= r < 7
  {
    (DayNumber(d) + 4) % 7
  }

  function NextDay(d: Date): Date
    requires Valid(d)
  {
    if d.day < MonthLength(d.year, d.month0) then d.(day := d.day + 1)
    else if d.month0 < 11 then Date(d.year, d.month0 + 1, 1)
    else Date(d.year + 1, 0, 1)
  }

  function PrevDay(d: Date): Date
    requires Valid(d)
  {
    if d.day > 1 then d.(day := d.day - 1)
    else if d.month0 > 0 then Date(d.year, d.month0 - 1, MonthLength(d.year, d.month0 - 1))
    else Date(d.year - 1, 11, 31)
  }

  /** A March-based year has 366 days exactly when the February it ends with has 29. */
  lemma MarchFirstStep(y: int)
    ensures MarchFirst(y) - MarchFirst(y - 1) == if IsLeapYear(y) then 366 else 365
  {
    QuarterStep(y);
    CenturyStep(y);
    QuadCenturyStep(y);
    if y % 100 == 0 {
      assert y == 100 * (y / 100);
      assert y == 4 * (25 * (y / 100));
    }
    if y % 400 == 0 {
      assert y == 400 * (y / 400);
      assert y == 100 * (4 * (y / 400));
    }
  }

  lemma QuarterStep(y: int)
    ensures y / 4 - (y - 1) / 4 == if y % 4 == 0 then 1 else 0
  {
  }

  lemma CenturyStep(y: int)
    ensures y / 100 - (y - 1) / 100 == if y % 100 == 0 then 1 else 0
  {
  }

  lemma QuadCenturyStep(y: int)
    ensures y / 400 - (y - 1) / 400 == if y % 400 == 0 then 1 else 0
  {
  }

  /** The closed-form day count agrees with stepping through the month-length table. */
  lemma NextDayNumber(d: Date)
    requires Valid(d)
    ensures Valid(NextDay(d)) && DayNumber(NextDay(d)) == DayNumber(d) + 1
  {
    if d.day == MonthLength(d.year, d.month0) {
      if d.month0 < 11 {
        MonthEndStep(d.year, d.month0);
      }
    }
  }

  /** The first of month `m + 1` follows the last day of month `m`. */
  lemma MonthEndStep(y: int, m: int)
    requires 0 <= m < 11
    ensures DayNumber(Date(y, m + 1, 1)) == DayNumber(Date(y, m, MonthLength(y, m))) + 1
  {
    MarchOffsets();
    if m == 1 {
      MarchFirstStep(y);
    }
  }

  /** The first of each month, counted in days from 1 March. */
  lemma MarchOffsets()
    ensures MarchOffset(0) == 0 && MarchOffset(1) == 31 && MarchOffset(2) == 61
    ensures MarchOffset(3) == 92 && MarchOffset(4) == 122 && MarchOffset(5) == 153
    ensures MarchOffset(6) == 184 && MarchOffset(7) == 214 && MarchOffset(8) == 245
    ensures MarchOffset(9) == 275 && MarchOffset(10) == 306 && MarchOffset(11) == 337
  {
  }

  lemma PrevNext(d: Date)
    requires Valid(d)
    ensures Valid(NextDay(d)) && PrevDay(NextDay(d)) == d
  {
  }

  lemma NextPrev(d: Date)
    requires Valid(d)
    ensures Valid(PrevDay(d)) && NextDay(PrevDay(d)) == d
  {
  }

  lemma PrevDayNumber(d: Date)
    requires Valid(d)
    ensures Valid(PrevDay(d)) && DayNumber(PrevDay(d)) == DayNumber(d) - 1
  {
    NextPrev(d);
    NextDayNumber(PrevDay(d));
  }

  /** `n` calendar days after `d` (before it when `n` is negative), one day at a time. */
  function Shift(d: Date, n: int): (r: Date)
    requires Valid(d)
    ensures Valid(r)
    decreases if n < 0 then -n else n
  {
    if n == 0 then d
    else if n > 0 then (PrevNext(d); Shift(NextDay(d), n - 1))
    else (NextPrev(d); Shift(PrevDay(d), n + 1))
  }

  /** Stepping `n` days moves the closed-form day count by exactly `n`. */
  lemma {:induction false} ShiftDayNumber(d: Date, n: int)
    requires Valid(d)
    ensures DayNumber(Shift(d, n)) == DayNumber(d) + n
    decreases if n < 0 then -n else n
  {
    if n > 0 {
      NextDayNumber(d);
      ShiftDayNumber(NextDay(d), n - 1);
    } else if n < 0 {
      PrevDayNumber(d);
      ShiftDayNumber(PrevDay(d), n + 1);
    }
  }

  lemma {:induction false} ShiftFromNext(d: Date, n: int)
    requires Valid(d)
    ensures Valid(NextDay(d)) && Shift(NextDay(d), n - 1) == Shift(d, n)
  {
    PrevNext(d);
  }

  lemma {:induction false} ShiftFromPrev(d: Date, n: int)
    requires Valid(d)
    ensures Valid(PrevDay(d)) && Shift(PrevDay(d), n + 1) == Shift(d, n)
  {
    NextPrev(d);
  }

  /** Shifting by `a` and then by `b` is shifting by `a + b`. */
  lemma {:induction false} ShiftAdd(d: Date, a: int, b: int)
    requires Valid(d)
    ensures Shift(Shift(d, a), b) == Shift(d, a + b)
    decreases if a < 0 then -a else a
  {
    if a > 0 {
      ShiftAdd(NextDay(d), a - 1, b);
      ShiftFromNext(d, a + b);
    } else if a < 0 {
      ShiftAdd(PrevDay(d), a + 1, b);
      ShiftFromPrev(d, a + b);
    }
  }

  /** Within one month, shifting forward only moves the day of the month. */
  lemma {:induction false} ShiftWithinMonth(d: Date, k: nat)
    requires Valid(d) && d.day + k <= MonthLength(d.year, d.month0)
    ensures Shift(d, k) == d.(day := d.day + k)
    decreases k
  {
    if k > 0 {
      ShiftWithinMonth(NextDay(d), k - 1);
    }
  }

  /** Within one month, shifting backward only moves the day of the month. */
  lemma {:induction false} ShiftBackWithinMonth(d: Date, k: nat)
    requires Valid(d) && d.day - k >= 1
    ensures Shift(d, -(k as int)) == d.(day := d.day - k)
    decreases k
  {
    if k > 0 {
      ShiftBackWithinMonth(PrevDay(d), k - 1);
    }
  }

  /** Shifting past the end of the month continues from the first of the next month. */
  lemma ShiftPastMonthEnd(d: Date, n: int)
    requires Valid(d) && d.day + n > MonthLength(d.year, d.month0)
    ensures var first := if d.month0 < 11 then Date(d.year, d.month0 + 1, 1) else Date(d.year + 1, 0, 1);
            Valid(first) &&
            Shift(d, n) == Shift(first, n - (MonthLength(d.year, d.month0) - d.day) - 1)
  {
    var len := MonthLength(d.year, d.month0);
    var last := d.(day := len);
    ShiftWithinMonth(d, len - d.day);
    ShiftAdd(d, len - d.day, n - (len - d.day));
    ShiftFromNext(last, n - (len - d.day));
  }

  /** The weekday advances by one for every day shifted. */
  lemma ShiftWeekday(d: Date, n: int)
    requires Valid(d)
    ensures Weekday(Shift(d, n)) == (Weekday(d) + n) % 7
  {
    ShiftDayNumber(d, n);
    ModSevenAdd(DayNumber(d) + 4, n);
  }

  lemma ModSevenAdd(x: int, n: int)
    ensures (x + n) % 7 == (x % 7 + n) % 7
  {
    assert x == 7 * (x / 7) + x % 7;
    assert x + n == 7 * (x / 7) + (x % 7 + n);
  }

  /** The two-digit-year rule of the `Date` constructor: years 0..99 mean 1900..1999. */
  function FullYear(y: int): int {
    if 0 <= y <= 99 then 1900 + y else y
  }

  /** ECMAScript's MakeDay: the month is normalised into the year by floor division by 12,
      and then day `dt` of that month is reached by counting from its first day, so that day 0
      is the last day of the previous month and day 32 spills into the next one. */
  function MakeDay(y: int, m: int, dt: int): (r: Date)
    ensures Valid(r)
  {
    Shift(Date(y + m / 12, m % 12, 1), dt - 1)
  }

  /** Day `dt` of the normalised month lies `dt - 1` days after its first day. */
  lemma MakeDayNumber(y: int, m: int, dt: int)
    ensures DayNumber(MakeDay(y, m, dt)) == DayNumber(Date(y + m / 12, m % 12, 1)) + dt - 1
  {
    ShiftDayNumber(Date(y + m / 12, m % 12, 1), dt - 1);
  }

  /** A valid date is its own normal form. */
  lemma MakeDayOfValid(d: Date)
    requires Valid(d)
    ensures MakeDay(d.year, d.month0, d.day) == d
  {
    ShiftWithinMonth(Date(d.year, d.month0, 1), d.day - 1);
  }

  /** `new Date(y, m, dt)`. */
  function NewDate(y: int, m: int, dt: int): (r: Date)
    ensures Valid(r)
  {
    MakeDay(FullYear(y), m, dt)
  }

  /** Outside the two-digit years the constructor returns an existing date unchanged. */
  lemma NewDateOfValid(d: Date)
    requires Valid(d) && !(0 <= d.year <= 99)
    ensures NewDate(d.year, d.month0, d.day) == d
  {
    MakeDayOfValid(d);
  }

  /** `addDays(d, days)`: a copy of `d` whose day of the month is set to `getDate() + days`,
      which is `d` moved by `days` calendar days. */
  function AddDays(d: Date, days: int): (r: Date)
    requires Valid(d)
    ensures Valid(r) && r == Shift(d, days)
  {
    var first := Date(d.year, d.month0, 1);
    ShiftWithinMonth(first, d.day - 1);
    ShiftAdd(first, d.day - 1, days);
    MakeDay(d.year, d.month0, d.day + days)
  }

  /** `addDays` moves the day count by `days`. */
  lemma AddDaysNumber(d: Date, days: int)
    requires Valid(d)
    ensures DayNumber(AddDays(d, days)) == DayNumber(d) + days
  {
    ShiftDayNumber(d, days);
  }

  /** `addDays` moves the weekday by `days`, modulo seven. */
  lemma AddDaysWeekday(d: Date, days: int)
    requires Valid(d)
    ensures Weekday(AddDays(d, days)) == (Weekday(d) + days) % 7
  {
    ShiftWeekday(d, days);
  }

  /** `getDaysInMonth(y, m)`: the day of `new Date(y, m + 1, 0)`, the last day of month `m`
      once `m` is normalised into the year. */
  function DaysInMonth(y: int, m: int): (r: int)
    ensures 28 <= r <= 31
    ensures r == MonthLength(FullYear(y) + m / 12, m % 12)
  {
    var next := Date(FullYear(y) + (m + 1) / 12, (m + 1) % 12, 1);
    ShiftFromPrev(next, -1);
    assert NewDate(y, m + 1, 0) == PrevDay(next);
    assert if (m + 1) % 12 == 0 then m % 12 == 11 && m / 12 == (m + 1) / 12 - 1
           else m % 12 == (m + 1) % 12 - 1 && m / 12 == (m + 1) / 12;
    NewDate(y, m + 1, 0).day
  }
  /** For a month index in range (and a year the constructor does not remap),
      the number of days is the table's; February has 29 exactly in leap years. */
  lemma DaysInMonthOfYear(y: int, m: int)
    requires 0 <= m < 12 && !(0 <= y <= 99)
    ensures DaysInMonth(y, m) == MonthLength(y, m)
    ensures m == 1 ==> (DaysInMonth(y, m) == 29 <==> IsLeapYear(y))
  {
  }
}
