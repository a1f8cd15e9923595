/** `getHolidaysForYear`: the public holidays of a year as `YYYY-MM-DD` strings, thirteen on fixed
    dates followed by three that move with Easter (Good Friday, Easter Monday and the Monday
    fifty days after Easter). `isHoliday(d)` is membership in this list. */
module Holidays {
  import opened Calendar
  import opened Easter
  import opened DateText

  /** The `fixed` list of `getHolidaysForYear`, built on the year's text `ys`. */
  function FixedHolidays(ys: string): (r: seq<string>)
    ensures |r| == 13
  {
    [ys + "-01-01", ys + "-01-06", ys + "-05-01", ys + "-06-24",
     ys + "-08-15", ys + "-09-11", ys + "-09-24", ys + "-10-12",
     ys + "-11-01", ys + "-12-06", ys + "-12-08", ys + "-12-25", ys + "-12-26"]
  }

  /** The three holidays that move with Easter: two days before it, one and fifty days after. */
  function MovableDates(easter: Date): (r: seq<Date>)
    requires Valid(easter)
    ensures |r| == 3
  {
    [AddDays(easter, -2), AddDays(easter, 1), AddDays(easter, 50)]
  }

  /** The formatted `addDays(easter, -2)`, `addDays(easter, 1)` and `addDays(easter, 50)`. */
  function MovableHolidays(easter: Date): (r: seq<string>)
    requires Valid(easter)
    ensures |r| == 3
  {
    var ds := MovableDates(easter);
    [FormatDateObj(ds[0]), FormatDateObj(ds[1]), FormatDateObj(ds[2])]
  }

  /** `getHolidaysForYear(year)`: the fixed list followed by the three movable days. */
  function HolidaysForYear(year: int): (r: seq<string>)
    ensures |r| == 16
  {
    FixedHolidays(IntText(year)) + MovableHolidays(EasterDate(year))
  }

  /** `isHoliday(d)`. */
  predicate IsHoliday(year: int, dateStr: string) {
    dateStr in HolidaysForYear(year)
  }

  /** The days of the fixed holidays, in the order of the list. */
  function FixedDates(year: int): (r: seq<Date>)
    ensures |r| == 13
  {
    [Date(year, 0, 1), Date(year, 0, 6), Date(year, 4, 1), Date(year, 5, 24),
     Date(year, 7, 15), Date(year, 8, 11), Date(year, 8, 24), Date(year, 9, 12),
     Date(year, 10, 1), Date(year, 11, 6), Date(year, 11, 8), Date(year, 11, 25), Date(year, 11, 26)]
  }

  /** The dates behind the sixteen strings, in the order of the list. */
  function HolidayDates(year: int): (r: seq<Date>)
    ensures |r| == 16
  {
    FixedDates(year) + MovableDates(EasterDate(year))
  }

  /** A number that orders the days of one year; distinct days have distinct keys. */
  function DayKey(d: Date): int {
    100 * d.month0 + d.day
  }

  /** Each string of `hs` is the text of the date at the same place in `ds`. */
  predicate Formats(hs: seq<string>, ds: seq<Date>) {
    |hs| == |ds| && forall i :: 0 <= i < |hs| ==> 0 <= ds[i].month0 < 12 && hs[i] == FormatDateObj(ds[i])
  }

  /** Every date of `ds` exists and lies in `year`. */
  predicate DaysOf(ds: seq<Date>, year: int) {
    forall i :: 0 <= i < |ds| ==> Valid(ds[i]) && ds[i].year == year
  }

  /** No element of `s` occurs twice. */
  predicate Distinct<T(==)>(s: seq<T>) {
    forall i, j :: 0 <= i < j < |s| ==> s[i] != s[j]
  }

  lemma {:induction false} FormatsConcat(h1: seq<string>, d1: seq<Date>, h2: seq<string>, d2: seq<Date>)
    requires Formats(h1, d1) && Formats(h2, d2)
    ensures Formats(h1 + h2, d1 + d2)
  {
    forall i | 0 <= i < |h1 + h2|
      ensures 0 <= (d1 + d2)[i].month0 < 12 && (h1 + h2)[i] == FormatDateObj((d1 + d2)[i])
    {
      if i < |h1| {
        assert (h1 + h2)[i] == h1[i] && (d1 + d2)[i] == d1[i];
      } else {
        assert (h1 + h2)[i] == h2[i - |h1|] && (d1 + d2)[i] == d2[i - |d1|];
      }
    }
  }

  lemma {:induction false} DaysOfConcat(d1: seq<Date>, d2: seq<Date>, year: int)
    requires DaysOf(d1, year) && DaysOf(d2, year)
    ensures DaysOf(d1 + d2, year)
  {
    forall i | 0 <= i < |d1 + d2|
      ensures Valid((d1 + d2)[i]) && (d1 + d2)[i].year == year
    {
      if i < |d1| {
        assert (d1 + d2)[i] == d1[i];
      } else {
        assert (d1 + d2)[i] == d2[i - |d1|];
      }
    }
  }

  /** Two lists without repeats and without common elements join into one without repeats. */
  lemma {:induction false} DistinctConcat<T>(a: seq<T>, b: seq<T>)
    requires Distinct(a) && Distinct(b)
    requires forall i, j :: 0 <= i < |a| && 0 <= j < |b| ==> a[i] != b[j]
    ensures Distinct(a + b)
  {
    forall i, j | 0 <= i < j < |a + b|
      ensures (a + b)[i] != (a + b)[j]
    {
      if j < |a| {
        assert (a + b)[i] == a[i] && (a + b)[j] == a[j];
      } else if i < |a| {
        assert (a + b)[i] == a[i] && (a + b)[j] == b[j - |a|];
      } else {
        assert (a + b)[i] == b[i - |a|] && (a + b)[j] == b[j - |a|];
      }
    }
  }

  /** Distinct days of one year have distinct texts. */
  lemma {:induction false} DistinctTexts(hs: seq<string>, ds: seq<Date>, year: int)
    requires Formats(hs, ds) && DaysOf(ds, year) && Distinct(ds)
    ensures Distinct(hs)
  {
    forall i, j | 0 <= i < j < |hs|
      ensures hs[i] != hs[j]
    {
      FormatDateIff(year, ds[i].month0, ds[i].day, ds[j].month0, ds[j].day);
    }
  }

  /** The text `-MM-DD` digit by digit. */
  lemma {:induction false} MonthDayDigits(m: int, d: int)
    requires 0 <= m < 12 && 1 <= d <= 31
    ensures MonthDayText(m, d) ==
            ['-', DigitChar((m + 1) / 10), DigitChar((m + 1) % 10), '-', DigitChar(d / 10), DigitChar(d % 10)]
  {
    TwoDigitText(m + 1);
    TwoDigitText(d);
  }

  lemma {:induction false} TwoDigitText(n: int)
    requires 1 <= n <= 99
    ensures PadTwo(IntText(n)) == [DigitChar(n / 10), DigitChar(n % 10)]
  {
    if n >= 10 {
      assert NatText(n) == NatText(n / 10) + [DigitChar(n % 10)];
    }
  }

  lemma DigitChars()
    ensures DigitChar(0) == '0' && DigitChar(1) == '1' && DigitChar(2) == '2' && DigitChar(3) == '3'
    ensures DigitChar(4) == '4' && DigitChar(5) == '5' && DigitChar(6) == '6'
    ensures DigitChar(8) == '8' && DigitChar(9) == '9'
  {
  }

  lemma {:induction false} WinterSpringTexts()
    ensures MonthDayText(0, 1) == "-01-01" && MonthDayText(0, 6) == "-01-06"
    ensures MonthDayText(4, 1) == "-05-01" && MonthDayText(5, 24) == "-06-24"
  {
    DigitChars();
    MonthDayDigits(0, 1);
    MonthDayDigits(0, 6);
    MonthDayDigits(4, 1);
    MonthDayDigits(5, 24);
  }

  lemma {:induction false} SummerAutumnTexts()
    ensures MonthDayText(7, 15) == "-08-15" && MonthDayText(8, 11) == "-09-11"
    ensures MonthDayText(8, 24) == "-09-24" && MonthDayText(9, 12) == "-10-12"
    ensures MonthDayText(10, 1) == "-11-01"
  {
    DigitChars();
    MonthDayDigits(7, 15);
    MonthDayDigits(8, 11);
    MonthDayDigits(8, 24);
    MonthDayDigits(9, 12);
    MonthDayDigits(10, 1);
  }

  lemma {:induction false} DecemberTexts()
    ensures MonthDayText(11, 6) == "-12-06" && MonthDayText(11, 8) == "-12-08"
    ensures MonthDayText(11, 25) == "-12-25" && MonthDayText(11, 26) == "-12-26"
  {
    DigitChars();
    MonthDayDigits(11, 6);
    MonthDayDigits(11, 8);
    MonthDayDigits(11, 25);
    MonthDayDigits(11, 26);
  }

  /** The thirteen literal strings are the formatted fixed dates. */
  lemma {:induction false} FixedTexts(year: int)
    ensures Formats(FixedHolidays(IntText(year)), FixedDates(year))
  {
    WinterSpringTexts();
    SummerAutumnTexts();
    DecemberTexts();
    FormatDateSplit(year, 0, 1);
    FormatDateSplit(year, 0, 6);
    FormatDateSplit(year, 4, 1);
    FormatDateSplit(year, 5, 24);
    FormatDateSplit(year, 7, 15);
    FormatDateSplit(year, 8, 11);
    FormatDateSplit(year, 8, 24);
    FormatDateSplit(year, 9, 12);
    FormatDateSplit(year, 10, 1);
    FormatDateSplit(year, 11, 6);
    FormatDateSplit(year, 11, 8);
    FormatDateSplit(year, 11, 25);
    FormatDateSplit(year, 11, 26);
  }

  /** The days Easter can fall on: 22 March to 25 April. */
  predicate EasterWindow(e: Date) {
    Valid(e) && ((e.month0 == 2 && 22 <= e.day) || (e.month0 == 3 && e.day <= 25))
  }

  /** Two days before 1 or 2 April is 30 or 31 March. */
  lemma {:induction false} BackTwoFromEarlyApril(e: Date)
    requires Valid(e) && e.month0 == 3 && 1 <= e.day <= 2
    ensures Shift(e, -2) == Date(e.year, 2, 29 + e.day)
  {
    var first := Date(e.year, 3, 1);
    ShiftBackWithinMonth(e, e.day - 1);
    ShiftAdd(e, -(e.day - 1), -(3 - e.day));
    ShiftFromPrev(first, -(3 - e.day));
    ShiftBackWithinMonth(Date(e.year, 2, 31), 2 - e.day);
  }

  /** From a possible Easter, Good Friday is between 20 March and 23 April of the same year. */
  lemma {:induction false} GoodFridayWindow(e: Date)
    requires EasterWindow(e)
    ensures var gf := Shift(e, -2);
            gf.year == e.year && ((gf.month0 == 2 && 20 <= gf.day) || (gf.month0 == 3 && gf.day <= 23))
  {
    if e.month0 == 2 || e.day >= 3 {
      ShiftBackWithinMonth(e, 2);
    } else {
      BackTwoFromEarlyApril(e);
    }
  }

  /** From a possible Easter, Easter Monday is between 23 March and 26 April of the same year. */
  lemma {:induction false} EasterMondayWindow(e: Date)
    requires EasterWindow(e)
    ensures var em := Shift(e, 1);
            em.year == e.year && ((em.month0 == 2 && 23 <= em.day) || (em.month0 == 3 && em.day <= 26))
  {
    if e.month0 == 3 || e.day < 31 {
      ShiftWithinMonth(e, 1);
    } else {
      ShiftPastMonthEnd(e, 1);
    }
  }

  /** From a possible Easter, fifty days on is between 11 May and 14 June of the same year. */
  lemma {:induction false} WhitMondayWindow(e: Date)
    requires EasterWindow(e)
    ensures var wm := Shift(e, 50);
            wm.year == e.year && ((wm.month0 == 4 && 11 <= wm.day) || (wm.month0 == 5 && wm.day <= 14))
  {
    ShiftPastMonthEnd(e, 50);
    if e.month0 == 2 {
      FiftyFromMarch(e);
    } else if e.day <= 11 {
      // 30 - day days finish April; the rest is in May.
      ShiftWithinMonth(Date(e.year, 4, 1), 50 - (30 - e.day) - 1);
    } else {
      // May has 31 days; the rest is in June.
      ShiftPastMonthEnd(Date(e.year, 4, 1), 50 - (30 - e.day) - 1);
      ShiftWithinMonth(Date(e.year, 5, 1), 50 - (30 - e.day) - 1 - 31);
    }
  }

  /** From 22..31 March, fifty days on is in May. */
  lemma {:induction false} FiftyFromMarch(e: Date)
    requires Valid(e) && e.month0 == 2 && 22 <= e.day
    ensures Shift(Date(e.year, 3, 1), 50 - (31 - e.day) - 1) == Date(e.year, 4, e.day - 11)
  {
    // 31 - day days finish March, 30 more finish April, the rest is in May.
    ShiftPastMonthEnd(Date(e.year, 3, 1), 50 - (31 - e.day) - 1);
    ShiftWithinMonth(Date(e.year, 4, 1), 50 - (31 - e.day) - 1 - 30);
  }

  /** The fixed holidays are days of their year, listed in calendar order. */
  lemma {:induction false} FixedDatesOrdered(year: int, i: int, j: int)
    requires 0 <= i < j < 13
    ensures Valid(FixedDates(year)[i]) && FixedDates(year)[i].year == year
    ensures DayKey(FixedDates(year)[i]) < DayKey(FixedDates(year)[j])
    decreases j - i
  {
    if j > i + 1 {
      FixedDatesOrdered(year, i + 1, j);
    }
  }

  /** The fixed holidays are thirteen different days of their year. */
  lemma {:induction false} FixedDistinct(year: int)
    ensures DaysOf(FixedDates(year), year) && Distinct(FixedDates(year))
  {
    var fixed := FixedDates(year);
    assert Valid(fixed[12]) && fixed[12].year == year;
    forall i | 0 <= i < 12
      ensures Valid(fixed[i]) && fixed[i].year == year
    {
      FixedDatesOrdered(year, i, 12);
    }
    forall i, j | 0 <= i < j < 13
      ensures fixed[i] != fixed[j]
    {
      FixedDatesOrdered(year, i, j);
    }
  }

  /** No fixed holiday falls in the windows where the movable ones can fall. */
  lemma {:induction false} FixedKeysAvoid(year: int, key: int)
    requires 220 <= key <= 231 || 301 <= key <= 326 || 411 <= key <= 431 || 501 <= key <= 514
    ensures forall i :: 0 <= i < 13 ==> DayKey(FixedDates(year)[i]) != key
  {
  }

  /** From a possible Easter the three movable holidays lie in windows of day keys that no
      fixed holiday uses, in Easter's year. */
  lemma {:induction false} MovableKeys(e: Date)
    requires EasterWindow(e)
    ensures var ms := MovableDates(e);
            DaysOf(ms, e.year) &&
            (220 <= DayKey(ms[0]) <= 231 || 301 <= DayKey(ms[0]) <= 323) &&
            (223 <= DayKey(ms[1]) <= 231 || 301 <= DayKey(ms[1]) <= 326) &&
            (411 <= DayKey(ms[2]) <= 431 || 501 <= DayKey(ms[2]) <= 514)
  {
    GoodFridayWindow(e);
    EasterMondayWindow(e);
    WhitMondayWindow(e);
  }

  /** The three movable holidays are three different days. */
  lemma {:induction false} MovableDistinct(e: Date)
    requires EasterWindow(e)
    ensures Distinct(MovableDates(e))
  {
    var ms := MovableDates(e);
    MovableKeys(e);
    AddDaysNumber(e, -2);
    AddDaysNumber(e, 1);
    assert DayNumber(ms[0]) != DayNumber(ms[1]);
  }

  /** Around a possible Easter, the sixteen dates are sixteen different days of the year. */
  lemma {:induction false} DatesDistinct(year: int, e: Date)
    requires EasterWindow(e) && e.year == year
    ensures DaysOf(FixedDates(year) + MovableDates(e), year)
    ensures Distinct(FixedDates(year) + MovableDates(e))
  {
    var fixed, movable := FixedDates(year), MovableDates(e);
    FixedDistinct(year);
    MovableKeys(e);
    MovableDistinct(e);
    DaysOfConcat(fixed, movable, year);
    forall i, k | 0 <= i < 13 && 0 <= k < 3
      ensures fixed[i] != movable[k]
    {
      FixedKeysAvoid(year, DayKey(movable[k]));
    }
    DistinctConcat(fixed, movable);
  }

  lemma {:induction false} MovableTexts(e: Date)
    requires Valid(e)
    ensures Formats(MovableHolidays(e), MovableDates(e))
  {
  }

  /** The holiday strings are the formatted holiday dates. */
  lemma {:induction false} HolidayTexts(year: int)
    ensures Formats(HolidaysForYear(year), HolidayDates(year))
  {
    var e := EasterDate(year);
    FixedTexts(year);
    MovableTexts(e);
    FormatsConcat(FixedHolidays(IntText(year)), FixedDates(year), MovableHolidays(e), MovableDates(e));
  }

  /** The sixteen holidays of a year (that the `Date` constructor keeps) are sixteen different
      days of that year, and the list holds their text. */
  lemma {:induction false} HolidaysOfYear(year: int)
    requires year >= 100
    ensures Formats(HolidaysForYear(year), HolidayDates(year))
    ensures DaysOf(HolidayDates(year), year) && Distinct(HolidayDates(year))
    ensures Distinct(HolidaysForYear(year))
  {
    EasterInSpring(year);
    DatesDistinct(year, EasterDate(year));
    HolidayTexts(year);
    DistinctTexts(HolidaysForYear(year), HolidayDates(year), year);
  }

  /** A day of the year is a holiday exactly when it is one of the holiday dates. */
  lemma {:induction false} IsHolidayOfDate(year: int, d: Date)
    requires year >= 100 && Valid(d) && d.year == year
    ensures IsHoliday(year, FormatDateObj(d)) <==> d in HolidayDates(year)
  {
    HolidaysOfYear(year);
    TextMember(HolidaysForYear(year), HolidayDates(year), year, d);
  }

  /** Within one year, a day's text is in a formatted list exactly when the day is in the list. */
  lemma {:induction false} TextMember(hs: seq<string>, ds: seq<Date>, year: int, d: Date)
    requires Formats(hs, ds) && DaysOf(ds, year) && Valid(d) && d.year == year
    ensures FormatDateObj(d) in hs <==> d in ds
  {
    if FormatDateObj(d) in hs {
      var i :| 0 <= i < |hs| && hs[i] == FormatDateObj(d);
      FormatDateIff(year, ds[i].month0, ds[i].day, d.month0, d.day);
      assert ds[i] == d;
    }
    if d in ds {
      var i :| 0 <= i < |ds| && ds[i] == d;
      assert hs[i] == FormatDateObj(d);
    }
  }

  /** From a Sunday, two days back is a Friday, one and fifty days on are Mondays. */
  lemma {:induction false} MovableWeekdaysFrom(e: Date)
    requires Valid(e) && Weekday(e) == 0
    ensures Weekday(AddDays(e, -2)) == 5
    ensures Weekday(AddDays(e, 1)) == 1
    ensures Weekday(AddDays(e, 50)) == 1
  {
    SundayPlus(e, -2, 5);
    SundayPlus(e, 1, 1);
    SundayPlus(e, 50, 1);
  }

  lemma {:induction false} SundayPlus(e: Date, days: int, w: int)
    requires Valid(e) && Weekday(e) == 0 && w == days % 7
    ensures Weekday(AddDays(e, days)) == w
  {
    AddDaysWeekday(e, days);
  }

  /** Good Friday is a Friday; Easter Monday and the Monday fifty days after Easter are Mondays. */
  lemma {:induction false} MovableWeekdays(year: int)
    requires year >= 100
    ensures var e := EasterDate(year);
            Weekday(AddDays(e, -2)) == 5 && Weekday(AddDays(e, 1)) == 1 && Weekday(AddDays(e, 50)) == 1
  {
    EasterIsSunday(year);
    MovableWeekdaysFrom(EasterDate(year));
  }
}
