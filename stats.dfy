/** `getStats(empId)`: one employee's totals for the month on screen. Every day of the month is
    classified by its entry and the calendar, and hours and days are added up. Hours are kept in
    hundredths (`standard` grows by 800 for each working day). */
module Stats {
  import opened Calendar
  import opened DateText
  import opened Holidays
  import opened Hours
  import opened Entries

  /** `WORK_TYPES.VACACIONES` and `WORK_TYPES.PERSONAL`. */
  const Vacaciones: string := "Vacaciones"
  const AsuntosPropios: string := "Asuntos Propios"

  /** The `stats` object; hours in hundredths, `vac` and `personal` in days. */
  datatype MonthStats = MonthStats(standard: int, regular: int, holiday: int, vac: int, personal: int, balance: int)

  /** How `getStats` treats a day. */
  datatype Kind = Vacation | Personal | NonWork | Work

  /** A day as `getStats` sees it: its kind and the hours of its entry. */
  datatype Day = Day(kind: Kind, worked: int)

  /** One turn of the loop body: the day added to the totals so far. A non-working day adds its
      hours only when there are some. A turn keeps the balance equal to worked less owed hours,
      if it was, and no count goes down. */
  function Step(s: MonthStats, day: Day): (r: MonthStats)
    ensures r.balance - (r.regular - r.standard) == s.balance - (s.regular - s.standard)
    ensures r.vac >= s.vac && r.personal >= s.personal && r.standard >= s.standard && r.holiday >= s.holiday
  {
    match day.kind
    case Vacation => s.(vac := s.vac + 1)
    case Personal => s.(personal := s.personal + 1)
    case NonWork => if day.worked > 0 then s.(holiday := s.holiday + day.worked) else s
    case Work => s.(standard := s.standard + 800, regular := s.regular + day.worked,
                    balance := s.balance + (day.worked - 800))
  }

  /** The totals the loop holds after the given days. */
  function Tally(days: seq<Day>): MonthStats {
    if days == [] then MonthStats(0, 0, 0, 0, 0, 0) else Step(Tally(days[..|days| - 1]), days[|days| - 1])
  }

  /** The number of days of a kind. */
  function Count(days: seq<Day>, kind: Kind): nat {
    if days == [] then 0 else Count(days[..|days| - 1], kind) + (if days[|days| - 1].kind == kind then 1 else 0)
  }

  /** The hours worked on the days of a kind. */
  function Sum(days: seq<Day>, kind: Kind): int {
    if days == [] then 0 else Sum(days[..|days| - 1], kind) + (if days[|days| - 1].kind == kind then days[|days| - 1].worked else 0)
  }

  /** The totals by counting and summing the days of each kind: eight hours owed per working
      day, the hours of working days and of non-working days, the days of vacation and of
      personal leave, and the balance of hours worked against hours owed. */
  function Totals(days: seq<Day>): MonthStats {
    var standard, regular := 800 * Count(days, Work), Sum(days, Work);
    MonthStats(standard, regular, Sum(days, NonWork), Count(days, Vacation), Count(days, Personal), regular - standard)
  }

  /** Every day's hours are those of a shift: not negative and under 24. */
  predicate ShiftHours(days: seq<Day>) {
    forall i :: 0 <= i < |days| ==> 0 <= days[i].worked < 2400
  }

  /** The loop's running totals are the counts and sums of the days so far. */
  lemma {:induction false} TallyTotals(days: seq<Day>)
    requires ShiftHours(days)
    ensures Tally(days) == Totals(days)
  {
    if days != [] {
      TallyTotals(days[..|days| - 1]);
    }
  }

  /** Every day is of exactly one kind. */
  lemma {:induction false} KindsPartition(days: seq<Day>)
    ensures Count(days, Vacation) + Count(days, Personal) + Count(days, NonWork) + Count(days, Work) == |days|
  {
    if days != [] {
      KindsPartition(days[..|days| - 1]);
    }
  }

  /** Days of under 24 hours each add up to under 24 hours a day. */
  lemma {:induction false} SumBounds(days: seq<Day>, kind: Kind)
    requires ShiftHours(days)
    ensures 0 <= Sum(days, kind) <= 2399 * Count(days, kind)
  {
    if days != [] {
      SumBounds(days[..|days| - 1], kind);
    }
  }

  /** Counting the days one more at a time. */
  lemma {:induction false} TallyPrefix(days: seq<Day>, n: nat)
    requires 0 < n <= |days|
    ensures Tally(days[..n]) == Step(Tally(days[..n - 1]), days[n - 1])
  {
    assert days[..n][..n - 1] == days[..n - 1];
  }

  /** The part of the component state `getStats` reads: the entries, the memoised holiday list
      behind `isHoliday`, and the year and 0-based month on screen. */
  datatype Sheet = Sheet(entries: EntryMap, holidays: seq<string>, year: int, month: int)

  /** Every stored time field is empty or a well-formed time. */
  predicate WellFormedEntries(entries: EntryMap) {
    forall k :: k in entries ==> TimeField(Field(entries[k], "start")) && TimeField(Field(entries[k], "end"))
  }

  lemma LookupWellFormed(entries: EntryMap, key: string)
    requires WellFormedEntries(entries)
    ensures TimeField(Field(Lookup(entries, key), "start")) && TimeField(Field(Lookup(entries, key), "end"))
  {
  }

  /** `formatDate(year, month, d)`. */
  function DateStr(sh: Sheet, d: int): string {
    FormatDate(sh.year, sh.month, d)
  }

  /** `entries[`${dateStr}-${empId}`] || {}`. */
  function DayEntry(sh: Sheet, empId: int, d: int): Entry {
    Lookup(sh.entries, EntryKey(DateStr(sh, d), empId))
  }

  /** The branch of the loop body an entry of a given type takes on a day that is or is not a
      working day: the type is tested first, then the calendar. */
  function Classify(typ: string, isNonWork: bool): Kind {
    if typ == Vacaciones then Vacation
    else if typ == AsuntosPropios then Personal
    else if isNonWork then NonWork
    else Work
  }

  /** `isWeekend(dateStr) || isHoliday(dateStr)`. */
  predicate IsNonWork(sh: Sheet, dateStr: string) {
    IsWeekend(dateStr) || dateStr in sh.holidays
  }

  /** The branch of the loop body day `d` takes. */
  function DayKind(sh: Sheet, empId: int, d: int): Kind {
    Classify(Field(DayEntry(sh, empId, d), "type"), IsNonWork(sh, DateStr(sh, d)))
  }

  /** `calculateHours(entry.start, entry.end)` for day `d`. */
  function DayHours(sh: Sheet, empId: int, d: int): int
    requires WellFormedEntries(sh.entries)
  {
    LookupWellFormed(sh.entries, EntryKey(DateStr(sh, d), empId));
    var entry := DayEntry(sh, empId, d);
    ShiftHundredths(Field(entry, "start"), Field(entry, "end"))
  }

  lemma DayHoursRange(sh: Sheet, empId: int, d: int)
    requires WellFormedEntries(sh.entries)
    ensures 0 <= DayHours(sh, empId, d) < 2400
  {
    var entry := DayEntry(sh, empId, d);
    LookupWellFormed(sh.entries, EntryKey(DateStr(sh, d), empId));
    HoursProperties(Field(entry, "start"), Field(entry, "end"));
  }

  /** A day without an entry counts as a working day unless the calendar says otherwise, with
      no hours worked. */
  lemma NoEntryDay(sh: Sheet, empId: int, d: int)
    requires WellFormedEntries(sh.entries) && EntryKey(DateStr(sh, d), empId) !in sh.entries
    ensures DayKind(sh, empId, d) == (if IsNonWork(sh, DateStr(sh, d)) then NonWork else Work)
    ensures DayHours(sh, empId, d) == 0
  {
  }

  /** The days 1..daysInMonth of the month, in order. */
  function MonthDays(sh: Sheet, empId: int): (r: seq<Day>)
    requires WellFormedEntries(sh.entries)
    ensures |r| == DaysInMonth(sh.year, sh.month)
  {
    seq(DaysInMonth(sh.year, sh.month), i requires 0 <= i => Day(DayKind(sh, empId, i + 1), DayHours(sh, empId, i + 1)))
  }

  lemma MonthShiftHours(sh: Sheet, empId: int)
    requires WellFormedEntries(sh.entries)
    ensures ShiftHours(MonthDays(sh, empId))
  {
    var days := MonthDays(sh, empId);
    forall i | 0 <= i < |days|
      ensures 0 <= days[i].worked < 2400
    {
      DayHoursRange(sh, empId, i + 1);
    }
  }

  /** The month's totals for the employee. */
  function StatsOf(sh: Sheet, empId: int): MonthStats
    requires WellFormedEntries(sh.entries)
  {
    Totals(MonthDays(sh, empId))
  }

  /** The loop body's branches, as a step of the tally. */
  lemma StepOfClassify(prev: MonthStats, typ: string, isNonWork: bool, worked: int)
    ensures Step(prev, Day(Classify(typ, isNonWork), worked)) == (
              if typ == Vacaciones then prev.(vac := prev.vac + 1)
              else if typ == AsuntosPropios then prev.(personal := prev.personal + 1)
              else if !isNonWork then
                prev.(standard := prev.standard + 800, regular := prev.regular + worked,
                      balance := prev.balance + (worked - 800))
              else if worked > 0 then prev.(holiday := prev.holiday + worked)
              else prev)
  {
  }

  /** Day `d` added to the totals of the days before it, in the terms of the loop body. */
  lemma LoopStep(sh: Sheet, empId: int, d: int)
    requires WellFormedEntries(sh.entries) && 1 <= d <= DaysInMonth(sh.year, sh.month)
    ensures var days := MonthDays(sh, empId);
            var dateStr := FormatDate(sh.year, sh.month, d);
            var entry := Lookup(sh.entries, EntryKey(dateStr, empId));
            TimeField(Field(entry, "start")) && TimeField(Field(entry, "end")) &&
            Tally(days[..d]) == Step(Tally(days[..d - 1]), Day(Classify(Field(entry, "type"), IsNonWork(sh, dateStr)),
                                                                ShiftHundredths(Field(entry, "start"), Field(entry, "end"))))
  {
    var days := MonthDays(sh, empId);
    LookupWellFormed(sh.entries, EntryKey(DateStr(sh, d), empId));
    TallyPrefix(days, d);
    assert days[d - 1] == Day(DayKind(sh, empId, d), DayHours(sh, empId, d));
  }

  /** `getStats(empId)`. */
  method GetStats(sh: Sheet, empId: int) returns (stats: MonthStats)
    requires WellFormedEntries(sh.entries)
    ensures stats == StatsOf(sh, empId)
  {
    ghost var days := MonthDays(sh, empId);
    var daysInMonth := DaysInMonth(sh.year, sh.month);
    stats := MonthStats(0, 0, 0, 0, 0, 0);
    for d := 1 to daysInMonth + 1
      invariant stats == Tally(days[..d - 1])
    {
      var dateStr := FormatDate(sh.year, sh.month, d);
      var key := EntryKey(dateStr, empId);
      var entry := Lookup(sh.entries, key);
      var isNonWork := IsNonWork(sh, dateStr);
      LookupWellFormed(sh.entries, key);
      var worked := CalculateHours(Field(entry, "start"), Field(entry, "end"));
      LoopStep(sh, empId, d);
      StepOfClassify(stats, Field(entry, "type"), isNonWork, worked);
      if Field(entry, "type") == Vacaciones {
        stats := stats.(vac := stats.vac + 1);
        continue;
      }
      if Field(entry, "type") == AsuntosPropios {
        stats := stats.(personal := stats.personal + 1);
        continue;
      }
      if !isNonWork {
        stats := stats.(standard := stats.standard + 800, regular := stats.regular + worked,
                        balance := stats.balance + (worked - 800));
      } else if worked > 0 {
        stats := stats.(holiday := stats.holiday + worked);
      }
    }
    MonthTally(sh, empId);
  }

  /** After the last day the loop's totals are the month's. */
  lemma MonthTally(sh: Sheet, empId: int)
    requires WellFormedEntries(sh.entries)
    ensures var days := MonthDays(sh, empId);
            Tally(days[..DaysInMonth(sh.year, sh.month)]) == StatsOf(sh, empId)
  {
    var days := MonthDays(sh, empId);
    assert days[..DaysInMonth(sh.year, sh.month)] == days;
    MonthShiftHours(sh, empId);
    TallyTotals(days);
  }

  /** The month's totals: the balance is worked minus owed hours, owed hours are eight per
      working day, worked hours are not negative and under 24 a day, and the vacation,
      personal, non-working and working days add up to the days of the month. */
  lemma MonthTotals(sh: Sheet, empId: int)
    requires WellFormedEntries(sh.entries)
    ensures var s, days := StatsOf(sh, empId), MonthDays(sh, empId);
            s.balance == s.regular - s.standard &&
            s.standard == 800 * Count(days, Work) &&
            s.vac + s.personal + Count(days, NonWork) + Count(days, Work) == DaysInMonth(sh.year, sh.month) &&
            0 <= s.regular <= 2399 * Count(days, Work) &&
            0 <= s.holiday <= 2399 * Count(days, NonWork)
  {
    var days := MonthDays(sh, empId);
    MonthShiftHours(sh, empId);
    KindsPartition(days);
    SumBounds(days, Work);
    SumBounds(days, NonWork);
  }

  /** Two sheets that agree on the calendar and on the type and times of the employee's
      entries for every day of the month. */
  predicate SameDays(sh1: Sheet, sh2: Sheet, empId: int) {
    sh1.holidays == sh2.holidays && sh1.year == sh2.year && sh1.month == sh2.month &&
    forall d :: 1 <= d <= DaysInMonth(sh1.year, sh1.month) ==>
      Field(DayEntry(sh1, empId, d), "type") == Field(DayEntry(sh2, empId, d), "type") &&
      Field(DayEntry(sh1, empId, d), "start") == Field(DayEntry(sh2, empId, d), "start") &&
      Field(DayEntry(sh1, empId, d), "end") == Field(DayEntry(sh2, empId, d), "end")
  }

  /** Such sheets give the same month. */
  lemma SameDaysSameStats(sh1: Sheet, sh2: Sheet, empId: int)
    requires WellFormedEntries(sh1.entries) && WellFormedEntries(sh2.entries)
    requires SameDays(sh1, sh2, empId)
    ensures MonthDays(sh1, empId) == MonthDays(sh2, empId)
  {
    var days1, days2 := MonthDays(sh1, empId), MonthDays(sh2, empId);
    forall i | 0 <= i < |days1|
      ensures days1[i] == days2[i]
    {
      SameMonthDay(sh1, sh2, empId, i);
    }
  }

  lemma SameMonthDay(sh1: Sheet, sh2: Sheet, empId: int, i: int)
    requires WellFormedEntries(sh1.entries) && WellFormedEntries(sh2.entries)
    requires SameDays(sh1, sh2, empId) && 0 <= i < DaysInMonth(sh1.year, sh1.month)
    ensures MonthDays(sh1, empId)[i] == MonthDays(sh2, empId)[i]
  {
    SameDay(sh1, sh2, empId, i + 1);
  }

  lemma SameDay(sh1: Sheet, sh2: Sheet, empId: int, d: int)
    requires WellFormedEntries(sh1.entries) && WellFormedEntries(sh2.entries)
    requires sh1.holidays == sh2.holidays && sh1.year == sh2.year && sh1.month == sh2.month
    requires Field(DayEntry(sh1, empId, d), "type") == Field(DayEntry(sh2, empId, d), "type")
    requires Field(DayEntry(sh1, empId, d), "start") == Field(DayEntry(sh2, empId, d), "start")
    requires Field(DayEntry(sh1, empId, d), "end") == Field(DayEntry(sh2, empId, d), "end")
    ensures DayKind(sh1, empId, d) == DayKind(sh2, empId, d) && DayHours(sh1, empId, d) == DayHours(sh2, empId, d)
  {
  }

  /** A change keeps the entries well formed when it writes a time field with a time. */
  lemma HandleEntryChangeWellFormed(entries: EntryMap, emp: int, dateStr: string, field: string, value: string)
    requires WellFormedEntries(entries)
    requires (field == "start" || field == "end") ==> TimeField(value)
    ensures WellFormedEntries(HandleEntryChange(entries, emp, dateStr, field, value))
  {
    HandleEntryChangeEffect(entries, emp, dateStr, field, value);
  }

  /** An edit of another employee's day, or of a field other than type and times (such as the
      notes), leaves an employee's month as it was. */
  lemma {:induction false} UnrelatedChange(sh: Sheet, empId: int, emp: int, dateStr: string, field: string, value: string)
    requires WellFormedEntries(sh.entries)
    requires 1000 <= sh.year <= 9999 && 0 <= sh.month < 12 && |dateStr| == 10
    requires (field == "start" || field == "end") ==> TimeField(value)
    requires emp != empId || (field != "type" && field != "start" && field != "end")
    ensures var changed := sh.(entries := HandleEntryChange(sh.entries, emp, dateStr, field, value));
            WellFormedEntries(changed.entries) && StatsOf(changed, empId) == StatsOf(sh, empId)
  {
    var changed := sh.(entries := HandleEntryChange(sh.entries, emp, dateStr, field, value));
    HandleEntryChangeWellFormed(sh.entries, emp, dateStr, field, value);
    HandleEntryChangeEffect(sh.entries, emp, dateStr, field, value);
    forall d | 1 <= d <= DaysInMonth(sh.year, sh.month)
      ensures Field(DayEntry(changed, empId, d), "type") == Field(DayEntry(sh, empId, d), "type")
      ensures Field(DayEntry(changed, empId, d), "start") == Field(DayEntry(sh, empId, d), "start")
      ensures Field(DayEntry(changed, empId, d), "end") == Field(DayEntry(sh, empId, d), "end")
    {
      FormatDateLength(sh.year, sh.month, d);
      EntryKeyInjective(DateStr(sh, d), empId, dateStr, emp);
    }
    SameDaysSameStats(changed, sh, empId);
  }

  /** With the year's own holiday list, a day that is neither vacation nor personal leave is a
      non-working day exactly when it is a Saturday, a Sunday or one of the holidays. */
  lemma {:induction false} NonWorkDays(sh: Sheet, empId: int, d: int)
    requires 1000 <= sh.year <= 9999 && 0 <= sh.month < 12 && 1 <= d <= DaysInMonth(sh.year, sh.month)
    requires sh.holidays == HolidaysForYear(sh.year)
    requires DayKind(sh, empId, d) != Vacation && DayKind(sh, empId, d) != Personal
    ensures var date := Date(sh.year, sh.month, d);
            Valid(date) &&
            (DayKind(sh, empId, d) == NonWork <==>
             Weekday(date) == 0 || Weekday(date) == 6 || date in HolidayDates(sh.year))
  {
    var date := Date(sh.year, sh.month, d);
    DaysInMonthOfYear(sh.year, sh.month);
    IsWeekendOfFormatted(date);
    IsHolidayOfDate(sh.year, date);
  }
}
