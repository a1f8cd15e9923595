# Timesheet back office: calendar, hours and monthly totals

This project models the computational core of the timesheet back office, a single React
component (`App.jsx`) in which staff record, day by day, the type of each working day and the
start and end of the shift. It covers:

- the calendar the component builds: Gregorian Easter, `addDays`, the sixteen public holidays of
  a year, the days of a month, the `YYYY-MM-DD` day keys and the weekend test on them;
- `calculateHours`, the length of a shift in hundredths of an hour;
- `getStats`, the month's totals for one employee: hours owed, hours worked on working and on
  non-working days, vacation and personal-leave days, and the balance;
- the two state updates, `handleEntryChange` on the `entries` object and
  `handleEmployeeNameChange` on the employee list;
- the Friday warning and the weekend shading of the month table.

JavaScript's `Date` becomes a proleptic Gregorian civil date with a 0-based month
(`Calendar.Date`). A closed-form day count (days since 1970-01-01) gives the weekday, and the
`Date` constructor is ECMAScript's MakeDay: the month is normalised into the year, then the day
is counted from the first of the month, with the two-digit-year rule on top. Hours are integers
in hundredths of an hour: the integer is 100 times the decimal that `(diff / 60).toFixed(2)` prints, of which
`Number` then takes the nearest double. JavaScript's `%` keeps the sign of its left operand and is
modelled as `Easter.JsRem`.

Modules, one per file:

- `Calendar` (dates, weekdays, `addDays`, `getDaysInMonth`)
- `Easter` (`getEasterDate`)
- `DateText` (`formatDate`, `formatDateObj`, `isWeekend`)
- `Holidays` (`getHolidaysForYear`, `isHoliday`)
- `Hours` (`calculateHours`)
- `Entries` (`handleEntryChange`, `handleEmployeeNameChange`, `employees.find`)
- `Stats` (`getStats`)
- `Warning` (the row flags of the month table)
- `Wrappers` (`Option`)

`getStats` and `calculateHours` update variables step by step in the source, so they are
methods, proved against specifications:

- `GetStats` runs the source's `for` loop with its two `continue`s. Its invariant ties the
  running totals to `Tally` of the days so far. It ends equal to `StatsOf`, which is defined by
  counting days of each kind and summing their hours.
- `CalculateHours` keeps the source's mutable `diff` and ends equal to the function
  `ShiftHundredths`.

`handleEntryChange` and `handleEmployeeNameChange` build new objects by spreading the old ones,
so they are functions on a `map` and a `seq`. `getStats` reads the component's state: the
entries, the memoised holiday list and the year and month on screen. That state is the
`Stats.Sheet` value it receives; the holiday list is a field of it, as `useMemo` holds it.

## Model

| member | source | states |
|---|---|---|
| Easter.EasterDate | App.jsx:30-39 | `getEasterDate(year)` always names an existing date |
| Easter.EasterCount | App.jsx:31-36 | the quantity `h + l - 7m + 114` of the algorithm; EasterCountRange states its range |
| Easter.DateFromCount | App.jsx:36-38 | `new Date(year, n/31 - 1, n%31 + 1)` always yields an existing date; DateFromCountInSpring states which one |
| Easter.EasterInSpring | App.jsx:30-39 | Easter lies in its own year, between 22 March and 25 April |
| Easter.EasterIsSunday | App.jsx:30-39 | the date the algorithm gives is always a Sunday |
| Easter.EasterCountRange | App.jsx:33-37 | the quantity `h + l - 7m + 114` lies between 114 and 148, the counts of 22 March and 25 April |
| Easter.DateFromCountInSpring | App.jsx:36-38 | month `n/31 - 1` and day `n%31 + 1` of a count in 114..148 name a day of March or April lying `n - 93` days after 1 March |
| Easter.Easter2024 | App.jsx:30-39 | Easter 2024 is 31 March |
| Easter.Easter2025 | App.jsx:30-39 | Easter 2025 is 20 April |
| Easter.JsRem | App.jsx:31-34 | JavaScript's `a % n` is `a` less a multiple of `n`, smaller than `n` in magnitude and never of the opposite sign to `a` |
| Easter.JsRemOfNatural | App.jsx:31-34 | on a non-negative left operand it is the mathematical remainder |
| Easter.JsRemUnique | App.jsx:31-34 | any number with those properties is `a % n`, so they define the truncated remainder |
| Calendar.MonthLength | App.jsx:49 | months have 28 to 31 days; February has 29 exactly in leap years |
| Calendar.Weekday | App.jsx:59 | `getDay()` is a number from 0 (Sunday) to 6 |
| Calendar.NextDayNumber | App.jsx:40 | the next day is a valid date one day later in the day count |
| Calendar.PrevNext | App.jsx:40 | stepping a day forward then back returns the same date |
| Calendar.ShiftDayNumber | App.jsx:40 | moving `n` days moves the day count by exactly `n` |
| Calendar.ShiftWeekday | App.jsx:40 | moving `n` days moves the weekday by `n` modulo 7 |
| Calendar.Shift | App.jsx:40 | moving a date by `n` days one day at a time always yields an existing date |
| Calendar.MakeDay | App.jsx:38 | ECMAScript's MakeDay, the month normalised into the year and the day counted from its first, always yields an existing date |
| Calendar.MakeDayOfValid | App.jsx:38 | the `Date` constructor returns an existing date unchanged |
| Calendar.FullYear | App.jsx:38 | the two-digit-year step of `new Date(y, m, d)`, years 0..99 meaning 1900..1999; NewDateOfValid and DaysInMonthOfYear state its effect elsewhere |
| Calendar.NewDate | App.jsx:38 | `new Date(y, m, d)` always yields an existing date |
| Calendar.NewDateOfValid | App.jsx:38 | outside years 0..99, `new Date(y, m, d)` of an existing date is that date |
| Calendar.MakeDayNumber | App.jsx:49 | day `dt` of a normalised month lies `dt - 1` days after its first day, so day 0 is the previous month's last day |
| Calendar.AddDays | App.jsx:40 | `addDays(d, n)` is `d` moved by `n` calendar days |
| Calendar.AddDaysNumber | App.jsx:40 | `addDays` moves the day count by `n` |
| Calendar.AddDaysWeekday | App.jsx:40 | `addDays` moves the weekday by `n` modulo 7 |
| Calendar.DaysInMonth | App.jsx:49 | `getDaysInMonth(y, m)` is the length of month `m` once normalised into the year, between 28 and 31 |
| Calendar.DaysInMonthOfYear | App.jsx:49 | for a month 0..11 of a year outside 0..99 it is that month's length; February has 29 days exactly in leap years |
| DateText.IntText | App.jsx:41-50 | `${n}` is defined as an optional `-` followed by the digits of the magnitude; its meaning is stated by IntTextValue |
| DateText.IntTextValue | App.jsx:41-50 | the text of an integer starts with `-` exactly when it is negative, is otherwise digits, and reads back as the integer |
| DateText.PadTwo | App.jsx:41-50 | `padStart(2, '0')` is defined by the length of its argument; its meaning is stated by PadTwoShape |
| DateText.FormatDate | App.jsx:50 | `formatDate` is defined as the template literal; its meaning is stated by FormatDateShape, FormatDateIff and ParseFormat |
| DateText.FormatDateObj | App.jsx:41 | `formatDateObj` is `formatDate` of the date's year, month and day; its meaning is stated by ParseFormat |
| DateText.ParseIso | App.jsx:59 | `new Date(dateStr)` on `YYYY-MM-DD` text, the only form modelled, is defined by MakeDay; the standard's other forms read as an invalid date; ParseFormat states that it inverts `formatDate` |
| DateText.NatTextValue | App.jsx:41-50 | the decimal text of a number reads back as the number |
| DateText.PadTwoShape | App.jsx:41-50 | `padStart(2, '0')` keeps the text as its tail, adds only zeros and stops at length 2 |
| DateText.PadTwoValue | App.jsx:41-50 | a padded month or day is two digits that read back as the number |
| DateText.FormatDateLength | App.jsx:50 | `formatDate` of a day of a four-digit year is 10 characters |
| DateText.MonthDayShape | App.jsx:50 | the `-MM-DD` part has the separators in place and the month `m + 1` and the day as two digits each |
| DateText.FormatDateIff | App.jsx:50 | within a year, two days have the same text exactly when they have the same month and day |
| DateText.FormatDateShape | App.jsx:41-50 | the text of a day is the year's text, `-`, two digits that read as the month `m + 1`, `-`, and two digits that read as the day |
| DateText.ParseFormat | App.jsx:59 | reading the text of a date of a four-digit year back gives the date |
| DateText.IsWeekend | App.jsx:58-61 | `isWeekend` is true only when the string reads as a date |
| DateText.IsWeekendOfFormatted | App.jsx:58-61 | `isWeekend` of a day's text holds exactly when the day is a Saturday or a Sunday |
| Holidays.FixedHolidays | App.jsx:43-45 | there are thirteen fixed holidays |
| Holidays.HolidaysForYear | App.jsx:42-48 | `getHolidaysForYear` lists sixteen strings |
| Holidays.FixedTexts | App.jsx:43-45 | each fixed string is the text of its day: 1 and 6 January, 1 May, 24 June, 15 August, 11 and 24 September, 12 October, 1 November, 6, 8, 25 and 26 December |
| Holidays.MovableKeys | App.jsx:46-47 | Good Friday falls 20 March to 23 April, Easter Monday 23 March to 26 April, the +50 Monday 11 May to 14 June, all in Easter's year |
| Holidays.MovableHolidays | App.jsx:46-47 | the three texts of `addDays(easter, -2)`, `addDays(easter, 1)` and `addDays(easter, 50)`; MovableKeys and MovableWeekdays state what they are |
| Holidays.IsHoliday | App.jsx:77 | `holidays.includes(d)` on the year's list; IsHolidayOfDate states what it means |
| Holidays.DatesDistinct | App.jsx:42-48 | the sixteen holiday dates are sixteen different days of the year |
| Holidays.HolidaysOfYear | App.jsx:42-48 | the list holds the text of the sixteen holiday dates, all days of the year, with no date and no string twice |
| Holidays.IsHolidayOfDate | App.jsx:77 | `isHoliday` of a day's text holds exactly when the day is one of the holiday dates |
| Holidays.MovableWeekdays | App.jsx:46-47 | Easter −2 is a Friday; Easter +1 and Easter +50 are Mondays |
| Hours.TimeMinutes | App.jsx:53 | a well-formed time is a minute of the day, 0 to 1439 |
| Hours.ShiftHundredths | App.jsx:51-56 | the length of a shift, 0 to under 24 hours; HoursProperties states what it is |
| Hours.CalculateHours | App.jsx:51-56 | the method returns `ShiftHundredths(s, e)`, from 0 to under 24 hours |
| Hours.HoursProperties | App.jsx:51-56 | 0 when a field is empty; 0 exactly when both times are equal; otherwise the nearest hundredth to the elapsed time, wrapping past midnight; always 0 to under 24 hours |
| Hours.ElapsedWraps | App.jsx:54 | the elapsed minutes are `end - start`, plus a day when the end is earlier; they lie in 0..1439 and are 0 exactly when the times are equal |
| Hours.HundredthsNearest | App.jsx:55 | `toFixed(2)` of `diff / 60` is within a third of a hundredth of the exact value and equals `(5 diff + 1) / 3` |
| Hours.HundredthsUnique | App.jsx:55 | no other integer is that close, so half-way rounding never arises |
| Hours.HundredthsRange | App.jsx:55 | a shift of under a day is 0 to under 24 hours, and 0 only when it is 0 minutes |
| Hours.TimeMinutesInjective | App.jsx:53 | two well-formed times with the same minutes are the same text |
| Hours.HoursExamples | App.jsx:51-56 | 07:00 to 15:30 is 8.50 hours; 22:00 to 06:00 is 8 hours |
| Entries.EntryKey | App.jsx:142 | `${dateStr}-${empId}`; EntryKeyInjective states when two keys coincide |
| Entries.Lookup | App.jsx:145 | `entries[key]`, or `{}` when the key is missing; HandleEntryChangeEffect and Stats.NoEntryDay state what it reads |
| Entries.HandleEntryChange | App.jsx:141-146 | the two spreads: the old entry, or `{}`, with `field` set to `value`, stored under `${dateStr}-${selectedEmployeeId}`; its effect is stated by HandleEntryChangeEffect |
| Entries.HandleEntryChangeEffect | App.jsx:141-147 | the key `${dateStr}-${emp}` holds the old entry (or `{}`) with only `field` set to `value`; every other key is unchanged; the map gains at most that key |
| Entries.HandleEntryChangeIdempotent | App.jsx:141-147 | writing the same value twice is writing it once |
| Entries.HandleEntryChangeCommutes | App.jsx:141-147 | writes to different keys or fields commute |
| Entries.EntryKeyInjective | App.jsx:142 | with date strings of one length, two entry keys are equal exactly when date and employee are |
| Entries.RenameEmployee | App.jsx:154 | `employees.map(e => e.id === id ? { ...e, name: newName } : e)`; its effect is stated by RenameEmployeeEffect |
| Entries.RenameEmployeeEffect | App.jsx:153-156 | renaming keeps the length and the ids in order and changes only the names of records with the id |
| Entries.RenameEmployeeIdempotent | App.jsx:153-156 | renaming twice with one name is renaming once |
| Entries.FindEmployee | App.jsx:282 | `employees.find` returns the first record of the list with the id, or nothing when no record has it |
| Entries.FindAfterRename | App.jsx:153-156 | after renaming, looking up the id finds its record with the new name; other ids find what they found before |
| Stats.GetStats | App.jsx:163-183 | the loop's result is the month's totals `StatsOf`: counts and hour sums of each kind of day |
| Stats.Step | App.jsx:173-180 | one turn of the loop body keeps `balance - (regular - standard)` as it was and lowers neither day count, the owed hours nor the non-working-day hours |
| Stats.Classify | App.jsx:173-177 | the branch a day takes: the type is tested before the calendar; StepOfClassify states the resulting update |
| Stats.StepOfClassify | App.jsx:173-180 | adding a classified day is exactly the update of the branch the loop body takes |
| Stats.TallyTotals | App.jsx:164-181 | accumulating day by day, as the loop does, gives the counts and sums |
| Stats.KindsPartition | App.jsx:173-180 | every day is exactly one of vacation, personal leave, non-working or working |
| Stats.SumBounds | App.jsx:171-179 | hours summed over days of a kind lie between 0 and 23.99 hours a day |
| Stats.MonthTotals | App.jsx:164-182 | `balance == regular - standard`, `standard` is 8 hours per working day, the four kinds of day add up to the days of the month, `regular` and `holiday` are not negative and under 24 hours a day |
| Stats.DayEntry | App.jsx:166-168 | the entry of day `d` under `${formatDate(year, month, d)}-${empId}`; NoEntryDay and SameDaysSameStats state how it is used |
| Stats.IsNonWork | App.jsx:170 | `isWeekend(dateStr)` or `isHoliday(dateStr)`; NonWorkDays states what it means |
| Stats.DayHours | App.jsx:171 | `calculateHours(entry.start, entry.end)` of day `d`; DayHoursRange states its range |
| Stats.DayHoursRange | App.jsx:171 | the hours of any day of the month are 0 to under 24 |
| Stats.NoEntryDay | App.jsx:168-180 | a day without an entry is a working day unless it is a weekend or holiday, with no hours worked |
| Stats.NonWorkDays | App.jsx:170 | with the year's holiday list, a day not on vacation or personal leave is non-working exactly when it is a Saturday, a Sunday or a holiday date |
| Stats.UnrelatedChange | App.jsx:163-183 | an edit of another employee's day, or of a field other than type and times, leaves the totals as they were |
| Stats.SameDaysSameStats | App.jsx:166-171 | the totals depend only on the calendar and on each day's type and times |
| Stats.HandleEntryChangeWellFormed | App.jsx:141-147 | writing a time field with a time keeps every stored time well formed |
| Warning.ParseInt | App.jsx:299 | `parseInt` is NaN exactly when the text does not start with a digit |
| Warning.FridayWarning | App.jsx:298-299 | the expression `isFri && entry.end && parseInt(entry.end) >= 15 && h > 7`; FridayWarningIff states what it means |
| Warning.LeadingDigits | App.jsx:299 | the prefix `parseInt` reads is all digits and stops at the first non-digit |
| Warning.ParseIntOfTime | App.jsx:299 | `parseInt` of a well-formed time is its hour |
| Warning.FridayWarningIff | App.jsx:298-299 | the warning holds exactly on a Friday whose shift ends at hour 15 or later and lasts more than 7 hours |
| Warning.RowWeekendAgrees | App.jsx:296-298 | for a day of the month on screen, the row's `new Date(year, month, day)` is that day, and its weekend shading agrees with the `isWeekend` test `getStats` uses |
| Warning.FridayExample | App.jsx:298-299 | Friday 1 March 2024 with a 07:00 to 15:30 shift raises the warning |
| Warning.ThursdayExample | App.jsx:298-299 | the same shift on Thursday 29 February 2024 does not |

## Left out

- Loading and saving over HTTP (`fetchData`, `saveEntryToSheet`, `saveEmployeeToSheet`, App.jsx:81-137) and the `status` flag: asynchronous network calls. `fetchData` replaces `entries` wholesale; no merging is involved.
- The save that `handleEntryChange` and `handleEmployeeNameBlur` start: network I/O. Only the map update is modelled, not React's state setter or a stale closure's lost update.
- Loading the export libraries and the Excel and PDF exports (App.jsx:96-109, 185-212): DOM manipulation and calls into third-party libraries.
- All rendering except the Friday warning and the weekend shading: presentation.
- Floating point: hours are exact hundredths. The source adds rounded JavaScript numbers, and the model does not track float error in those sums.
- Timezones: `isWeekend` reads its ISO string as UTC midnight and `getDay()` then reports the local weekday. The model has a single calendar with local time equal to UTC, so a zone west of UTC, where the two tests can disagree, is not modelled.
- Month names from `toLocaleString`: locale data.
- DateText.ParseIso: only the `YYYY-MM-DD` form of `new Date(text)` is modelled. The other forms of ECMAScript's date time string format (`YYYY`, `YYYY-MM`, date-times, `±YYYYYY` years) and the engines' own fallback formats read as an invalid date, so `IsWeekend("2024-06")` is false where the source's is true (1 June 2024 is a Saturday). `isWeekend` is only called on `formatDate` output (App.jsx:170), which is always `YYYY-MM-DD` for four-digit years.
- Hours.CalculateHours: requires each time to be empty or a well-formed `HH:MM` (hour under 24, minute under 60). The source's `split(':').map(Number)` turns other text into NaN, which is not modelled.
- Stats.GetStats: requires every stored entry's times to be empty or well formed, for the same reason.
- Warning.ParseInt: reads only leading digits. Leading blanks, a sign and other radixes are not modelled; the time fields never hold them.
- Easter.EasterInSpring: stated for years from 100 on. Earlier years go through the constructor's two-digit-year rule, and JavaScript's `%` on negative years, which the model defines but these lemmas do not cover. The same bound applies to Easter.EasterIsSunday, Holidays.HolidaysOfYear, Holidays.IsHolidayOfDate and Holidays.MovableWeekdays.
- DateText.ParseFormat: stated for four-digit years, the only ones whose text `new Date(text)` reads as `YYYY-MM-DD`. The same bound applies to DateText.IsWeekendOfFormatted, Stats.NonWorkDays, Stats.UnrelatedChange and Warning.RowWeekendAgrees.
- Entries.EntryKeyInjective: requires the two date strings to have one length, as `formatDate` gives within four-digit years. Otherwise a key can split two ways: `2024-01-01--1` is the key of date `2024-01-01` and employee -1 and also of date `2024-01-01-` and employee 1.
- Break minutes, partial absences and a sync queue: App.jsx stores no break minutes or partial absences and keeps no sync queue, so none are modelled.
- Calendar.NewDate: the range of JavaScript's `Date` is not modelled. Time values are clipped to ±8.64e15 ms (about years -271821 to 275760), and outside that range `new Date(y, m, d)` is an Invalid Date whose fields read as NaN. The model's calendar is unbounded, so for such years Calendar.DaysInMonth, Calendar.AddDays, Easter.EasterDate and Holidays.HolidaysOfYear state what the unbounded calendar gives (for year 275761 the source's holiday list would hold "NaN-NaN-NaN" three times, and `getDaysInMonth(275760, 11)` is NaN).
- DateText.ParseIso: a day past the month's end, such as `2024-02-30`, is read as a day of the next month (1 March), as a lenient engine does. ECMAScript also allows such text to give an invalid date. `getStats` only passes days of the month, so it never meets this case.
