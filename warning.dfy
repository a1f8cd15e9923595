/** The per-day flags of the month table: the weekend shading, taken from the weekday of
    `new Date(year, month, day)`, and the Friday warning raised when a Friday's shift ends at
    15:00 or later and lasts more than seven hours. */
module Warning {
  import opened Wrappers
  import opened Calendar
  import opened DateText
  import opened Hours
  import opened Entries

  /** The longest prefix of decimal digits. */
  function LeadingDigits(s: string): (r: string)
    ensures |r| <= |s| && r == s[..|r|] && AllDigits(r)
    ensures |r| < |s| ==> !IsDigit(s[|r|])
  {
    if s == [] || !IsDigit(s[0]) then [] else [s[0]] + LeadingDigits(s[1..])
  }

  /** `parseInt(s)` on text with no leading blanks or sign: the value of the leading digits,
      or NaN (`None`) when there are none. */
  function ParseInt(s: string): (r: Option<nat>)
    ensures r.None? <==> s == [] || !IsDigit(s[0])
  {
    var p := LeadingDigits(s);
    if p == [] then None else Some(DecimalValue(p))
  }

  /** The render's `isFri && entry.end && parseInt(entry.end) >= 15 && h > 7`, with `h` in
      hundredths. A NaN never compares as at least 15. A day without an entry has empty times
      in the render's default entry, as `Field` reads a missing one. */
  predicate FridayWarning(year: int, month: int, day: int, entry: Entry)
    requires TimeField(Field(entry, "start")) && TimeField(Field(entry, "end"))
  {
    var start, end := Field(entry, "start"), Field(entry, "end");
    var isFri := Weekday(NewDate(year, month, day)) == 5;
    isFri && end != "" &&
    (match ParseInt(end) case Some(v) => v >= 15 case None => false) &&
    ShiftHundredths(start, end) > 700
  }

  /** On a well-formed time, `parseInt` reads the hour. */
  lemma {:induction false} ParseIntOfTime(s: string)
    requires WellFormedTime(s)
    ensures ParseInt(s) == Some(TimeHour(s))
  {
    var p := LeadingDigits(s);
    assert IsDigit(s[..2][0]) && IsDigit(s[..2][1]) && !IsDigit(s[2]);
    assert p == s[..2];
  }

  /** The warning is raised exactly on a Friday whose shift ends at hour 15 or later and lasts
      more than seven hours. */
  lemma FridayWarningIff(year: int, month: int, day: int, entry: Entry)
    requires TimeField(Field(entry, "start")) && TimeField(Field(entry, "end"))
    ensures var start, end := Field(entry, "start"), Field(entry, "end");
            FridayWarning(year, month, day, entry) <==>
            Weekday(NewDate(year, month, day)) == 5 && end != "" && TimeHour(end) >= 15 &&
            ShiftHundredths(start, end) > 700
  {
    var end := Field(entry, "end");
    if end != "" {
      ParseIntOfTime(end);
    }
  }

  /** For a day of the displayed month of a four-digit year, the row's own date is that day,
      and its weekend shading agrees with the weekend test `getStats` applies to the day's text. */
  lemma {:induction false} RowWeekendAgrees(year: int, month: int, day: int)
    requires 1000 <= year <= 9999 && 0 <= month < 12 && 1 <= day <= DaysInMonth(year, month)
    ensures var dObj := NewDate(year, month, day);
            dObj == Date(year, month, day) &&
            (IsWeekend(FormatDate(year, month, day)) <==> Weekday(dObj) == 0 || Weekday(dObj) == 6)
  {
    var date := Date(year, month, day);
    DaysInMonthOfYear(year, month);
    NewDateOfValid(date);
    IsWeekendOfFormatted(date);
  }

  /** An entry for a 07:00 to 15:30 shift. */
  function ShiftEntry(): Entry {
    map["start" := "07:00", "end" := "15:30"]
  }

  /** The shift lasts 8.50 hours and ends at hour 15. */
  lemma {:induction false} ShiftEntryHours()
    ensures TimeField(Field(ShiftEntry(), "start")) && TimeField(Field(ShiftEntry(), "end"))
    ensures ShiftHundredths(Field(ShiftEntry(), "start"), Field(ShiftEntry(), "end")) == 850
    ensures TimeHour(Field(ShiftEntry(), "end")) == 15
  {
    assert Field(ShiftEntry(), "start") == "07:00" && Field(ShiftEntry(), "end") == "15:30";
    HoursExamples();
    DecimalTwo("15");
    assert "15:30"[..2] == "15";
  }

  /** Friday 1 March 2024 with that shift raises the warning. */
  lemma {:induction false} FridayExample()
    ensures TimeField(Field(ShiftEntry(), "start")) && TimeField(Field(ShiftEntry(), "end"))
    ensures FridayWarning(2024, 2, 1, ShiftEntry())
  {
    ShiftEntryHours();
    FridayWarningIff(2024, 2, 1, ShiftEntry());
    MarchFirst2024();
  }

  /** The same shift on Thursday 29 February 2024 does not. */
  lemma {:induction false} ThursdayExample()
    ensures TimeField(Field(ShiftEntry(), "start")) && TimeField(Field(ShiftEntry(), "end"))
    ensures !FridayWarning(2024, 1, 29, ShiftEntry())
  {
    ShiftEntryHours();
    FridayWarningIff(2024, 1, 29, ShiftEntry());
    MarchFirst2024();
  }

  lemma MarchFirst2024()
    ensures Weekday(NewDate(2024, 2, 1)) == 5 && Weekday(NewDate(2024, 1, 29)) == 4
  {
    NewDateOfValid(Date(2024, 2, 1));
    NewDateOfValid(Date(2024, 1, 29));
    Weekdays2024();
  }

  lemma Weekdays2024()
    ensures Weekday(Date(2024, 2, 1)) == 5 && Weekday(Date(2024, 1, 29)) == 4
  {
    assert MarchFirst(2024) == 19783 && MarchFirst(2023) == 19417 && MarchOffset(11) == 337;
    assert DayNumber(Date(2024, 2, 1)) == 19783 && DayNumber(Date(2024, 1, 29)) == 19782;
  }
}
