/** `calculateHours`: the length of a shift given its start and end as `HH:MM` strings, in
    hundredths of an hour: the integer is 100 times the decimal that `(diff / 60).toFixed(2)`
    prints, of which `Number` then takes the nearest double. */
module Hours {
  import opened DateText

  /** What an `<input type="time">` holds when filled in: `HH:MM` with `HH` < 24 and `MM` < 60. */
  predicate WellFormedTime(s: string) {
    |s| == 5 && s[2] == ':' && AllDigits(s[..2]) && AllDigits(s[3..]) &&
    DecimalValue(s[..2]) < 24 && DecimalValue(s[3..]) < 60
  }

  /** A time field as the timesheet stores it: empty, or a well-formed time. */
  predicate TimeField(s: string) {
    s == "" || WellFormedTime(s)
  }

  /** `const [h, m] = s.split(':').map(Number)`, as minutes since midnight. */
  function TimeMinutes(s: string): (r: int)
    requires WellFormedTime(s)
    ensures 0 <= r < 24 * 60
  {
    60 * DecimalValue(s[..2]) + DecimalValue(s[3..])
  }

  /** The hour part of a well-formed time. */
  function TimeHour(s: string): int
    requires WellFormedTime(s)
  {
    DecimalValue(s[..2])
  }

  /** Minutes from `start` to `end` on a 24-hour clock face: an end before the start is
      taken to be on the next day. */
  function ElapsedMinutes(start: int, end: int): int {
    (end - start) % (24 * 60)
  }

  /** `Number((diff / 60).toFixed(2)) * 100`: `toFixed(2)` rounds `100 * diff / 60` to the
      nearest integer, halves upwards. */
  function Hundredths(diff: int): int {
    (100 * diff + 30) / 60
  }

  /** What `calculateHours(s, e)` returns: 0 when either field is empty, else the elapsed time. */
  function ShiftHundredths(s: string, e: string): (r: int)
    requires TimeField(s) && TimeField(e)
    ensures 0 <= r < 2400
  {
    if s == "" || e == "" then 0
    else
      var start, end := TimeMinutes(s), TimeMinutes(e);
      ElapsedWraps(start, end);
      HundredthsRange(ElapsedMinutes(start, end));
      Hundredths(ElapsedMinutes(start, end))
  }

  /** `calculateHours(s, e)`. */
  method CalculateHours(s: string, e: string) returns (h: int)
    requires TimeField(s) && TimeField(e)
    ensures h == ShiftHundredths(s, e)
    ensures 0 <= h < 2400
  {
    if s == "" || e == "" {
      return 0;
    }
    var startMinutes, endMinutes := TimeMinutes(s), TimeMinutes(e);
    var diff := endMinutes - startMinutes;
    if diff < 0 {
      diff := diff + 24 * 60;
    }
    ElapsedWraps(startMinutes, endMinutes);
    h := Hundredths(diff);
  }

  /** Over one day, the elapsed minutes are the plain difference, plus a day when the end is
      earlier than the start. */
  lemma ElapsedWraps(start: int, end: int)
    requires 0 <= start < 24 * 60 && 0 <= end < 24 * 60
    ensures ElapsedMinutes(start, end) == if end >= start then end - start else end - start + 24 * 60
    ensures 0 <= ElapsedMinutes(start, end) < 24 * 60
    ensures ElapsedMinutes(start, end) == 0 <==> start == end
  {
    if end < start {
      assert end - start == -1 * (24 * 60) + (end - start + 24 * 60);
    }
  }

  /** The rounding is the nearest hundredth: within a third of a hundredth of `100 * diff / 60`,
      so there is never a tie to break. It is the `(5 * diff + 1) / 3` of integer division. */
  lemma HundredthsNearest(diff: int)
    ensures -1 <= 3 * Hundredths(diff) - 5 * diff <= 1
    ensures Hundredths(diff) == (5 * diff + 1) / 3
  {
    var r := Hundredths(diff);
    assert 60 * r <= 100 * diff + 30 < 60 * r + 60;
    var q := (5 * diff + 1) / 3;
    assert 3 * q <= 5 * diff + 1 < 3 * q + 3;
  }

  /** Only one integer is that close to `100 * diff / 60`. */
  lemma HundredthsUnique(diff: int, r: int)
    requires -1 <= 3 * r - 5 * diff <= 1
    ensures r == Hundredths(diff)
  {
    HundredthsNearest(diff);
  }

  /** A shift shorter than a day lasts less than 24 hours. */
  lemma HundredthsRange(diff: int)
    requires 0 <= diff < 24 * 60
    ensures 0 <= Hundredths(diff) < 2400
    ensures Hundredths(diff) == 0 <==> diff == 0
  {
    HundredthsNearest(diff);
  }

  /** Two well-formed times with the same minutes are the same string. */
  lemma {:induction false} TimeMinutesInjective(s: string, t: string)
    requires WellFormedTime(s) && WellFormedTime(t) && TimeMinutes(s) == TimeMinutes(t)
    ensures s == t
  {
    TwoDigitsInjective(s[..2], t[..2]);
    TwoDigitsInjective(s[3..], t[3..]);
    assert s == s[..2] + [':'] + s[3..];
    assert t == t[..2] + [':'] + t[3..];
  }

  lemma {:induction false} TwoDigitsInjective(a: string, b: string)
    requires |a| == 2 && |b| == 2 && AllDigits(a) && AllDigits(b) && DecimalValue(a) == DecimalValue(b)
    ensures a == b
  {
    DecimalTwo(a);
    DecimalTwo(b);
  }

  /** `calculateHours(s, e)` is 0 whenever a field is empty, 0 exactly when both times are the
      same, and otherwise the elapsed time, wrapping past midnight, by the nearest hundredth. */
  lemma {:induction false} HoursProperties(s: string, e: string)
    requires TimeField(s) && TimeField(e)
    ensures s == "" || e == "" ==> ShiftHundredths(s, e) == 0
    ensures s != "" && e != "" ==> (ShiftHundredths(s, e) == 0 <==> s == e)
    ensures s != "" && e != "" ==>
              var start, end := TimeMinutes(s), TimeMinutes(e);
              var diff := if end >= start then end - start else end - start + 24 * 60;
              -1 <= 3 * ShiftHundredths(s, e) - 5 * diff <= 1
    ensures 0 <= ShiftHundredths(s, e) < 2400
  {
    if s != "" && e != "" {
      var start, end := TimeMinutes(s), TimeMinutes(e);
      ElapsedWraps(start, end);
      HundredthsRange(ElapsedMinutes(start, end));
      HundredthsNearest(ElapsedMinutes(start, end));
      if start == end {
        TimeMinutesInjective(s, e);
      }
    }
  }

  /** The minutes of a few concrete times. */
  lemma TimeExamples()
    ensures WellFormedTime("07:00") && TimeMinutes("07:00") == 420
    ensures WellFormedTime("15:30") && TimeMinutes("15:30") == 930
    ensures WellFormedTime("22:00") && TimeMinutes("22:00") == 1320
    ensures WellFormedTime("06:00") && TimeMinutes("06:00") == 360
  {
    TimeExample("07:00", 7, 0);
    TimeExample("15:30", 15, 30);
    TimeExample("22:00", 22, 0);
    TimeExample("06:00", 6, 0);
  }

  lemma {:induction false} TimeExample(s: string, h: int, m: int)
    requires |s| == 5 && s[2] == ':' && 0 <= h < 24 && 0 <= m < 60
    requires s[0] == DigitChar(h / 10) && s[1] == DigitChar(h % 10)
    requires s[3] == DigitChar(m / 10) && s[4] == DigitChar(m % 10)
    ensures WellFormedTime(s) && TimeMinutes(s) == 60 * h + m
  {
    DecimalTwo(s[..2]);
    DecimalTwo(s[3..]);
  }

  /** A shift from 07:00 to 15:30 lasts 8.50 hours; one from 22:00 to 06:00 lasts 8. */
  lemma HoursExamples()
    ensures WellFormedTime("07:00") && WellFormedTime("15:30") && ShiftHundredths("07:00", "15:30") == 850
    ensures WellFormedTime("22:00") && WellFormedTime("06:00") && ShiftHundredths("22:00", "06:00") == 800
  {
    TimeExamples();
  }
}
