/** The ISO `YYYY-MM-DD` strings the timesheet uses as day keys: `formatDate`, `formatDateObj`,
    and the reading of such a string back into a date by `new Date(dateStr)` in `isWeekend`. */
module DateText {
  import opened Wrappers
  import opened Calendar

  predicate IsDigit(c: char) {
    '0' <= c <= '9'
  }

  predicate AllDigits(s: string) {
    forall i :: 0 <= i < |s| ==> IsDigit(s[i])
  }

  function DigitChar(n: int): (c: char)
    requires 0 <= n < 10
    ensures IsDigit(c) && c as int - '0' as int == n
  {
    "0123456789"[n]
  }

  function DigitValue(c: char): int
    requires IsDigit(c)
  {
    c as int - '0' as int
  }

  /** The value of a string of decimal digits (leading zeros allowed), as `Number` reads it. */
  function DecimalValue(s: string): nat
    requires AllDigits(s)
  {
    if s == [] then 0 else 10 * DecimalValue(s[..|s| - 1]) + DigitValue(s[|s| - 1])
  }

  /** The value of a two-digit string. */
  lemma {:induction false} DecimalTwo(s: string)
    requires |s| == 2 && AllDigits(s)
    ensures DecimalValue(s) == 10 * DigitValue(s[0]) + DigitValue(s[1])
  {
    var p := s[..1];
    assert p[..|p| - 1] == [] && p[|p| - 1] == s[0];
    assert DecimalValue(p) == DigitValue(s[0]);
  }

  /** Decimal text of a natural number without leading zeros, as JavaScript prints it. */
  function NatText(n: nat): (s: string)
    ensures |s| >= 1 && AllDigits(s)
    ensures s[0] == '0' ==> n == 0
    decreases n
  {
    if n < 10 then [DigitChar(n)] else NatText(n / 10) + [DigitChar(n % 10)]
  }

  /** Reading back the text of a number gives the number. */
  lemma {:induction false} NatTextValue(n: nat)
    ensures DecimalValue(NatText(n)) == n
    decreases n
  {
    if n >= 10 {
      var s := NatText(n);
      assert s[..|s| - 1] == NatText(n / 10);
      NatTextValue(n / 10);
    }
  }

  /** Four-digit years print as exactly four characters. */
  lemma {:induction false} NatTextFourDigits(n: nat)
    requires 1000 <= n <= 9999
    ensures |NatText(n)| == 4
  {
    var a := n / 10;
    var b := a / 10;
    var c := b / 10;
    assert 100 <= a <= 999 && 10 <= b <= 99 && 1 <= c <= 9;
    NatTextStep(n);
    NatTextStep(a);
    NatTextStep(b);
  }

  lemma {:induction false} NatTextStep(n: nat)
    requires n >= 10
    ensures |NatText(n)| == |NatText(n / 10)| + 1
  {
  }

  /** The integer that text made of an optional `-` and decimal digits denotes. */
  function IntValue(s: string): int
    requires s != [] && AllDigits(if s[0] == '-' then s[1..] else s)
  {
    if s[0] == '-' then -(DecimalValue(s[1..]) as int) else DecimalValue(s)
  }

  /** Template-literal text of an integer: `${n}`. */
  function IntText(n: int): string {
    if n < 0 then "-" + NatText(-n) else NatText(n)
  }

  /** The text of an integer is a `-` exactly for a negative number, then digits, and it reads
      back as the number. */
  lemma {:induction false} IntTextValue(n: int)
    ensures var s := IntText(n);
            s != [] && (s[0] == '-' <==> n < 0) &&
            AllDigits(if s[0] == '-' then s[1..] else s) &&
            IntValue(s) == n
  {
    if n < 0 {
      var t := NatText(-n);
      NatTextValue(-n);
      assert ("-" + t)[1..] == t;
    } else {
      NatTextValue(n);
    }
  }

  /** `s.padStart(2, '0')`: zeros in front up to length two; a longer `s` is left alone. */
  function PadTwo(s: string): string {
    if |s| >= 2 then s else if |s| == 1 then "0" + s else "00"
  }

  /** Padding keeps `s` as the tail, only adds zeros, and stops at length two. */
  lemma {:induction false} PadTwoShape(s: string)
    ensures var r := PadTwo(s);
            |r| == (if |s| >= 2 then |s| else 2) &&
            r[|r| - |s|..] == s &&
            forall i :: 0 <= i < |r| - |s| ==> r[i] == '0'
  {
    var r := PadTwo(s);
    if |s| == 1 {
      assert r[1..] == s;
    }
  }

  /** `s` is a two-digit field whose value is `v`. */
  predicate TwoDigits(s: string, v: int) {
    |s| == 2 && AllDigits(s) && DecimalValue(s) == v
  }

  /** Two-digit fields (months 1..12, days 1..31) are exactly two digits and read back. */
  lemma {:induction false} PadTwoValue(n: nat)
    requires n <= 99
    ensures TwoDigits(PadTwo(IntText(n)), n)
  {
    NatTextValue(n);
    var p := PadTwo(IntText(n));
    if n < 10 {
      assert p == "0" + NatText(n);
      assert p[..1] == "0";
    } else {
      assert NatText(n) == NatText(n / 10) + [DigitChar(n % 10)];
      assert |NatText(n)| == 2;
    }
  }

  /** `formatDate(y, m, d)`: the year, the 1-based month and the day, zero-padded, joined by '-'. */
  function FormatDate(y: int, m: int, d: int): string {
    IntText(y) + "-" + PadTwo(IntText(m + 1)) + "-" + PadTwo(IntText(d))
  }

  /** `formatDateObj(date)`: the same text built from the fields of a `Date`. */
  function FormatDateObj(date: Date): string {
    FormatDate(date.year, date.month0, date.day)
  }

  /** The `-MM-DD` part of a formatted day. */
  function MonthDayText(m: int, d: int): string {
    "-" + PadTwo(IntText(m + 1)) + "-" + PadTwo(IntText(d))
  }

  lemma {:induction false} FormatDateSplit(y: int, m: int, d: int)
    ensures FormatDate(y, m, d) == IntText(y) + MonthDayText(m, d)
  {
    var ys, mm, dd := IntText(y), PadTwo(IntText(m + 1)), PadTwo(IntText(d));
    ConcatAssoc(ys, "-", mm);
    ConcatAssoc(ys, "-" + mm, "-");
    ConcatAssoc(ys, "-" + mm + "-", dd);
  }

  /** The whole text of a formatted day: the year's text, `-`, two digits that read as the
      1-based month, `-`, and two digits that read as the day. */
  lemma {:induction false} FormatDateShape(y: int, m: int, d: int)
    requires 0 <= m < 12 && 1 <= d <= 31
    ensures var s, n := FormatDate(y, m, d), |IntText(y)|;
            |s| == n + 6 && s[..n] == IntText(y) && s[n] == '-' && s[n + 3] == '-' &&
            TwoDigits(s[n + 1..n + 3], m + 1) && TwoDigits(s[n + 4..], d)
  {
    var ys, t := IntText(y), MonthDayText(m, d);
    FormatDateSplit(y, m, d);
    MonthDayShape(m, d);
    var s := ys + t;
    var n := |ys|;
    assert s[n + 1..n + 3] == t[1..3];
    assert s[n + 4..] == t[4..];
  }

  lemma {:induction false} ConcatAssoc(a: string, b: string, c: string)
    ensures (a + b) + c == a + (b + c)
  {
  }

  /** `-MM-DD` is six characters: the two separators and two two-digit numbers. */
  lemma {:induction false} MonthDayShape(m: int, d: int)
    requires 0 <= m < 12 && 1 <= d <= 31
    ensures var t := MonthDayText(m, d);
            |t| == 6 && t[0] == '-' && t[3] == '-' && TwoDigits(t[1..3], m + 1) && TwoDigits(t[4..], d)
  {
    PadTwoValue(m + 1);
    PadTwoValue(d);
    SeparatedPair(PadTwo(IntText(m + 1)), PadTwo(IntText(d)));
  }

  lemma {:induction false} SeparatedPair(mm: string, dd: string)
    requires |mm| == 2 && |dd| == 2
    ensures var t := "-" + mm + "-" + dd;
            |t| == 6 && t[0] == '-' && t[3] == '-' && t[1..3] == mm && t[4..] == dd
  {
    var t := "-" + mm + "-" + dd;
    assert t[1..3] == mm by {
      assert t[1] == mm[0] && t[2] == mm[1];
    }
    assert t[4..] == dd by {
      assert t[4] == dd[0] && t[5] == dd[1];
    }
  }

  /** A day of a four-digit year formats as the 10-character `YYYY-MM-DD`. */
  lemma {:induction false} FormatDateLength(y: int, m: int, d: int)
    requires 1000 <= y <= 9999 && 0 <= m < 12 && 1 <= d <= 31
    ensures |FormatDate(y, m, d)| == 10
  {
    NatTextFourDigits(y);
    FormatDateSplit(y, m, d);
    MonthDayShape(m, d);
  }

  /** Within one year, two days have the same text exactly when they have the same month and day. */
  lemma {:induction false} FormatDateIff(y: int, m1: int, d1: int, m2: int, d2: int)
    requires 0 <= m1 < 12 && 1 <= d1 <= 31 && 0 <= m2 < 12 && 1 <= d2 <= 31
    ensures FormatDate(y, m1, d1) == FormatDate(y, m2, d2) <==> m1 == m2 && d1 == d2
  {
    FormatDateSplit(y, m1, d1);
    FormatDateSplit(y, m2, d2);
    var ys := IntText(y);
    var t1, t2 := MonthDayText(m1, d1), MonthDayText(m2, d2);
    assert (ys + t1)[|ys|..] == t1 && (ys + t2)[|ys|..] == t2;
    MonthDayShape(m1, d1);
    MonthDayShape(m2, d2);
  }

  /** `new Date(dateStr)` for a date-only string: exactly `YYYY-MM-DD` with a month 01..12 and a
      day 01..31 is read (as a day of the proleptic calendar, a day past the month's end counting
      on into the next month). Only this form is modelled: the standard's other forms (`YYYY`,
      `YYYY-MM`, date-times, six-digit years) and any other text read as an invalid date here;
      `isWeekend` only ever receives `formatDate` output. */
  function ParseIso(s: string): Option<Date> {
    if |s| == 10 && s[4] == '-' && s[7] == '-' &&
       AllDigits(s[..4]) && AllDigits(s[5..7]) && AllDigits(s[8..])
    then
      var y, mo, d := DecimalValue(s[..4]), DecimalValue(s[5..7]), DecimalValue(s[8..]);
      if 1 <= mo <= 12 && 1 <= d <= 31 then Some(MakeDay(y, mo - 1, d)) else None
    else None
  }

  /** Formatting a date of a four-digit year and reading it back gives the date. */
  lemma {:induction false} ParseFormat(date: Date)
    requires Valid(date) && 1000 <= date.year <= 9999
    ensures ParseIso(FormatDateObj(date)) == Some(date)
  {
    var s := FormatDateObj(date);
    var ys, t := IntText(date.year), MonthDayText(date.month0, date.day);
    NatTextFourDigits(date.year);
    NatTextValue(date.year);
    FormatDateSplit(date.year, date.month0, date.day);
    MonthDayShape(date.month0, date.day);
    assert s == ys + t;
    assert s[..4] == ys && s[4] == t[0] && s[7] == t[3];
    assert s[5..7] == t[1..3] && s[8..] == t[4..];
    MakeDayOfValid(date);
  }

  /** `isWeekend(dateStr)`: Saturday or Sunday; an unreadable string gives a NaN weekday,
      which is neither. */
  function IsWeekend(dateStr: string): (r: bool)
    ensures r ==> ParseIso(dateStr).Some?
  {
    match ParseIso(dateStr)
    case None => false
    case Some(date) => Weekday(date) == 0 || Weekday(date) == 6
  }

  /** For a day of a four-digit year, `isWeekend` of its text is the weekday of the day. */
  lemma {:induction false} IsWeekendOfFormatted(date: Date)
    requires Valid(date) && 1000 <= date.year <= 9999
    ensures IsWeekend(FormatDateObj(date)) <==> (Weekday(date) == 0 || Weekday(date) == 6)
  {
    ParseFormat(date);
  }
}
