/** `getEasterDate`: Gregorian Easter Sunday by the anonymous (Meeus/Jones/Butcher)
    algorithm, in the integer arithmetic JavaScript performs. */
module Easter {
  import opened Calendar

  /** JavaScript's `a % n` for a positive `n`: `a` less a multiple of `n`, smaller than `n` in
      magnitude, with the sign of `a` (a zero remainder aside). */
  function JsRem(a: int, n: int): (r: int)
    requires n > 0
    ensures -n < r < n
    ensures a >= 0 ==> r >= 0
    ensures a < 0 ==> r <= 0
    ensures (a - r) % n == 0
  {
    if a >= 0 then
      DivMod(a, n);
      ModOfMultiple(a - a % n, n, a / n);
      a % n
    else
      DivMod(-a, n);
      ModOfMultiple(a + (-a) % n, n, -((-a) / n));
      -((-a) % n)
  }

  /** Euclidean division: `x` is `n` times its quotient plus its remainder. */
  lemma DivMod(x: int, n: int)
    requires n > 0
    ensures x == n * (x / n) + x % n && 0 <= x % n < n
  {
  }

  /** A multiple of `n` leaves no remainder. */
  lemma {:induction false} ModOfMultiple(x: int, n: int, q: int)
    requires n > 0 && x == n * q
    ensures x % n == 0
  {
    DivMod(x, n);
    assert x % n == n * q - n * (x / n) == n * (q - x / n);
    MultipleBetween(n, q - x / n, x % n);
  }

  /** The only multiple of `n` strictly between `-n` and `n` is 0. */
  lemma {:induction false} MultipleBetween(n: int, k: int, r: int)
    requires n > 0 && r == n * k && -n < r < n
    ensures r == 0
  {
    if k >= 1 {
      assert n * k == n + n * (k - 1);
    } else if k <= -1 {
      assert n * k == -n + n * (k + 1);
    }
  }

  /** On a non-negative left operand JavaScript's `%` is the mathematical remainder. */
  lemma JsRemOfNatural(a: int, n: int)
    requires a >= 0 && n > 0
    ensures JsRem(a, n) == a % n
  {
  }

  /** Those properties determine the value: the truncated remainder is the only such number. */
  lemma {:induction false} JsRemUnique(a: int, n: int, r: int)
    requires n > 0 && -n < r < n && (a >= 0 ==> r >= 0) && (a < 0 ==> r <= 0) && (a - r) % n == 0
    ensures r == JsRem(a, n)
  {
    var s := JsRem(a, n);
    DivMod(a - r, n);
    DivMod(a - s, n);
    var k, j := (a - r) / n, (a - s) / n;
    assert s - r == n * k - n * j == n * (k - j);
    MultipleBetween(n, k - j, s - r);
  }

  /** The quantity `h + l - 7 * m + 114` of the algorithm, from which month and day are read. */
  function EasterCount(year: int): int {
    var a, b, c := JsRem(year, 19), year / 100, JsRem(year, 100);
    var d, e, f := b / 4, JsRem(b, 4), (b + 8) / 25;
    var g := (b - f + 1) / 3;
    var h := JsRem(19 * a + b - d - g + 15, 30);
    var i, k := c / 4, JsRem(c, 4);
    var l := JsRem(32 + 2 * e + 2 * i - h - k, 7);
    var m := (a + 11 * h + 22 * l) / 451;
    h + l - 7 * m + 114
  }

  /** `getEasterDate(year)`: `new Date(year, month, day)` with a 0-based month. */
  function EasterDate(year: int): (r: Date)
    ensures Valid(r)
  {
    DateFromCount(year, EasterCount(year))
  }

  /** Month `n / 31 - 1` and day `n % 31 + 1` of the year, through the `Date` constructor. */
  function DateFromCount(year: int, n: int): (r: Date)
    ensures Valid(r)
  {
    NewDate(year, n / 31 - 1, JsRem(n, 31) + 1)
  }

  /** Counts 114..123 name 22..31 March and counts 124..148 name 1..25 April; either way
      the date lies `n - 93` days after 1 March. */
  lemma DateFromCountInSpring(year: int, n: int)
    requires year >= 100 && 114 <= n <= 148
    ensures var e := DateFromCount(year, n);
            e.year == year &&
            ((e.month0 == 2 && e.day == n - 92) || (e.month0 == 3 && e.day == n - 123)) &&
            DayNumber(e) == MarchFirst(year) + n - 93
  {
    if n <= 123 {
      assert n / 31 - 1 == 2 && JsRem(n, 31) + 1 == n - 92;
      NewDateOfValid(Date(year, 2, n - 92));
    } else {
      assert n / 31 - 1 == 3 && JsRem(n, 31) + 1 == n - 123;
      NewDateOfValid(Date(year, 3, n - 123));
    }
  }

  /** For every year the constructor does not remap, the count lies between the counts of
      22 March (114) and 25 April (148). */
  lemma EasterCountRange(year: int)
    requires year >= 100
    ensures 114 <= EasterCount(year) <= 148
  {
    var a, b, c := year % 19, year / 100, year % 100;
    var d, e, f := b / 4, b % 4, (b + 8) / 25;
    var g := (b - f + 1) / 3;
    assert 19 * a + b - d - g + 15 >= 0;
    var h := (19 * a + b - d - g + 15) % 30;
    var i, k := c / 4, c % 4;
    var l := (32 + 2 * e + 2 * i - h - k) % 7;
    var m := (a + 11 * h + 22 * l) / 451;
    assert EasterCount(year) == h + l - 7 * m + 114;
    assert 0 <= a + 11 * h + 22 * l < 2 * 451;
    if m == 0 {
      assert h + l <= 34;
    } else {
      assert h + l >= 7;
    }
  }

  /** Easter falls between 22 March and 25 April of its own year. */
  lemma EasterInSpring(year: int)
    requires year >= 100
    ensures EasterDate(year).year == year
    ensures var e := EasterDate(year);
            (e.month0 == 2 && 22 <= e.day <= 31) || (e.month0 == 3 && 1 <= e.day <= 25)
  {
    EasterCountRange(year);
    DateFromCountInSpring(year, EasterCount(year));
  }

  /** The algorithm's `l` is chosen so that the date it yields is always a Sunday. */
  lemma EasterIsSunday(year: int)
    requires year >= 100
    ensures Weekday(EasterDate(year)) == 0
  {
    EasterCountRange(year);
    SundayCount(year);
    SundayFromCount(year, EasterCount(year));
  }

  /** A count whose day number is a Sunday's names a Sunday. */
  lemma SundayFromCount(year: int, n: int)
    requires year >= 100 && 114 <= n <= 148
    requires (MarchFirst(year) + n - 93 + 4) % 7 == 0
    ensures Weekday(DateFromCount(year, n)) == 0
  {
    DateFromCountInSpring(year, n);
  }

  /** The day count of Easter, taken from 1970-01-01 (a Thursday), plus 4 is a multiple of 7. */
  lemma SundayCount(year: int)
    requires year >= 100
    ensures (MarchFirst(year) + EasterCount(year) - 93 + 4) % 7 == 0
  {
    var a, b, c := year % 19, year / 100, year % 100;
    var d, e, f := b / 4, b % 4, (b + 8) / 25;
    var g := (b - f + 1) / 3;
    assert 19 * a + b - d - g + 15 >= 0;
    var h := (19 * a + b - d - g + 15) % 30;
    var i, k := c / 4, c % 4;
    var l := (32 + 2 * e + 2 * i - h - k) % 7;
    var m := (a + 11 * h + 22 * l) / 451;
    assert EasterCount(year) == h + l - 7 * m + 114;
    // The year in centuries and leftover years, and both split again by four.
    assert year == 100 * b + c && c == 4 * i + k && b == 4 * d + e;
    assert year / 4 == 25 * b + i && year / 400 == d;
    var t := (32 + 2 * e + 2 * i - h - k) / 7;
    assert l == 32 + 2 * e + 2 * i - h - k - 7 * t;
    var q := 20871 * d + 5218 * e + 209 * i + 52 * k - t - m - 102773;
    assert MarchFirst(year) + EasterCount(year) - 93 + 4 == 7 * q;
    MultipleOfSeven(MarchFirst(year) + EasterCount(year) - 93 + 4, q);
  }

  lemma MultipleOfSeven(x: int, q: int)
    requires x == 7 * q
    ensures x % 7 == 0
  {
  }

  /** Easter 2024 was on 31 March. */
  lemma Easter2024()
    ensures EasterDate(2024) == Date(2024, 2, 31)
  {
    EasterCount2024();
    DateFromCountInSpring(2024, 123);
  }

  /** Easter 2025 was on 20 April. */
  lemma Easter2025()
    ensures EasterDate(2025) == Date(2025, 3, 20)
  {
    EasterCount2025();
    DateFromCountInSpring(2025, 143);
  }

  lemma EasterCount2024()
    ensures EasterCount(2024) == 123
  {
    assert JsRem(2024, 19) == 10 && JsRem(2024, 100) == 24 && JsRem(20, 4) == 0;
    assert JsRem(214, 30) == 4 && JsRem(40, 7) == 5;
  }

  lemma EasterCount2025()
    ensures EasterCount(2025) == 143
  {
    assert JsRem(2025, 19) == 11 && JsRem(2025, 100) == 25 && JsRem(20, 4) == 0;
    assert JsRem(233, 30) == 23 && JsRem(20, 7) == 6;
  }
}
