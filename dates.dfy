/**
 * Local calendar dates, in place of JavaScript `Date` objects.
 *
 * A date is the triple that `new Date(year, monthIndex, day)` is built from,
 * with `year` the full year the constructor uses (`FullYear` below):
 * the month is 0-based (January is 0) and the day is 1-based. Comparing two
 * `Date` objects compares their time values; for valid dates that is the
 * lexicographic order on the triples (`DayNumberOrder` below), which is how
 * the rest of the model compares dates.
 */
module Dates {
  import opened Wrappers

  datatype Date = Date(year: int, month: int, day: int)

  // ---------------------------------------------------------------------------
  // Gregorian calendar arithmetic (proleptic, as JavaScript uses)
  // ---------------------------------------------------------------------------

  predicate IsLeapYear(y: int) {
    y % 4 == 0 && (y % 100 != 0 || y % 400 == 0)
  }

  /**
   * `new Date(year, m + 1, 0).getDate()`: the number of days of month `m` of
   * the full year `y` (callers pass `FullYear(year)`).
   */
  function DaysInMonth(y: int, m: int): (n: int)
    requires 0 <= m < 12
    ensures 28 <= n <= 31
    ensures n == 29 <==> m == 1 && IsLeapYear(y)
  {
    if m == 1 then (if IsLeapYear(y) then 29 else 28)
    else if m == 3 || m == 5 || m == 8 || m == 10 then 30
    else 31
  }

  function YearLength(y: int): int {
    if IsLeapYear(y) then 366 else 365
  }

  /** Days of year `y` that come before the 1st of month `m`. */
  function DaysBeforeMonth(y: int, m: int): (n: int)
    requires 0 <= m <= 12
    ensures 28 * m <= n <= 31 * m
  {
    if m == 0 then 0 else DaysBeforeMonth(y, m - 1) + DaysInMonth(y, m - 1)
  }

  /** Days from 1 January of year 1 to 1 January of year `y`. */
  function DaysBeforeYear(y: int): int {
    var p := y - 1;
    365 * p + p / 4 - p / 100 + p / 400
  }

  /**
   * The year `new Date(y, m, d)` builds for an integer `y`: a year from 0 to
   * 99 stands for 1900 to 1999, any other year for itself.
   */
  function FullYear(y: int): (r: int)
    ensures !(0 <= r <= 99)
    ensures r % 100 == y % 100
    ensures (y < 0 || 99 < y) ==> r == y
  {
    if 0 <= y <= 99 then 1900 + y else y
  }

  predicate Valid(d: Date) {
    0 <= d.month < 12 && 1 <= d.day <= DaysInMonth(d.year, d.month)
  }

  /** The number of days from 1 January of year 1 to `d`; the model's time value. */
  function DayNumber(d: Date): int
    requires Valid(d)
  {
    DaysBeforeYear(d.year) + DaysBeforeMonth(d.year, d.month) + d.day - 1
  }

  /** Strictly earlier, as `<` on two JavaScript dates. */
  predicate Before(a: Date, b: Date) {
    a.year < b.year ||
    (a.year == b.year && (a.month < b.month || (a.month == b.month && a.day < b.day)))
  }

  /** Not later, as `<=` on two JavaScript dates. */
  predicate NotAfter(a: Date, b: Date) {
    !Before(b, a)
  }

  /**
   * `new Date(year, m, 1)` with `y == FullYear(year)`: the first day of the
   * month, no later than any of its days.
   */
  function MonthStart(y: int, m: int): (d: Date)
    requires 0 <= m < 12
    ensures Valid(d) && d.year == y && d.month == m && d.day == 1
    ensures forall k :: 1 <= k <= DaysInMonth(y, m) ==> NotAfter(d, Date(y, m, k))
  {
    Date(y, m, 1)
  }

  /**
   * `new Date(year, m + 1, 0)` with `y == FullYear(year)`: the last day of
   * the month, no earlier than any of its days.
   */
  function MonthEnd(y: int, m: int): (d: Date)
    requires 0 <= m < 12
    ensures Valid(d) && d.year == y && d.month == m
    ensures forall k :: 1 <= k <= DaysInMonth(y, m) ==> NotAfter(Date(y, m, k), d)
  {
    Date(y, m, DaysInMonth(y, m))
  }

  lemma {:induction false} DaysInYear(y: int)
    ensures DaysBeforeMonth(y, 12) == YearLength(y)
  {
    assert DaysBeforeMonth(y, 1) == 31;
    assert DaysBeforeMonth(y, 2) == 31 + DaysInMonth(y, 1);
    assert DaysBeforeMonth(y, 3) == DaysBeforeMonth(y, 2) + 31;
    assert DaysBeforeMonth(y, 4) == DaysBeforeMonth(y, 2) + 61;
    assert DaysBeforeMonth(y, 5) == DaysBeforeMonth(y, 2) + 92;
    assert DaysBeforeMonth(y, 6) == DaysBeforeMonth(y, 2) + 122;
    assert DaysBeforeMonth(y, 7) == DaysBeforeMonth(y, 2) + 153;
    assert DaysBeforeMonth(y, 8) == DaysBeforeMonth(y, 2) + 184;
    assert DaysBeforeMonth(y, 9) == DaysBeforeMonth(y, 2) + 214;
    assert DaysBeforeMonth(y, 10) == DaysBeforeMonth(y, 2) + 245;
    assert DaysBeforeMonth(y, 11) == DaysBeforeMonth(y, 2) + 275;
  }

  lemma {:induction false} DaysBeforeMonthGrows(y: int, m1: int, m2: int)
    requires 0 <= m1 < m2 <= 12
    ensures DaysBeforeMonth(y, m1) + DaysInMonth(y, m1) <= DaysBeforeMonth(y, m2)
    decreases m2
  {
    if m1 < m2 - 1 {
      DaysBeforeMonthGrows(y, m1, m2 - 1);
    }
  }

  lemma DaysBeforeNextYear(y: int)
    ensures DaysBeforeYear(y + 1) == DaysBeforeYear(y) + YearLength(y)
  {
    DivStep(y, 4);
    DivStep(y, 100);
    DivStep(y, 400);
    if y % 400 == 0 {
      Multiple400(y);
    }
    if y % 100 == 0 {
      Multiple100(y);
    }
  }

  /** A multiple of 400 is a multiple of 100. */
  lemma Multiple400(y: int)
    requires y % 400 == 0
    ensures y % 100 == 0
  {
    assert y == 100 * (4 * (y / 400));
  }

  /** A multiple of 100 is a multiple of 4. */
  lemma Multiple100(y: int)
    requires y % 100 == 0
    ensures y % 4 == 0
  {
    assert y == 4 * (25 * (y / 100));
  }

  /** Going from `y - 1` to `y` adds one to `y / k` exactly when `k` divides `y`. */
  lemma DivStep(y: int, k: int)
    requires k == 4 || k == 100 || k == 400
    ensures y / k - (y - 1) / k == if y % k == 0 then 1 else 0
  {
    var q := y / k;
    if y % k == 0 {
      assert y - 1 == k * (q - 1) + (k - 1);
    } else {
      assert y - 1 == k * q + (y % k - 1);
    }
  }

  lemma {:induction false} DaysBeforeYearGrows(y1: int, y2: int)
    requires y1 < y2
    ensures DaysBeforeYear(y1) + YearLength(y1) <= DaysBeforeYear(y2)
    decreases y2 - y1
  {
    DaysBeforeNextYear(y1);
    if y1 + 1 < y2 {
      DaysBeforeYearGrows(y1 + 1, y2);
    }
  }

  /** A valid date's day number lies inside its own year. */
  lemma DayNumberInYear(d: Date)
    requires Valid(d)
    ensures DaysBeforeYear(d.year) <= DayNumber(d) < DaysBeforeYear(d.year) + YearLength(d.year)
  {
    DaysInYear(d.year);
    assert DaysBeforeMonth(d.year, 12) == DaysBeforeMonth(d.year, 11) + DaysInMonth(d.year, 11);
    if d.month < 11 {
      DaysBeforeMonthGrows(d.year, d.month, 12);
    }
  }

  /**
   * Comparing two valid dates lexicographically is comparing their time
   * values, which is what `<`, `<=` and `getTime()` on `Date` objects do.
   */
  lemma DayNumberOrder(a: Date, b: Date)
    requires Valid(a) && Valid(b)
    ensures Before(a, b) <==> DayNumber(a) < DayNumber(b)
    ensures a == b <==> DayNumber(a) == DayNumber(b)
  {
    if a.year < b.year {
      DayNumberInYear(a);
      DayNumberInYear(b);
      DaysBeforeYearGrows(a.year, b.year);
    } else if b.year < a.year {
      DayNumberInYear(a);
      DayNumberInYear(b);
      DaysBeforeYearGrows(b.year, a.year);
    } else if a.month < b.month {
      DaysBeforeMonthGrows(a.year, a.month, b.month);
    } else if b.month < a.month {
      DaysBeforeMonthGrows(a.year, b.month, a.month);
    }
  }

  /** `getDay()`: 0 is Sunday, ..., 6 is Saturday (1 January of year 1 is a Monday). */
  function Weekday(d: Date): (w: int)
    requires Valid(d)
    ensures 0 <= w < 7
  {
    (DayNumber(d) + 1) % 7
  }

  /**
   * `new Date(year, m, 1).getDay()` with `y == FullYear(year)`: the weekday of
   * the 1st of the month.
   */
  function FirstWeekday(y: int, m: int): (w: int)
    requires 0 <= m < 12
    ensures 0 <= w <= 6
  {
    Weekday(MonthStart(y, m))
  }

  /** The Unix epoch, 1 January 1970, was a Thursday. */
  lemma EpochIsThursday()
    ensures Weekday(Date(1970, 0, 1)) == 4
  {
    assert DaysBeforeYear(1970) == 719162;
  }

  lemma ModSevenShift(a: int, b: int)
    ensures (a + b) % 7 == (a % 7 + b) % 7
  {
    var q := a / 7;
    assert a == 7 * q + a % 7;
    assert a + b == 7 * q + (a % 7 + b);
  }

  /** The 1st of each month falls `DaysInMonth` weekdays after the 1st of the month before. */
  lemma {:induction false} FirstWeekdayAdvances(y: int, m: int)
    requires 0 <= m < 12
    ensures m < 11 ==> FirstWeekday(y, m + 1) == (FirstWeekday(y, m) + DaysInMonth(y, m)) % 7
    ensures m == 11 ==> FirstWeekday(y + 1, 0) == (FirstWeekday(y, m) + DaysInMonth(y, m)) % 7
  {
    var n := DayNumber(MonthStart(y, m));
    var next := if m < 11 then MonthStart(y, m + 1) else MonthStart(y + 1, 0);
    if m == 11 {
      DaysInYear(y);
      DaysBeforeNextYear(y);
    }
    assert DayNumber(next) == n + DaysInMonth(y, m);
    ModSevenShift(n + 1, DaysInMonth(y, m));
  }

  // ---------------------------------------------------------------------------
  // Text form: "YYYY-MM-DD"
  // ---------------------------------------------------------------------------

  predicate IsDigit(c: char) {
    '0' <= c <= '9'
  }

  predicate AllDigits(s: string) {
    forall i :: 0 <= i < |s| ==> IsDigit(s[i])
  }

  /** `Number(s)` for a string of decimal digits. */
  function DigitsValue(s: string): (n: nat)
    requires AllDigits(s)
  {
    if s == [] then 0 else 10 * DigitsValue(s[..|s| - 1]) + (s[|s| - 1] as int - '0' as int)
  }

  function DigitChar(k: int): (c: char)
    requires 0 <= k < 10
    ensures IsDigit(c) && c as int - '0' as int == k
  {
    ('0' as int + k) as char
  }

  /** `String(n)` for a natural number. */
  function Decimal(n: nat): (s: string)
    decreases n
  {
    if n < 10 then [DigitChar(n)] else Decimal(n / 10) + [DigitChar(n % 10)]
  }

  /** `String(n).padStart(2, '0')`. */
  function Pad2(n: nat): string {
    if n < 10 then "0" + Decimal(n) else Decimal(n)
  }

  /**
   * `${year}-${pad2(month + 1)}-${pad2(day)}`: the text form of a day cell's
   * date. It ends in "-MM-DD", the two-digit month and day, after the year
   * in decimal (with a minus sign when negative).
   */
  function FormatLocalDate(d: Date): (r: string)
    requires Valid(d)
    ensures |r| >= 7 && r[|r| - 6] == '-' && r[|r| - 3] == '-'
    ensures AllDigits(r[|r| - 5..|r| - 3]) && DigitsValue(r[|r| - 5..|r| - 3]) == d.month + 1
    ensures AllDigits(r[|r| - 2..]) && DigitsValue(r[|r| - 2..]) == d.day
    ensures d.year >= 0 ==> AllDigits(r[..|r| - 6]) && DigitsValue(r[..|r| - 6]) == d.year
    ensures d.year < 0 ==> r[0] == '-' && AllDigits(r[1..|r| - 6]) && DigitsValue(r[1..|r| - 6]) == -d.year
    ensures 1000 <= d.year <= 9999 ==> |r| == 10
  {
    var n: nat := if d.year < 0 then -d.year else d.year;
    var ys := if d.year < 0 then "-" + Decimal(n) else Decimal(n);
    var ms, ds := Pad2(d.month + 1), Pad2(d.day);
    DecimalDigits(n);
    DecimalLength(n);
    Pad2Digits(d.month + 1);
    Pad2Digits(d.day);
    FieldsAt(ys, ms, ds);
    assert d.year < 0 ==> ys[1..] == Decimal(n);
    ys + "-" + ms + "-" + ds
  }

  /**
   * `parseLocalDate`: "YYYY-MM-DD" becomes `new Date(YYYY, MM - 1, DD)`.
   * A year from 0 to 99 means 1900 to 1999, as in the `Date` constructor.
   * Text that is not a valid date in this form gives None.
   */
  function ParseLocalDate(s: string): (r: Option<Date>)
    ensures r.Some? ==> Valid(r.value) && |s| == 10 && s[4] == '-' && s[7] == '-'
    ensures r.Some? ==> r.value.year >= 100
  {
    if |s| == 10 && s[4] == '-' && s[7] == '-'
       && AllDigits(s[..4]) && AllDigits(s[5..7]) && AllDigits(s[8..])
    then
      var y := DigitsValue(s[..4]);
      var year := FullYear(y);
      var month := DigitsValue(s[5..7]);
      var day := DigitsValue(s[8..]);
      if 1 <= month <= 12 && 1 <= day <= DaysInMonth(year, month - 1)
      then Some(Date(year, month - 1, day))
      else None
    else None
  }

  lemma {:induction false} DecimalDigits(n: nat)
    ensures |Decimal(n)| >= 1 && AllDigits(Decimal(n)) && DigitsValue(Decimal(n)) == n
    decreases n
  {
    if n >= 10 {
      DecimalDigits(n / 10);
      var s := Decimal(n);
      assert s[..|s| - 1] == Decimal(n / 10);
    }
  }

  lemma DecimalLength(n: nat)
    ensures 10 <= n < 100 ==> |Decimal(n)| == 2
    ensures 1000 <= n < 10000 ==> |Decimal(n)| == 4
  {
    if 1000 <= n < 10000 {
      assert |Decimal(n / 1000)| == 1;
      assert Decimal(n / 100) == Decimal(n / 100 / 10) + [DigitChar(n / 100 % 10)];
      assert Decimal(n / 10) == Decimal(n / 10 / 10) + [DigitChar(n / 10 % 10)];
    }
  }

  lemma Pad2Digits(n: nat)
    requires 1 <= n < 100
    ensures |Pad2(n)| == 2 && AllDigits(Pad2(n)) && DigitsValue(Pad2(n)) == n
  {
    DecimalDigits(n);
    DecimalLength(n);
    if n < 10 {
      var s := Pad2(n);
      assert s[..1] == "0";
    }
  }

  /** Formatting a date of a four-digit year and parsing the text back gives the date. */
  lemma ParseFormatRoundTrip(d: Date)
    requires Valid(d) && 1000 <= d.year <= 9999
    ensures ParseLocalDate(FormatLocalDate(d)) == Some(d)
  {
    var s := FormatLocalDate(d);
    assert s[..4] == s[..|s| - 6] && s[5..7] == s[|s| - 5..|s| - 3] && s[8..] == s[|s| - 2..];
    ParseFields(s, d.year, d.month + 1, d.day);
  }

  /** 10 to the power `w`. */
  function Pow10(w: nat): (p: nat)
    ensures p >= 1
  {
    if w == 0 then 1 else 10 * Pow10(w - 1)
  }

  /** `String(n).padStart(w, '0')` for `n` below 10 to the `w`: exactly `w` digits. */
  function PadDigits(n: nat, w: nat): (s: string)
    ensures |s| == w && AllDigits(s)
  {
    if w == 0 then [] else PadDigits(n / 10, w - 1) + [DigitChar(n % 10)]
  }

  lemma {:induction false} PadDigitsValue(n: nat, w: nat)
    requires n < Pow10(w)
    ensures DigitsValue(PadDigits(n, w)) == n
  {
    if w > 0 {
      var s := PadDigits(n, w);
      assert s[..|s| - 1] == PadDigits(n / 10, w - 1);
      PadDigitsValue(n / 10, w - 1);
    }
  }

  /**
   * Every text "YYYY-MM-DD" of four, two and two digits denotes
   * `new Date(YYYY, MM - 1, DD)` when month MM has a day DD, with the years
   * 0000 to 0099 read as 1900 to 1999; otherwise it gives None.
   */
  lemma ParseCanonical(y: nat, mm: nat, dd: nat)
    requires y < 10000 && mm < 100 && dd < 100
    ensures var s := PadDigits(y, 4) + "-" + PadDigits(mm, 2) + "-" + PadDigits(dd, 2);
            ParseLocalDate(s) ==
              if 1 <= mm <= 12 && 1 <= dd <= DaysInMonth(FullYear(y), mm - 1)
              then Some(Date(FullYear(y), mm - 1, dd)) else None
  {
    var ys, ms, ds := PadDigits(y, 4), PadDigits(mm, 2), PadDigits(dd, 2);
    PadDigitsValue(y, 4);
    PadDigitsValue(mm, 2);
    PadDigitsValue(dd, 2);
    FieldsAt(ys, ms, ds);
    var s := ys + "-" + ms + "-" + ds;
    assert s[..4] == ys && s[5..7] == ms && s[8..] == ds;
    ParseFields(s, y, mm, dd);
  }

  /** Helper for `ParseCanonical`: the parse of text whose three fields are known numbers. */
  lemma ParseFields(s: string, y: nat, mm: nat, dd: nat)
    requires |s| == 10 && s[4] == '-' && s[7] == '-'
    requires AllDigits(s[..4]) && AllDigits(s[5..7]) && AllDigits(s[8..])
    requires DigitsValue(s[..4]) == y && DigitsValue(s[5..7]) == mm && DigitsValue(s[8..]) == dd
    ensures ParseLocalDate(s) ==
              if 1 <= mm <= 12 && 1 <= dd <= DaysInMonth(FullYear(y), mm - 1)
              then Some(Date(FullYear(y), mm - 1, dd)) else None
  {
  }

  /** Where the three fields sit in "Y-MM-DD". */
  lemma FieldsAt(ys: string, ms: string, ds: string)
    requires |ms| == 2 && |ds| == 2
    ensures var s := ys + "-" + ms + "-" + ds;
            && |s| == |ys| + 6 && s[|s| - 6] == '-' && s[|s| - 3] == '-'
            && s[..|s| - 6] == ys && s[|s| - 5..|s| - 3] == ms && s[|s| - 2..] == ds
  {
    var s := ys + "-" + ms + "-" + ds;
    assert s[..|s| - 6] == ys;
    assert s[|s| - 5..|s| - 3] == ms;
    assert s[|s| - 2..] == ds;
  }
}
