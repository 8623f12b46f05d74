/** Calendar dates as QDate handles them for the backup schedule: the
    proleptic Gregorian calendar, the number of days between two dates, and
    the ISO 8601 extended form yyyy-MM-dd (section 4.1.2.2 of ISO 8601:2004)
    used in backup file names. */
module Dates {
  import opened Wrappers
  import opened Text
  import opened Numbers

  datatype Date = Date(year: int, month: int, day: int)

  predicate IsLeapYear(y: int) {
    y % 4 == 0 && (y % 100 != 0 || y % 400 == 0)
  }

  function DaysInMonth(y: int, m: int): (n: int)
    requires 1 <= m <= 12
    ensures 28 <= n <= 31
  {
    if m == 2 then (if IsLeapYear(y) then 29 else 28)
    else if m == 4 || m == 6 || m == 9 || m == 11 then 30
    else 31
  }

  /** QDate::isValid for the years a four-digit field can hold: there is no
      year 0. */
  predicate IsValidDate(d: Date) {
    d.year >= 1 && 1 <= d.month <= 12 && 1 <= d.day <= DaysInMonth(d.year, d.month)
  }

  /** Days of year `y` that lie before the first of month `m`. */
  function DaysBeforeMonth(y: int, m: int): int
    requires 1 <= m <= 12
  {
    [0, 31, 59, 90, 120, 151, 181, 212, 243, 273, 304, 334][m - 1] +
    (if m > 2 && IsLeapYear(y) then 1 else 0)
  }

  /** Days from 0001-01-01 to `d`: QDate's Julian day shifted by a
      constant, which daysTo cancels. */
  function DayNumber(d: Date): int
    requires IsValidDate(d)
  {
    var y := d.year - 1;
    365 * y + y / 4 - y / 100 + y / 400 + DaysBeforeMonth(d.year, d.month) + d.day - 1
  }

  /** QDate::daysTo: how many days lie from `a` to `b` (negative when `b`
      comes first). */
  function DaysTo(a: Date, b: Date): int
    requires IsValidDate(a) && IsValidDate(b)
  {
    DayNumber(b) - DayNumber(a)
  }

  /** Calendar order. */
  predicate Before(a: Date, b: Date) {
    a.year < b.year || (a.year == b.year && (a.month < b.month || (a.month == b.month && a.day < b.day)))
  }

  /** The following calendar day. */
  function NextDay(d: Date): (r: Date)
    requires IsValidDate(d)
    ensures IsValidDate(r) && Before(d, r)
  {
    if d.day < DaysInMonth(d.year, d.month) then Date(d.year, d.month, d.day + 1)
    else if d.month < 12 then Date(d.year, d.month + 1, 1)
    else Date(d.year + 1, 1, 1)
  }

  /** Stepping a year over a multiple of k adds one to the count of such
      multiples. */
  lemma DivStep(y: int, k: int)
    requires k == 4 || k == 100 || k == 400
    ensures y / k - (y - 1) / k == if y % k == 0 then 1 else 0
  {
    if k == 4 {
      assert y / 4 - (y - 1) / 4 == if y % 4 == 0 then 1 else 0;
    } else if k == 100 {
      assert y / 100 - (y - 1) / 100 == if y % 100 == 0 then 1 else 0;
    } else {
      assert y / 400 - (y - 1) / 400 == if y % 400 == 0 then 1 else 0;
    }
  }

  /** A multiple of 100 is a multiple of 4, and a multiple of 400 one of 100. */
  lemma MultipleOfHundred(y: int)
    ensures y % 100 == 0 ==> y % 4 == 0
    ensures y % 400 == 0 ==> y % 100 == 0
  {
    if y % 100 == 0 {
      var k := y / 100;
      assert y == 4 * (25 * k);
    }
    if y % 400 == 0 {
      var k := y / 400;
      assert y == 100 * (4 * k);
    }
  }

  /** Year y adds one leap day to the count before it exactly when it is a
      leap year. */
  lemma LeapCount(y: int)
    ensures (y / 4 - y / 100 + y / 400) - ((y - 1) / 4 - (y - 1) / 100 + (y - 1) / 400) ==
            if IsLeapYear(y) then 1 else 0
  {
    DivStep(y, 4);
    DivStep(y, 100);
    DivStep(y, 400);
    MultipleOfHundred(y);
  }

  /** New Year's Day follows the last day of the previous year. */
  lemma YearEnd(y: int)
    requires y >= 1
    ensures DayNumber(Date(y + 1, 1, 1)) == DayNumber(Date(y, 12, 31)) + 1
  {
    LeapCount(y);
    var leaps := y / 4 - y / 100 + y / 400;
    var before := (y - 1) / 4 - (y - 1) / 100 + (y - 1) / 400;
    assert DaysBeforeMonth(y, 12) == 334 + (if IsLeapYear(y) then 1 else 0);
    assert DayNumber(Date(y + 1, 1, 1)) == 365 * y + leaps;
    assert DayNumber(Date(y, 12, 31)) == 365 * (y - 1) + before + DaysBeforeMonth(y, 12) + 30;
  }

  /** Consecutive calendar days have consecutive day numbers, across month
      and year ends and leap days. */
  lemma NextDayNumber(d: Date)
    requires IsValidDate(d)
    ensures DayNumber(NextDay(d)) == DayNumber(d) + 1
  {
    if d.day == DaysInMonth(d.year, d.month) {
      if d.month == 12 {
        YearEnd(d.year);
      } else {
        assert DaysBeforeMonth(d.year, d.month + 1) == DaysBeforeMonth(d.year, d.month) + DaysInMonth(d.year, d.month);
      }
    }
  }

  /** Day numbers within one year grow with the date. */
  lemma DayNumberWithinYear(a: Date, b: Date)
    requires IsValidDate(a) && IsValidDate(b) && a.year == b.year && Before(a, b)
    ensures DayNumber(a) < DayNumber(b)
  {
    if a.month < b.month {
      assert DaysBeforeMonth(a.year, a.month) + DaysInMonth(a.year, a.month) <= DaysBeforeMonth(a.year, b.month);
    }
  }

  /** Every day of a year comes before the first day of the next. */
  lemma DayNumberBeforeNewYear(a: Date)
    requires IsValidDate(a)
    ensures DayNumber(a) < DayNumber(Date(a.year + 1, 1, 1))
  {
    var last := Date(a.year, 12, 31);
    if a != last {
      DayNumberWithinYear(a, last);
    }
    NextDayNumber(last);
  }

  /** New Year's days are ordered as their years. */
  lemma NewYearMonotone(y: int, z: int)
    requires 1 <= y <= z
    ensures DayNumber(Date(y, 1, 1)) <= DayNumber(Date(z, 1, 1))
  {
    assert (y - 1) / 4 <= (z - 1) / 4;
    assert (z - 1) / 100 - (y - 1) / 100 <= (z - y) / 100 + 1;
  }

  /** Day numbers follow calendar order, in both directions: `a` is before
      `b` exactly when fewer days have passed up to `a`. */
  lemma DayNumberOrder(a: Date, b: Date)
    requires IsValidDate(a) && IsValidDate(b)
    ensures Before(a, b) <==> DayNumber(a) < DayNumber(b)
  {
    if Before(a, b) {
      DayNumberLess(a, b);
    } else if a != b {
      DayNumberLess(b, a);
    }
  }

  lemma DayNumberLess(a: Date, b: Date)
    requires IsValidDate(a) && IsValidDate(b) && Before(a, b)
    ensures DayNumber(a) < DayNumber(b)
  {
    if a.year == b.year {
      DayNumberWithinYear(a, b);
    } else {
      DayNumberBeforeNewYear(a);
      NewYearMonotone(a.year + 1, b.year);
      var first := Date(b.year, 1, 1);
      if b != first {
        DayNumberWithinYear(first, b);
      }
    }
  }

  /** QDate::toString("yyyy-MM-dd"): four-digit year, two-digit month and
      day, zero-padded. */
  function FormatDate(d: Date): (s: string)
    requires IsValidDate(d)
  {
    PadZeros(NatDigits(d.year), 4) + "-" + PadZeros(NatDigits(d.month), 2) + "-" +
    PadZeros(NatDigits(d.day), 2)
  }

  /** The shape \d{4}-\d{2}-\d{2}. */
  predicate IsDatePattern(t: string) {
    |t| == 10 && AllDigits(t[..4]) && t[4] == '-' && AllDigits(t[5..7]) && t[7] == '-' &&
    AllDigits(t[8..])
  }

  /** The year, month and day fields of a \d{4}-\d{2}-\d{2} text, before
      any validity check. */
  function DateFields(t: string): Date
    requires IsDatePattern(t)
  {
    Date(DigitsValue(t[..4]), DigitsValue(t[5..7]), DigitsValue(t[8..]))
  }

  /** QDate::fromString(t, "yyyy-MM-dd"), None for an invalid date. */
  function ParseIsoDate(t: string): Option<Date> {
    if IsDatePattern(t) && IsValidDate(DateFields(t)) then Some(DateFields(t)) else None
  }

  /** Texts of the shape \d{4}-\d{2}-\d{2} sort as text in calendar order
      of the fields they hold. */
  lemma DatePatternOrder(a: string, b: string)
    requires IsDatePattern(a) && IsDatePattern(b)
    ensures LexLess(a, b) <==> Before(DateFields(a), DateFields(b))
  {
    var ya, yb := a[..4], b[..4];
    var ma, mb := a[5..7], b[5..7];
    var da, db := a[8..], b[8..];
    assert a == ya + ("-" + (ma + ("-" + da)));
    assert b == yb + ("-" + (mb + ("-" + db)));
    LexLessEqualLengthHeads(ya, yb, "-" + (ma + ("-" + da)), "-" + (mb + ("-" + db)));
    LexLessCommonPrefix("-", ma + ("-" + da), mb + ("-" + db));
    LexLessEqualLengthHeads(ma, mb, "-" + da, "-" + db);
    LexLessCommonPrefix("-", da, db);
    DigitsLexOrder(ya, yb);
    DigitsSameValue(ya, yb);
    DigitsLexOrder(ma, mb);
    DigitsSameValue(ma, mb);
    DigitsLexOrder(da, db);
  }

  /** A number below 10^w written with zeros to width `w` takes exactly `w`
      digits and keeps its value. */
  lemma PaddedDigits(n: nat, w: nat)
    requires 1 <= w && n < Pow10(w)
    ensures |PadZeros(NatDigits(n), w)| == w
    ensures AllDigits(PadZeros(NatDigits(n), w)) && DigitsValue(PadZeros(NatDigits(n), w)) == n
  {
    NatDigitsLength(n, w);
    NatDigitsValue(n);
  }

  /** Writing a date of a four-digit year and reading it back gives the same
      date. */
  lemma ParseFormatDate(d: Date)
    requires IsValidDate(d) && d.year <= 9999
    ensures IsDatePattern(FormatDate(d))
    ensures ParseIsoDate(FormatDate(d)) == Some(d)
  {
    var y := PadZeros(NatDigits(d.year), 4);
    var m := PadZeros(NatDigits(d.month), 2);
    var dd := PadZeros(NatDigits(d.day), 2);
    PaddedDigits(d.year, 4);
    PaddedDigits(d.month, 2);
    PaddedDigits(d.day, 2);
    var t := FormatDate(d);
    assert t == y + "-" + m + "-" + dd;
    assert t[..4] == y && t[5..7] == m && t[8..] == dd;
  }

  /** The other direction: a text read as a date is exactly how that date
      is written, so the yyyy-MM-dd texts and the dates they name are in
      one-to-one correspondence. */
  lemma FormatParsedDate(t: string)
    requires ParseIsoDate(t).Some?
    ensures FormatDate(ParseIsoDate(t).value) == t
  {
    var d := DateFields(t);
    DigitsValueBound(t[..4]);
    assert Pow10(4) == 10000;
    ParseFormatDate(d);
    var u := FormatDate(d);
    DigitsSameValue(u[..4], t[..4]);
    DigitsSameValue(u[5..7], t[5..7]);
    DigitsSameValue(u[8..], t[8..]);
    assert u == u[..4] + [u[4]] + u[5..7] + [u[7]] + u[8..];
    assert t == t[..4] + [t[4]] + t[5..7] + [t[7]] + t[8..];
  }
}
