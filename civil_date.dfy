/**
 * The day label of line 42: `datetime.utcfromtimestamp(ts).date().isoformat()`.
 * A whole number of seconds since 1970-01-01T00:00:00Z becomes a proleptic
 * Gregorian date, written `YYYY-MM-DD` (the full-date of section 5.6 of RFC 3339).
 * Dates before year 1 or after year 9999 make Python raise.
 */
module CivilDate {
  import opened Options
  import opened Strings

  const SecondsPerDay := 86400
  /** Days from 0001-01-01 to 1970-01-01. */
  const EpochOrdinal := 719162
  /** Days from 0001-01-01 to 10000-01-01: the first day Python cannot represent. */
  const MaxOrdinal := 3652059
  const MinYear := 1
  const MaxYear := 9999

  datatype Date = Date(year: int, month: int, day: int)

  predicate IsLeap(y: int)
  {
    y % 4 == 0 && (y % 100 != 0 || y % 400 == 0)
  }

  function DaysInYear(y: int): int
  {
    if IsLeap(y) then 366 else 365
  }

  function DaysInMonth(y: int, m: int): int
    requires 1 <= m <= 12
  {
    if m == 2 then (if IsLeap(y) then 29 else 28)
    else if m == 4 || m == 6 || m == 9 || m == 11 then 30
    else 31
  }

  /** Days of year `y` before the first of month `m`; month 13 stands for the whole year. */
  function DaysBeforeMonth(y: int, m: int): int
    requires 1 <= m <= 13
  {
    var common :=
      if m == 1 then 0 else if m == 2 then 31 else if m == 3 then 59
      else if m == 4 then 90 else if m == 5 then 120 else if m == 6 then 151
      else if m == 7 then 181 else if m == 8 then 212 else if m == 9 then 243
      else if m == 10 then 273 else if m == 11 then 304 else if m == 12 then 334
      else 365;
    if m > 2 && IsLeap(y) then common + 1 else common
  }

  /** Days from 0001-01-01 to the first of January of year `y`. */
  function DaysBeforeYear(y: int): int
    requires y >= 1
  {
    var x := y - 1;
    365 * x + x / 4 - x / 100 + x / 400
  }

  predicate Valid(dt: Date)
  {
    MinYear <= dt.year <= MaxYear && 1 <= dt.month <= 12 && 1 <= dt.day <= DaysInMonth(dt.year, dt.month)
  }

  /** Days from 0001-01-01 to `dt`. */
  function Ordinal(dt: Date): int
    requires Valid(dt)
  {
    DaysBeforeYear(dt.year) + DaysBeforeMonth(dt.year, dt.month) + dt.day - 1
  }

  /** Calendar order: by year, then month, then day. */
  predicate DateLess(x: Date, y: Date)
  {
    x.year < y.year || (x.year == y.year && (x.month < y.month || (x.month == y.month && x.day < y.day)))
  }

  lemma DaysBeforeMonthStep(y: int, m: int)
    requires 1 <= m <= 12
    ensures DaysBeforeMonth(y, m + 1) == DaysBeforeMonth(y, m) + DaysInMonth(y, m)
  {
  }

  lemma {:induction false} DaysBeforeMonthGrows(y: int, m1: int, m2: int)
    requires 1 <= m1 < m2 <= 13
    ensures DaysBeforeMonth(y, m1) + DaysInMonth(y, m1) <= DaysBeforeMonth(y, m2)
    decreases m2 - m1
  {
    DaysBeforeMonthStep(y, m1);
    if m1 + 1 < m2 {
      DaysBeforeMonthGrows(y, m1 + 1, m2);
    }
  }

  lemma DaysBeforeYearStep(y: int)
    requires y >= 1
    ensures DaysBeforeYear(y + 1) == DaysBeforeYear(y) + DaysInYear(y)
  {
    var x := y - 1;
    assert y / 4 - x / 4 == if y % 4 == 0 then 1 else 0;
    assert y / 100 - x / 100 == if y % 100 == 0 then 1 else 0;
    assert y / 400 - x / 400 == if y % 400 == 0 then 1 else 0;
  }

  lemma {:induction false} DaysBeforeYearGrows(y1: int, y2: int)
    requires 1 <= y1 < y2
    ensures DaysBeforeYear(y1) + DaysInYear(y1) <= DaysBeforeYear(y2)
    decreases y2 - y1
  {
    DaysBeforeYearStep(y1);
    if y1 + 1 < y2 {
      DaysBeforeYearGrows(y1 + 1, y2);
    }
  }

  /** The Gregorian cycles: 400 years, 100 years, 4 years, 1 year. */
  lemma DaysBeforeYearCycles(a: int, b: int, c: int, d: int)
    requires a >= 0 && 0 <= b <= 3 && 0 <= c <= 24 && 0 <= d <= 3
    ensures DaysBeforeYear(400 * a + 100 * b + 4 * c + d + 1) == 146097 * a + 36524 * b + 1461 * c + 365 * d
  {
    var x := 400 * a + 100 * b + 4 * c + d;
    assert x / 4 == 100 * a + 25 * b + c;
    assert x / 100 == 4 * a + b;
    assert x / 400 == a;
  }

  /** The century split of a 400-year cycle: at most 3 whole centuries, the last one a day longer. */
  lemma CenturySplit(r400: int, b: int, r100: int)
    requires 0 <= r400 < 146097
    requires b == (if r400 / 36524 == 4 then 3 else r400 / 36524) && r100 == r400 - 36524 * b
    ensures 0 <= b <= 3 && 0 <= r100 <= 36524
    ensures r100 == 36524 ==> b == 3
  {
  }

  /** The year split of a 4-year cycle: at most 3 whole years, the last one a day longer. */
  lemma YearSplit(r4: int, d: int, doy: int)
    requires 0 <= r4 < 1461
    requires d == (if r4 / 365 == 4 then 3 else r4 / 365) && doy == r4 - 365 * d
    ensures 0 <= d <= 3 && 0 <= doy <= 365
    ensures doy == 365 ==> r4 == 1460
  {
  }

  /** Splits a day count from 0001-01-01 into a year and a zero-based day of that year. */
  function YearAndDay(n: int): (r: (int, int))
    requires n >= 0
    ensures r.0 >= 1 && 0 <= r.1 < DaysInYear(r.0)
    ensures DaysBeforeYear(r.0) + r.1 == n
  {
    var a, r400 := n / 146097, n % 146097;
    var b := if r400 / 36524 == 4 then 3 else r400 / 36524;
    var r100 := r400 - 36524 * b;
    CenturySplit(r400, b, r100);
    var c, r4 := r100 / 1461, r100 % 1461;
    var d := if r4 / 365 == 4 then 3 else r4 / 365;
    var doy := r4 - 365 * d;
    YearSplit(r4, d, doy);
    var y := 400 * a + 100 * b + 4 * c + d + 1;
    DaysBeforeYearCycles(a, b, c, d);
    YearEndIsLeap(a, b, c, r100, r4, doy);
    (y, doy)
  }

  /** A 366th day occurs only at the end of a leap year. */
  lemma YearEndIsLeap(a: int, b: int, c: int, r100: int, r4: int, doy: int)
    requires 0 <= b <= 3 && 0 <= c <= 24 && 0 <= r100 <= 36524 && r100 == 1461 * c + r4
    requires r100 == 36524 ==> b == 3
    requires doy == 365 ==> r4 == 1460
    ensures doy == 365 ==> IsLeap(400 * a + 100 * b + 4 * c + 3 + 1)
  {
    if doy == 365 {
      var y := 400 * a + 100 * b + 4 * c + 4;
      if c == 24 {
        assert r100 == 36524;
        LeapByCycle(a + 1, y);
      } else {
        LeapByCentury(4 * a + b, c, y);
      }
    }
  }

  lemma LeapByCycle(k: int, y: int)
    requires y == 400 * k
    ensures IsLeap(y)
  {
  }

  lemma LeapByCentury(k: int, c: int, y: int)
    requires 0 <= c < 24 && y == 100 * k + 4 * c + 4
    ensures IsLeap(y)
  {
    assert y % 100 == 4 * c + 4;
    assert y == 4 * (25 * k + c + 1);
  }

  /** The month holding zero-based day `doy` of year `y`, searched downwards from month `m`. */
  function MonthOf(y: int, doy: int, m: int): (r: int)
    requires 1 <= m <= 12 && 0 <= doy < DaysBeforeMonth(y, m + 1)
    ensures 1 <= r <= m
    ensures DaysBeforeMonth(y, r) <= doy < DaysBeforeMonth(y, r + 1)
    decreases m
  {
    if m == 1 || DaysBeforeMonth(y, m) <= doy then m else MonthOf(y, doy, m - 1)
  }

  /** The date `n` days after 0001-01-01. */
  function FromOrdinal(n: int): (dt: Date)
    requires 0 <= n < MaxOrdinal
    ensures Valid(dt) && Ordinal(dt) == n
  {
    var (y, doy) := YearAndDay(n);
    assert y <= MaxYear by {
      if y > MaxYear + 1 {
        DaysBeforeYearGrows(MaxYear + 1, y);
      }
    }
    var m := MonthOf(y, doy, 12);
    DaysBeforeMonthStep(y, m);
    Date(y, m, doy - DaysBeforeMonth(y, m) + 1)
  }

  /** Every valid date lies inside its year and before 10000-01-01. */
  lemma OrdinalBounds(dt: Date)
    requires Valid(dt)
    ensures DaysBeforeYear(dt.year) <= Ordinal(dt) < DaysBeforeYear(dt.year) + DaysInYear(dt.year)
    ensures 0 <= Ordinal(dt) < MaxOrdinal
  {
    DaysBeforeMonthGrows(dt.year, dt.month, 13);
    DaysBeforeYearGrows(dt.year, MaxYear + 1);
  }

  /** Later dates have larger day counts. */
  lemma OrdinalMonotone(x: Date, y: Date)
    requires Valid(x) && Valid(y) && DateLess(x, y)
    ensures Ordinal(x) < Ordinal(y)
  {
    if x.year < y.year {
      OrdinalBounds(x);
      DaysBeforeYearGrows(x.year, y.year);
    } else if x.month < y.month {
      DaysBeforeMonthGrows(x.year, x.month, y.month);
    }
  }

  /** FromOrdinal inverts Ordinal on valid dates. */
  lemma OrdinalRoundTrip(dt: Date)
    requires Valid(dt)
    ensures 0 <= Ordinal(dt) < MaxOrdinal && FromOrdinal(Ordinal(dt)) == dt
  {
    OrdinalBounds(dt);
    var back := FromOrdinal(Ordinal(dt));
    if DateLess(back, dt) {
      OrdinalMonotone(back, dt);
    } else if DateLess(dt, back) {
      OrdinalMonotone(dt, back);
    }
  }

  function Pow10(n: nat): nat
  {
    if n == 0 then 1 else 10 * Pow10(n - 1)
  }

  function DigitChar(d: int): char
    requires 0 <= d <= 9
  {
    ('0' as int + d) as char
  }

  predicate IsDigit(c: char) { '0' <= c <= '9' }

  /**
   * The last `width` decimal digits of `x`, zero-padded. For `x < Pow10(width)` this is
   * what `%0<width>d` prints; `%0<width>d` prints every digit of a larger `x`.
   */
  function Digits(x: nat, width: nat): (r: string)
    ensures |r| == width
    ensures forall i :: 0 <= i < width ==> IsDigit(r[i])
  {
    if width == 0 then [] else Digits(x / 10, width - 1) + [DigitChar(x % 10)]
  }

  /** Zero padding makes numeric order and string order agree. */
  lemma {:induction false} DigitsOrder(x: nat, y: nat, width: nat)
    requires x < y < Pow10(width)
    ensures StrLess(Digits(x, width), Digits(y, width))
  {
    var qx, qy := x / 10, y / 10;
    var cx, cy := [DigitChar(x % 10)], [DigitChar(y % 10)];
    if qx < qy {
      DigitsOrder(qx, qy, width - 1);
      StrLessConcat(Digits(qx, width - 1), cx, Digits(qy, width - 1), cy);
    } else {
      StrLessConcat(Digits(qx, width - 1), cx, Digits(qy, width - 1), cy);
    }
  }

  /** `date.isoformat()`: `%04d-%02d-%02d`. */
  function IsoFormat(dt: Date): string
    requires Valid(dt)
  {
    Digits(dt.year, 4) + ("-" + (Digits(dt.month, 2) + ("-" + Digits(dt.day, 2))))
  }

  /** The shape of an RFC 3339 full-date: four digits, dash, two digits, dash, two digits. */
  predicate IsDayLabel(s: string)
  {
    && |s| == 10
    && s[4] == '-' && s[7] == '-'
    && forall i :: 0 <= i < 10 && i != 4 && i != 7 ==> IsDigit(s[i])
  }

  lemma IsoFormatShape(dt: Date)
    requires Valid(dt)
    ensures IsDayLabel(IsoFormat(dt))
  {
    var s := IsoFormat(dt);
    var y, m, d := Digits(dt.year, 4), Digits(dt.month, 2), Digits(dt.day, 2);
    assert s == y + "-" + m + "-" + d;
    forall i | 0 <= i < 10 && i != 4 && i != 7
      ensures IsDigit(s[i])
    {
      if i < 4 { assert s[i] == y[i]; }
      else if i < 7 { assert s[i] == m[i - 5]; }
      else { assert s[i] == d[i - 8]; }
    }
  }

  /** Labels of valid dates compare as strings exactly as the dates compare in the calendar. */
  lemma {:induction false} IsoFormatOrder(x: Date, y: Date)
    requires Valid(x) && Valid(y)
    ensures StrLess(IsoFormat(x), IsoFormat(y)) <==> DateLess(x, y)
  {
    if DateLess(x, y) {
      IsoFormatOrderForward(x, y);
    } else if DateLess(y, x) {
      IsoFormatOrderForward(y, x);
      if StrLess(IsoFormat(x), IsoFormat(y)) {
        StrLessTransitive(IsoFormat(x), IsoFormat(y), IsoFormat(x));
        StrLessIrreflexive(IsoFormat(x));
      }
    } else {
      assert x == y;
      StrLessIrreflexive(IsoFormat(x));
    }
  }

  lemma IsoFormatOrderForward(x: Date, y: Date)
    requires Valid(x) && Valid(y) && DateLess(x, y)
    ensures StrLess(IsoFormat(x), IsoFormat(y))
  {
    var y1, m1, d1 := Digits(x.year, 4), Digits(x.month, 2), Digits(x.day, 2);
    var y2, m2, d2 := Digits(y.year, 4), Digits(y.month, 2), Digits(y.day, 2);
    var dayPart1, dayPart2 := "-" + d1, "-" + d2;
    var monthPart1, monthPart2 := "-" + (m1 + dayPart1), "-" + (m2 + dayPart2);
    StrLessConcat(y1, monthPart1, y2, monthPart2);
    StrLessConcat("-", m1 + dayPart1, "-", m2 + dayPart2);
    StrLessConcat(m1, dayPart1, m2, dayPart2);
    StrLessConcat("-", d1, "-", d2);
    assert Pow10(4) == 10000 && Pow10(2) == 100;
    if x.year < y.year {
      DigitsOrder(x.year, y.year, 4);
    } else if x.month < y.month {
      DigitsOrder(x.month, y.month, 2);
    } else {
      DigitsOrder(x.day, y.day, 2);
    }
  }

  /** Timestamps whose UTC date falls in years 1..9999, the range Python's `date` accepts. */
  predicate InDateRange(ts: int)
  {
    0 <= ts / SecondsPerDay + EpochOrdinal < MaxOrdinal
  }

  /** The UTC calendar date of a timestamp, or None where Python raises (year outside 1..9999). */
  function UtcDate(ts: int): (r: Option<Date>)
    ensures r.Some? <==> InDateRange(ts)
    ensures r.Some? ==> Valid(r.value) && Ordinal(r.value) == ts / SecondsPerDay + EpochOrdinal
  {
    var n := ts / SecondsPerDay + EpochOrdinal;
    if 0 <= n < MaxOrdinal then Some(FromOrdinal(n)) else None
  }

  /** `utcfromtimestamp(ts).date().isoformat()`; None stands for the exception Python raises. */
  function DayLabel(ts: int): (r: Option<string>)
    ensures r.Some? <==> InDateRange(ts)
    ensures r.Some? ==> IsDayLabel(r.value)
  {
    match UtcDate(ts)
    case None => None
    case Some(dt) => IsoFormatShape(dt); Some(IsoFormat(dt))
  }

  /** Two timestamps get the same label exactly when they fall in the same 86400-second block. */
  lemma DayLabelSameDay(t1: int, t2: int)
    requires InDateRange(t1) && InDateRange(t2)
    ensures DayLabel(t1) == DayLabel(t2) <==> t1 / SecondsPerDay == t2 / SecondsPerDay
  {
    var x, y := UtcDate(t1).value, UtcDate(t2).value;
    if DateLess(x, y) {
      IsoFormatOrder(x, y);
      StrLessIrreflexive(IsoFormat(x));
      OrdinalMonotone(x, y);
    } else if DateLess(y, x) {
      IsoFormatOrder(y, x);
      StrLessIrreflexive(IsoFormat(y));
      OrdinalMonotone(y, x);
    }
  }

  /** Label order is chronological: a later day gives a lexicographically larger label, and only then. */
  lemma DayLabelOrder(t1: int, t2: int)
    requires InDateRange(t1) && InDateRange(t2)
    ensures StrLess(DayLabel(t1).value, DayLabel(t2).value) <==> t1 / SecondsPerDay < t2 / SecondsPerDay
  {
    var x, y := UtcDate(t1).value, UtcDate(t2).value;
    IsoFormatOrder(x, y);
    if DateLess(x, y) {
      OrdinalMonotone(x, y);
    } else if DateLess(y, x) {
      OrdinalMonotone(y, x);
    } else {
      assert x == y;
    }
  }
}
