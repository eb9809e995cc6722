/** Gregorian calendar dates, day arithmetic on them, and their canonical
    `yyyy-MM-dd` text: the model of `addDays` in
    src/app/Services/supermemo2.ts. */
module Calendar {
  import opened Outcomes
  import opened Numerals

  /** A calendar day in the proleptic Gregorian calendar. */
  datatype Date = Date(year: int, month: int, day: int)

  predicate IsLeapYear(y: int) {
    y % 4 == 0 && (y % 100 != 0 || y % 400 == 0)
  }

  function DaysInMonth(y: int, m: int): (n: int)
    requires 1 <= m <= 12
    ensures 28 <= n <= 31
    ensures m == 2 ==> (n == 29 <==> IsLeapYear(y))
  {
    if m == 2 then (if IsLeapYear(y) then 29 else 28)
    else if m == 4 || m == 6 || m == 9 || m == 11 then 30
    else 31
  }

  /** A real calendar day: month 1..12 and a day that month has. */
  predicate Valid(d: Date) {
    1 <= d.month <= 12 && 1 <= d.day <= DaysInMonth(d.year, d.month)
  }

  /** A day whose year has exactly four digits, so that it renders as `yyyy-MM-dd`. */
  predicate InRange(d: Date) {
    Valid(d) && 1 <= d.year <= 9999
  }

  /** Chronological order. */
  predicate Before(d: Date, e: Date) {
    d.year < e.year
    || (d.year == e.year && (d.month < e.month || (d.month == e.month && d.day < e.day)))
  }

  lemma BeforeTransitive(d: Date, e: Date, f: Date)
    requires Before(d, e) && Before(e, f)
    ensures Before(d, f)
  {
  }

  function NextDay(d: Date): (e: Date)
    requires Valid(d)
    ensures Valid(e)
  {
    if d.day < DaysInMonth(d.year, d.month) then d.(day := d.day + 1)
    else if d.month < 12 then Date(d.year, d.month + 1, 1)
    else Date(d.year + 1, 1, 1)
  }

  function PrevDay(d: Date): (e: Date)
    requires Valid(d)
    ensures Valid(e)
  {
    if d.day > 1 then d.(day := d.day - 1)
    else if d.month > 1 then Date(d.year, d.month - 1, DaysInMonth(d.year, d.month - 1))
    else Date(d.year - 1, 12, 31)
  }

  lemma NextPrev(d: Date)
    requires Valid(d)
    ensures PrevDay(NextDay(d)) == d && NextDay(PrevDay(d)) == d
  {
  }

  /** `d` moved by `n` days, forwards or backwards, one day at a time. */
  function Shift(d: Date, n: int): (e: Date)
    requires Valid(d)
    ensures Valid(e)
    decreases if n < 0 then -n else n
  {
    if n == 0 then d
    else if n > 0 then Shift(NextDay(d), n - 1)
    else Shift(PrevDay(d), n + 1)
  }

  /** Days from 0001-01-01 to the first day of year `y`. */
  function DaysBeforeYear(y: int): int {
    365 * (y - 1) + (y - 1) / 4 - (y - 1) / 100 + (y - 1) / 400
  }

  /** Days from the first of January of `y` to the first day of month `m`. */
  function DaysBeforeMonth(y: int, m: int): int
    requires 1 <= m <= 12
  {
    if m == 1 then 0 else DaysBeforeMonth(y, m - 1) + DaysInMonth(y, m - 1)
  }

  /** The day's serial number: days elapsed since 0001-01-01. */
  function DayNumber(d: Date): int
    requires Valid(d)
  {
    DaysBeforeYear(d.year) + DaysBeforeMonth(d.year, d.month) + d.day - 1
  }

  /** How many of the multiples of 4, 100 and 400 below `y + 1` the year `y`
      adds. */
  lemma MultiplesStep(y: int)
    ensures y / 4 - (y - 1) / 4 == (if y % 4 == 0 then 1 else 0)
    ensures y / 100 - (y - 1) / 100 == (if y % 100 == 0 then 1 else 0)
    ensures y / 400 - (y - 1) / 400 == (if y % 400 == 0 then 1 else 0)
  {
    if (y - 1) % 4 == 3 { assert y == 4 * ((y - 1) / 4 + 1); }
    else { assert y == 4 * ((y - 1) / 4) + (y - 1) % 4 + 1; }
    if (y - 1) % 100 == 99 { assert y == 100 * ((y - 1) / 100 + 1); }
    else { assert y == 100 * ((y - 1) / 100) + (y - 1) % 100 + 1; }
    if (y - 1) % 400 == 399 { assert y == 400 * ((y - 1) / 400 + 1); }
    else { assert y == 400 * ((y - 1) / 400) + (y - 1) % 400 + 1; }
  }

  /** A multiple of 400 is a multiple of 100, and one of 100 a multiple of 4. */
  lemma MultiplesNest(y: int)
    ensures y % 400 == 0 ==> y % 100 == 0
    ensures y % 100 == 0 ==> y % 4 == 0
  {
    if y % 400 == 0 {
      var t := 4 * (y / 400);
      assert y == 100 * t;
      assert y / 100 == t;
    }
    if y % 100 == 0 {
      var t := 25 * (y / 100);
      assert y == 4 * t;
      assert y / 4 == t;
    }
  }

  lemma YearLength(y: int)
    ensures DaysBeforeYear(y + 1) == DaysBeforeYear(y) + (if IsLeapYear(y) then 366 else 365)
  {
    MultiplesStep(y);
    MultiplesNest(y);
  }

  lemma DaysBeforeDecember(y: int)
    ensures DaysBeforeMonth(y, 12) == 334 + (if IsLeapYear(y) then 1 else 0)
  {
    var leap := if IsLeapYear(y) then 1 else 0;
    assert DaysBeforeMonth(y, 2) == 31;
    assert DaysBeforeMonth(y, 3) == 59 + leap;
    assert DaysBeforeMonth(y, 4) == 90 + leap;
    assert DaysBeforeMonth(y, 5) == 120 + leap;
    assert DaysBeforeMonth(y, 6) == 151 + leap;
    assert DaysBeforeMonth(y, 7) == 181 + leap;
    assert DaysBeforeMonth(y, 8) == 212 + leap;
    assert DaysBeforeMonth(y, 9) == 243 + leap;
    assert DaysBeforeMonth(y, 10) == 273 + leap;
    assert DaysBeforeMonth(y, 11) == 304 + leap;
  }

  /** The next day is exactly one day later, across month and year ends and
      the 29th of February of leap years. */
  lemma DayNumberNext(d: Date)
    requires Valid(d)
    ensures DayNumber(NextDay(d)) == DayNumber(d) + 1
  {
    if d.day == DaysInMonth(d.year, d.month) && d.month == 12 {
      YearLength(d.year);
      DaysBeforeDecember(d.year);
    }
  }

  /** Shifting by `n` days moves the serial number by exactly `n`. */
  lemma {:induction false} DayNumberShift(d: Date, n: int)
    requires Valid(d)
    ensures DayNumber(Shift(d, n)) == DayNumber(d) + n
    decreases if n < 0 then -n else n
  {
    if n > 0 {
      DayNumberNext(d);
      DayNumberShift(NextDay(d), n - 1);
    } else if n < 0 {
      NextPrev(d);
      DayNumberNext(PrevDay(d));
      DayNumberShift(PrevDay(d), n + 1);
    }
  }

  lemma {:induction false} ShiftAfterNext(d: Date, n: int)
    requires Valid(d)
    ensures Shift(NextDay(d), n) == Shift(d, n + 1)
  {
    if n < 0 {
      NextPrev(d);
    }
  }

  lemma {:induction false} ShiftAfterPrev(d: Date, n: int)
    requires Valid(d)
    ensures Shift(PrevDay(d), n) == Shift(d, n - 1)
  {
    if n > 0 {
      NextPrev(d);
    }
  }

  /** Shifting twice is shifting by the sum. */
  lemma {:induction false} ShiftShift(d: Date, a: int, b: int)
    requires Valid(d)
    ensures Shift(Shift(d, a), b) == Shift(d, a + b)
    decreases if a < 0 then -a else a
  {
    if a > 0 {
      ShiftShift(NextDay(d), a - 1, b);
      ShiftAfterNext(d, a - 1 + b);
    } else if a < 0 {
      ShiftShift(PrevDay(d), a + 1, b);
      ShiftAfterPrev(d, a + 1 + b);
    }
  }

  /** A positive shift gives a strictly later day. */
  lemma {:induction false} ShiftLater(d: Date, n: int)
    requires Valid(d) && n > 0
    ensures Before(d, Shift(d, n))
    decreases n
  {
    if n > 1 {
      ShiftLater(NextDay(d), n - 1);
      BeforeTransitive(d, NextDay(d), Shift(d, n));
    }
  }

  /** Moving forward `n` days never reaches an earlier year, and each day
      moves on at most one year. */
  lemma {:induction false} ShiftYears(d: Date, n: nat)
    requires Valid(d)
    ensures d.year <= Shift(d, n).year <= d.year + n
    decreases n
  {
    if n > 0 {
      ShiftYears(NextDay(d), n - 1);
    }
  }

  /** Every day between two days of the four-digit years is itself in range. */
  lemma InRangeBetween(d: Date, k: int, n: int)
    requires InRange(d) && 0 <= k <= n && InRange(Shift(d, n))
    ensures InRange(Shift(d, k))
  {
    ShiftYears(d, k);
    ShiftYears(Shift(d, k), n - k);
    ShiftShift(d, k, n - k);
  }

  /** Once a forward shift has left the four-digit years, shifting further
      forward never returns to them. */
  lemma ShiftPastRange(d: Date, i: int, n: int)
    requires InRange(d) && 0 <= i && 0 <= n && !InRange(Shift(d, i))
    ensures !InRange(Shift(d, i + n))
  {
    ShiftYears(d, i);
    ShiftYears(Shift(d, i), n);
    ShiftShift(d, i, n);
  }

  /** The canonical `yyyy-MM-dd` rendering: zero-padded four-digit year,
      two-digit month and two-digit day. */
  function Format(d: Date): (s: string)
    requires InRange(d)
    ensures |s| == 10 && s[4] == '-' && s[7] == '-'
  {
    Padded(d.year, 4) + "-" + Padded(d.month, 2) + "-" + Padded(d.day, 2)
  }

  /** Parsing under the format `yyyy-MM-dd`: exactly four, two and two digits
      separated by dashes, naming a real day; `None` is date-fns' Invalid Date. */
  function Parse(s: string): (r: Option<Date>)
    ensures r.Some? ==> InRange(r.value)
  {
    if |s| == 10 && s[4] == '-' && s[7] == '-'
       && AllDigits(s[..4]) && AllDigits(s[5..7]) && AllDigits(s[8..])
    then
      var d := Date(ValueOf(s[..4]), ValueOf(s[5..7]), ValueOf(s[8..]));
      if InRange(d) then Some(d) else None
    else None
  }

  /** Rendering then parsing gives the day back. */
  lemma ParseFormat(d: Date)
    requires InRange(d)
    ensures Parse(Format(d)) == Some(d)
  {
    var y, m, dd := Padded(d.year, 4), Padded(d.month, 2), Padded(d.day, 2);
    var s := Format(d);
    assert s[..4] == y && s[5..7] == m && s[8..] == dd;
    ValueOfPadded(d.year, 4);
    ValueOfPadded(d.month, 2);
    ValueOfPadded(d.day, 2);
  }

  /** Every string that parses is the rendering of the day it names: the
      canonical form is unique. */
  lemma FormatParse(s: string)
    requires Parse(s).Some?
    ensures Format(Parse(s).value) == s
  {
    PaddedValueOf(s[..4]);
    PaddedValueOf(s[5..7]);
    PaddedValueOf(s[8..]);
    assert s == s[..4] + "-" + s[5..7] + "-" + s[8..];
  }

  /** `addDays(date, n)`: parse, add `n` days, render. A date that does not
      parse, or a result outside the four-digit years, is an error. */
  function AddDays(s: string, n: int): (r: Result<string>)
    ensures Parse(s).None? ==> r == Err(InvalidDate)
    ensures Parse(s).Some? ==> (r.Ok? <==> InRange(Shift(Parse(s).value, n)))
    ensures r.Ok? ==> Parse(s).Some? && Parse(r.value) == Some(Shift(Parse(s).value, n))
  {
    match Parse(s)
    case None => Err(InvalidDate)
    case Some(d) =>
      var e := Shift(d, n);
      if InRange(e) then (ParseFormat(e); Ok(Format(e))) else Err(InvalidDate)
  }

  /** Adding zero days to a canonical date returns it unchanged. */
  lemma AddDaysZero(s: string)
    requires Parse(s).Some?
    ensures AddDays(s, 0) == Ok(s)
  {
    FormatParse(s);
  }

  /** Adding `a` days and then `b` days is adding `a + b` days. */
  lemma AddDaysAdd(s: string, a: int, b: int)
    requires AddDays(s, a).Ok?
    ensures AddDays(AddDays(s, a).value, b) == AddDays(s, a + b)
  {
    ShiftShift(Parse(s).value, a, b);
  }

  /** A positive offset gives a strictly later day. */
  lemma AddDaysLater(s: string, n: int)
    requires n > 0 && AddDays(s, n).Ok?
    ensures Before(Parse(s).value, Parse(AddDays(s, n).value).value)
  {
    ShiftLater(Parse(s).value, n);
  }

  /** On a rendered day, `addDays` renders the shifted day. */
  lemma AddDaysFormat(d: Date, n: int)
    requires InRange(d) && InRange(Shift(d, n))
    ensures AddDays(Format(d), n) == Ok(Format(Shift(d, n)))
  {
    ParseFormat(d);
  }

  /** Once `addDays` has left the four-digit years, moving further forward
      stays out of them. */
  lemma AddDaysPastRange(s: string, i: int, n: int)
    requires Parse(s).Some? && AddDays(s, i).Err? && 0 <= i && 0 <= n
    ensures !InRange(Shift(Parse(s).value, i + n))
  {
    ShiftPastRange(Parse(s).value, i, n);
  }

  /** Moving the day `addDays` rendered on by `n` more days is moving the
      original day by the sum. */
  lemma AddDaysThenShift(s: string, i: int, n: int)
    requires AddDays(s, i).Ok?
    ensures Parse(AddDays(s, i).value).Some?
    ensures Shift(Parse(AddDays(s, i).value).value, n) == Shift(Parse(s).value, i + n)
  {
    ShiftShift(Parse(s).value, i, n);
  }

  /** Month and year rollover, and the leap day. */
  lemma AddDaysMonthEnd()
    ensures AddDays("2023-01-31", 1) == Ok("2023-02-01")
  {
    RenderedMonthEnd();
    RenderedMonthEndNext();
    assert Shift(Date(2023, 1, 31), 1) == Date(2023, 2, 1);
    AddDaysFormat(Date(2023, 1, 31), 1);
  }

  lemma RenderedMonthEnd()
    ensures Format(Date(2023, 1, 31)) == "2023-01-31"
  {
  }

  lemma RenderedMonthEndNext()
    ensures Format(Date(2023, 2, 1)) == "2023-02-01"
  {
  }

  lemma AddDaysLeapDay()
    ensures AddDays("2024-02-28", 1) == Ok("2024-02-29")
  {
    RenderedLeapDay();
    RenderedLeapDayNext();
    assert Shift(Date(2024, 2, 28), 1) == Date(2024, 2, 29);
    AddDaysFormat(Date(2024, 2, 28), 1);
  }

  lemma RenderedLeapDay()
    ensures Format(Date(2024, 2, 28)) == "2024-02-28"
  {
  }

  lemma RenderedLeapDayNext()
    ensures Format(Date(2024, 2, 29)) == "2024-02-29"
  {
  }

  lemma AddDaysCommonYearFebruary()
    ensures AddDays("2023-02-28", 1) == Ok("2023-03-01")
  {
    RenderedCommonYearFebruary();
    RenderedCommonYearFebruaryNext();
    assert Shift(Date(2023, 2, 28), 1) == Date(2023, 3, 1);
    AddDaysFormat(Date(2023, 2, 28), 1);
  }

  lemma RenderedCommonYearFebruary()
    ensures Format(Date(2023, 2, 28)) == "2023-02-28"
  {
  }

  lemma RenderedCommonYearFebruaryNext()
    ensures Format(Date(2023, 3, 1)) == "2023-03-01"
  {
  }

  lemma AddDaysYearEnd()
    ensures AddDays("2023-12-31", 1) == Ok("2024-01-01")
  {
    RenderedYearEnd();
    RenderedYearEndNext();
    assert Shift(Date(2023, 12, 31), 1) == Date(2024, 1, 1);
    AddDaysFormat(Date(2023, 12, 31), 1);
  }

  lemma RenderedYearEnd()
    ensures Format(Date(2023, 12, 31)) == "2023-12-31"
  {
  }

  lemma RenderedYearEndNext()
    ensures Format(Date(2024, 1, 1)) == "2024-01-01"
  {
  }

  /** A day the month does not have is rejected. */
  lemma AddDaysNoSuchDay()
    ensures AddDays("2023-02-29", 0) == Err(InvalidDate)
  {
    var s := "2023-02-29";
    assert s[..4] == "2023" && s[5..7] == "02" && s[8..] == "29";
    assert ValueOf("2023") == 2023 by {
      assert "2023"[..3] == "202" && "202"[..2] == "20" && "20"[..1] == "2";
    }
    assert ValueOf("02") == 2 by {
      assert "02"[..1] == "0";
    }
    assert ValueOf("29") == 29 by {
      assert "29"[..1] == "2";
    }
    assert !InRange(Date(2023, 2, 29));
  }
}
