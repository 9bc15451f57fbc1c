/**
 * Calendar arithmetic of the Python `datetime` values handled by the system, following the
 * conventions of the `arrow` library it uses: proleptic Gregorian dates, `shift(days=n)` moves the
 * date and keeps the time of day, `shift(years=n)` keeps the month and day (29 February becomes
 * 28 February in a common year), and `floor(frame)` goes back to the start of the frame at midnight.
 */
module Calendar {

  /** A calendar date. */
  datatype Date = Date(year: int, month: int, day: int)

  /** A UTC `datetime` at second resolution. */
  datatype DateTime = DateTime(date: Date, hour: int, minute: int, second: int)

  predicate IsLeapYear(year: int) {
    year % 4 == 0 && (year % 100 != 0 || year % 400 == 0)
  }

  function DaysInMonth(year: int, month: int): (n: int)
    requires 1 <= month <= 12
    ensures 28 <= n <= 31
    ensures n == 29 <==> month == 2 && IsLeapYear(year)
    ensures n == 28 <==> month == 2 && !IsLeapYear(year)
  {
    if month == 2 then (if IsLeapYear(year) then 29 else 28)
    else if month == 4 || month == 6 || month == 9 || month == 11 then 30
    else 31
  }

  predicate ValidDate(d: Date) {
    1 <= d.month <= 12 && 1 <= d.day <= DaysInMonth(d.year, d.month)
  }

  predicate Valid(t: DateTime) {
    ValidDate(t.date) && 0 <= t.hour < 24 && 0 <= t.minute < 60 && 0 <= t.second < 60
  }

  /** The values a Python `datetime` can hold: years 1 to 9999. */
  predicate InPythonRange(t: DateTime) {
    Valid(t) && 1 <= t.date.year <= 9999
  }

  predicate IsMidnight(t: DateTime) {
    t.hour == 0 && t.minute == 0 && t.second == 0
  }

  function Midnight(d: Date): (t: DateTime)
    ensures t.date == d && IsMidnight(t)
  {
    DateTime(d, 0, 0, 0)
  }

  // ---------------------------------------------------------------------------------------------
  // Order. Every valid value gets an integer key; comparing keys is comparing datetimes.

  function DateKey(d: Date): int {
    d.year * 372 + (d.month - 1) * 31 + (d.day - 1)
  }

  function SecondOfDay(t: DateTime): int {
    t.hour * 3600 + t.minute * 60 + t.second
  }

  function Key(t: DateTime): int {
    DateKey(t.date) * 86400 + SecondOfDay(t)
  }

  predicate Before(a: DateTime, b: DateTime) {
    Key(a) < Key(b)
  }

  predicate NotAfter(a: DateTime, b: DateTime) {
    Key(a) <= Key(b)
  }

  /** Two valid datetimes with the same key are the same datetime, so the order is total. */
  lemma KeyInjective(a: DateTime, b: DateTime)
    requires Valid(a) && Valid(b) && Key(a) == Key(b)
    ensures a == b
  {
    assert DateKey(a.date) == DateKey(b.date);
  }

  /** Comparing datetimes first compares their dates. */
  lemma KeyOrdersDates(a: DateTime, b: DateTime)
    requires Valid(a) && Valid(b)
    ensures DateKey(a.date) < DateKey(b.date) ==> Key(a) < Key(b)
    ensures Key(a) <= Key(b) ==> DateKey(a.date) <= DateKey(b.date)
  {
  }

  // ---------------------------------------------------------------------------------------------
  // Day steps.

  function NextDay(d: Date): (r: Date)
    requires ValidDate(d)
    ensures ValidDate(r) && DateKey(d) < DateKey(r)
    ensures r.year == d.year || r.year == d.year + 1
  {
    if d.day < DaysInMonth(d.year, d.month) then Date(d.year, d.month, d.day + 1)
    else if d.month < 12 then Date(d.year, d.month + 1, 1)
    else Date(d.year + 1, 1, 1)
  }

  function PrevDay(d: Date): (r: Date)
    requires ValidDate(d)
    ensures ValidDate(r) && DateKey(r) < DateKey(d)
    ensures r.year == d.year || r.year == d.year - 1
  {
    if d.day > 1 then Date(d.year, d.month, d.day - 1)
    else if d.month > 1 then Date(d.year, d.month - 1, DaysInMonth(d.year, d.month - 1))
    else Date(d.year - 1, 12, 31)
  }

  /** No valid date lies strictly between a date and the next one. */
  lemma NextDayIsSuccessor(d: Date, e: Date)
    requires ValidDate(d) && ValidDate(e) && DateKey(d) < DateKey(e)
    ensures DateKey(NextDay(d)) <= DateKey(e)
  {
    var n := NextDay(d);
    if e.year == d.year {
      if e.month == d.month {
        assert e.day > d.day && n == Date(d.year, d.month, d.day + 1);
      } else if e.month > d.month {
        assert DateKey(e) >= d.year * 372 + d.month * 31;
      }
    } else {
      assert e.year > d.year;
      assert DateKey(e) >= (d.year + 1) * 372;
    }
  }

  lemma PrevDayIsPredecessor(d: Date, e: Date)
    requires ValidDate(d) && ValidDate(e) && DateKey(e) < DateKey(d)
    ensures DateKey(e) <= DateKey(PrevDay(d))
  {
    if d.day == 1 && d.month > 1 {
      if e.year == d.year && e.month == d.month - 1 {
        assert e.day <= DaysInMonth(d.year, d.month - 1);
      }
    }
  }

  lemma PrevNextInverse(d: Date)
    requires ValidDate(d)
    ensures PrevDay(NextDay(d)) == d
    ensures NextDay(PrevDay(d)) == d
  {
  }

  /** `shift(days=n)`: moves the date by `n` days and keeps the time of day. */
  function ShiftDays(t: DateTime, n: int): (r: DateTime)
    requires Valid(t)
    ensures Valid(r)
    ensures r.hour == t.hour && r.minute == t.minute && r.second == t.second
    ensures n > 0 ==> Key(t) < Key(r)
    ensures n < 0 ==> Key(r) < Key(t)
    decreases if n < 0 then -n else n
  {
    if n == 0 then t
    else if n > 0 then ShiftDays(t.(date := NextDay(t.date)), n - 1)
    else ShiftDays(t.(date := PrevDay(t.date)), n + 1)
  }

  lemma ShiftOneDay(t: DateTime)
    requires Valid(t)
    ensures ShiftDays(t, 1) == t.(date := NextDay(t.date))
    ensures ShiftDays(t, -1) == t.(date := PrevDay(t.date))
  {
    assert ShiftDays(t.(date := NextDay(t.date)), 0) == t.(date := NextDay(t.date));
    assert ShiftDays(t.(date := PrevDay(t.date)), 0) == t.(date := PrevDay(t.date));
  }

  // ---------------------------------------------------------------------------------------------
  // Year steps.

  /** `shift(years=n)`: same month and day `n` years later, the day clamped to the month's length. */
  function ShiftYears(t: DateTime, n: int): (r: DateTime)
    requires Valid(t)
    ensures Valid(r)
    ensures r.date.year == t.date.year + n && r.date.month == t.date.month
    ensures r.date.day == t.date.day || (t.date.month == 2 && t.date.day == 29 && r.date.day == 28 && !IsLeapYear(r.date.year))
    ensures r.hour == t.hour && r.minute == t.minute && r.second == t.second
  {
    var y := t.date.year + n;
    var dim := DaysInMonth(y, t.date.month);
    t.(date := Date(y, t.date.month, if t.date.day <= dim then t.date.day else dim))
  }

  /** `shift(years=1, days=-1)`: the last day of the year-long span that starts at `t`, at the
      same time of day. */
  function YearSpanEnd(t: DateTime): (r: DateTime)
    requires Valid(t)
    ensures Valid(r)
    ensures r.date == PrevDay(ShiftYears(t, 1).date)
    ensures r.hour == t.hour && r.minute == t.minute && r.second == t.second
  {
    t.(date := PrevDay(ShiftYears(t, 1).date))
  }

  /** The span ends one day before the start one year later, and that start is the day after it. */
  lemma YearSpanEndShifts(t: DateTime)
    requires Valid(t)
    ensures YearSpanEnd(t) == ShiftDays(ShiftYears(t, 1), -1)
    ensures ShiftDays(YearSpanEnd(t), 1) == ShiftYears(t, 1)
  {
    var n := ShiftYears(t, 1);
    ShiftOneDay(n);
    ShiftOneDay(YearSpanEnd(t));
    PrevNextInverse(n.date);
  }

  /** A year-long span ends after its start, in the start's year or the next one, and the day
      after it is one year after the start. */
  lemma YearSpanEndFacts(t: DateTime)
    requires Valid(t)
    ensures Key(t) < Key(YearSpanEnd(t))
    ensures YearSpanEnd(t).date.year == t.date.year || YearSpanEnd(t).date.year == t.date.year + 1
    ensures NextDay(YearSpanEnd(t).date) == ShiftYears(t, 1).date
  {
    var n := ShiftYears(t, 1);
    var e := YearSpanEnd(t);
    PrevNextInverse(n.date);
    assert e.date.year >= t.date.year;
    if e.date.year == t.date.year {
      // `n` is 1 January of the next year, so `e` is 31 December, after any other day of the year.
      assert n.date.month == 1 && n.date.day == 1;
      assert t.date.month == 1 && t.date.day == 1;
    }
  }

  // ---------------------------------------------------------------------------------------------
  // Floors: the start of the day, week (Monday), month, quarter and year that contain a datetime.

  /** The days since 1 March of year 0. The year is counted from March, so that the leap day
      ends it: January and February belong to the year before, and each month starts the days
      of the months from March before it into that year. */
  function DayNumber(d: Date): int
  {
    var starts := [306, 337, 0, 31, 61, 92, 122, 153, 184, 214, 245, 275];
    var y := if d.month < 3 then d.year - 1 else d.year;
    365 * y + y / 4 - y / 100 + y / 400 + (if 1 <= d.month <= 12 then starts[d.month - 1] else 0) + (d.day - 1)
  }

  /** Day of the week, Monday being 0 (Python's `weekday()`). */
  function Weekday(d: Date): (w: int)
    requires ValidDate(d)
    ensures 0 <= w < 7
  {
    (DayNumber(d) + 2) % 7
  }

  /** 1 January 2024 is a Monday. */
  lemma WeekdayAnchor()
    ensures Weekday(Date(2024, 1, 1)) == 0
  {
  }

  lemma DivStep4(y: int)
    ensures y / 4 - (y - 1) / 4 == if y % 4 == 0 then 1 else 0
  {
  }

  lemma DivStep100(y: int)
    ensures y / 100 - (y - 1) / 100 == if y % 100 == 0 then 1 else 0
  {
  }

  lemma DivStep400(y: int)
    ensures y / 400 - (y - 1) / 400 == if y % 400 == 0 then 1 else 0
  {
  }

  lemma Mod400Is100(y: int)
    ensures y % 400 == 0 ==> y % 100 == 0
  {
    if y % 400 == 0 {
      assert y == 100 * (4 * (y / 400));
    }
  }

  lemma Mod100Is4(y: int)
    ensures y % 100 == 0 ==> y % 4 == 0
  {
    if y % 100 == 0 {
      assert y == 4 * (25 * (y / 100));
    }
  }

  /** The leap days counted up to a year grow by one exactly at a leap year. */
  lemma LeapTermStep(y: int)
    ensures (y / 4 - y / 100 + y / 400) - ((y - 1) / 4 - (y - 1) / 100 + (y - 1) / 400)
            == if IsLeapYear(y) then 1 else 0
  {
    DivStep4(y);
    DivStep100(y);
    DivStep400(y);
    Mod400Is100(y);
    Mod100Is4(y);
  }

  /** The last day of February is followed by the first of March, one day later in the count. */
  lemma DayNumberMarch(y: int)
    ensures ValidDate(Date(y, 2, DaysInMonth(y, 2)))
    ensures DayNumber(Date(y, 3, 1)) == DayNumber(Date(y, 2, DaysInMonth(y, 2))) + 1
  {
    LeapTermStep(y);
  }

  /** The next day is one day later in the count. */
  lemma DayNumberNext(d: Date)
    requires ValidDate(d)
    ensures DayNumber(NextDay(d)) == DayNumber(d) + 1
  {
    if d.day == DaysInMonth(d.year, d.month) && d.month == 2 {
      DayNumberMarch(d.year);
    }
  }

  /** The previous day is one day earlier in the count. */
  lemma DayNumberPrev(d: Date)
    requires ValidDate(d)
    ensures DayNumber(PrevDay(d)) == DayNumber(d) - 1
  {
    PrevNextInverse(d);
    DayNumberNext(PrevDay(d));
  }

  /** Any count of days that goes down by one from each day to the one before goes down by `n`
      over `n` days back. */
  lemma {:induction false} CountShiftBack(f: Date -> int, t: DateTime, n: int)
    requires Valid(t) && 0 <= n
    requires forall d {:trigger PrevDay(d)} :: ValidDate(d) ==> f(PrevDay(d)) == f(d) - 1
    ensures f(ShiftDays(t, -n).date) == f(t.date) - n
    decreases n
  {
    if n > 0 {
      var p := t.(date := PrevDay(t.date));
      ShiftBackFirst(t, n);
      CountShiftBack(f, p, n - 1);
    }
  }

  /** Going back `n` days is `n` days earlier in the count. */
  lemma DayNumberShiftBack(t: DateTime, n: int)
    requires Valid(t) && 0 <= n
    ensures DayNumber(ShiftDays(t, -n).date) == DayNumber(t.date) - n
  {
    forall d | ValidDate(d)
      ensures DayNumber(PrevDay(d)) == DayNumber(d) - 1
    {
      DayNumberPrev(d);
    }
    CountShiftBack(DayNumber, t, n);
  }

  /** Going back `n` days is going back one day and then `n - 1` more. */
  lemma ShiftBackFirst(t: DateTime, n: int)
    requires Valid(t) && n > 0
    ensures ShiftDays(t, -n) == ShiftDays(t.(date := PrevDay(t.date)), -(n - 1))
  {
  }

  /** Taking the remainder modulo 7 before subtracting does not change the remainder after. */
  lemma ModSevenShift(a: int, n: int)
    ensures (a % 7 - n) % 7 == (a - n) % 7
  {
    var q := a / 7;
    assert a % 7 - n == (a - n) - 7 * q;
  }

  /** The next day is the next day of the week. */
  lemma WeekdayNext(d: Date)
    requires ValidDate(d)
    ensures Weekday(NextDay(d)) == (Weekday(d) + 1) % 7
  {
    var a := DayNumber(d) + 2;
    DayNumberNext(d);
    assert Weekday(NextDay(d)) == (a + 1) % 7 && Weekday(d) == a % 7;
    ModSevenShift(a, -1);
  }

  /** Adding 7 does not change the remainder modulo 7. */
  lemma ModSevenPeriod(x: int)
    ensures (x + 7) % 7 == x % 7
  {
  }

  /** The previous day is the previous day of the week. */
  lemma WeekdayPrev(d: Date)
    requires ValidDate(d)
    ensures Weekday(PrevDay(d)) == (Weekday(d) + 6) % 7
  {
    var a := DayNumber(d) + 2;
    DayNumberPrev(d);
    assert Weekday(PrevDay(d)) == (a - 1) % 7 && Weekday(d) == a % 7;
    ModSevenShift(a, -6);
    ModSevenPeriod(a - 1);
  }

  /** Going back `n` days goes back `n` days of the week. */
  lemma WeekdayShiftBack(t: DateTime, n: int)
    requires Valid(t) && 0 <= n
    ensures Weekday(ShiftDays(t, -n).date) == (Weekday(t.date) - n) % 7
  {
    DayNumberShiftBack(t, n);
    WeekdayEarlier(t.date, ShiftDays(t, -n).date, n);
  }

  /** A date `n` days earlier in the count is `n` days earlier in the week. */
  lemma WeekdayEarlier(d: Date, e: Date, n: int)
    requires ValidDate(d) && ValidDate(e) && DayNumber(e) == DayNumber(d) - n
    ensures Weekday(e) == (Weekday(d) - n) % 7
  {
    var a := DayNumber(d) + 2;
    assert Weekday(e) == (a - n) % 7 && Weekday(d) == a % 7;
    ModSevenShift(a, n);
  }

  function StartOfDay(t: DateTime): (r: DateTime)
    requires Valid(t)
    ensures Valid(r) && IsMidnight(r) && r.date == t.date && NotAfter(r, t)
  {
    Midnight(t.date)
  }

  function StartOfWeek(t: DateTime): (r: DateTime)
    requires Valid(t)
    ensures Valid(r) && IsMidnight(r) && NotAfter(r, t)
    ensures Weekday(r.date) == 0
    ensures DayNumber(t.date) - DayNumber(r.date) == Weekday(t.date)
  {
    WeekStart(t);
    ShiftDays(StartOfDay(t), -Weekday(t.date))
  }

  /** Going back from the start of the day by its weekday reaches a Monday, that many days
      before. */
  lemma WeekStart(t: DateTime)
    requires Valid(t)
    ensures var r := ShiftDays(StartOfDay(t), -Weekday(t.date));
            && Weekday(r.date) == 0
            && DayNumber(t.date) - DayNumber(r.date) == Weekday(t.date)
            && NotAfter(r, t)
  {
    var w := Weekday(t.date);
    var s := StartOfDay(t);
    assert s.date == t.date;
    WeekdayShiftBack(s, w);
    assert (w - w) % 7 == 0;
    DayNumberShiftBack(s, w);
    ShiftBackNotAfter(s, w);
  }

  /** Going back never moves later. */
  lemma ShiftBackNotAfter(t: DateTime, n: int)
    requires Valid(t) && 0 <= n
    ensures NotAfter(ShiftDays(t, -n), t)
  {
  }

  function StartOfMonth(t: DateTime): (r: DateTime)
    requires Valid(t)
    ensures Valid(r) && IsMidnight(r) && NotAfter(r, t)
    ensures r.date == Date(t.date.year, t.date.month, 1)
  {
    Midnight(Date(t.date.year, t.date.month, 1))
  }

  function StartOfQuarter(t: DateTime): (r: DateTime)
    requires Valid(t)
    ensures Valid(r) && IsMidnight(r) && NotAfter(r, t)
    ensures r.date.year == t.date.year && r.date.day == 1
    ensures r.date.month in {1, 4, 7, 10} && r.date.month <= t.date.month < r.date.month + 3
  {
    Midnight(Date(t.date.year, (t.date.month - 1) / 3 * 3 + 1, 1))
  }

  function StartOfYear(t: DateTime): (r: DateTime)
    requires Valid(t)
    ensures Valid(r) && IsMidnight(r) && NotAfter(r, t)
    ensures r.date == Date(t.date.year, 1, 1)
  {
    Midnight(Date(t.date.year, 1, 1))
  }
}
