/** Naive calendar dates in the proleptic Gregorian calendar, numbered and ordered
    the way Python's `datetime.date` numbers and orders them (`toordinal`,
    `weekday`, `<`, `replace(year=...)`, `+ timedelta(days=1)`). */
module Calendar {
  import opened Wrappers

  const MIN_YEAR: int := 1
  const MAX_YEAR: int := 9999

  datatype Date = Date(year: int, month: int, day: int)

  /** The last date Python can represent; adding a day to it overflows. */
  const LAST_DATE: Date := Date(MAX_YEAR, 12, 31)

  /** Why `replace(year=...)` refused: the year is outside 1..9999, or the day
      does not exist in that month of the target year (29 February). */
  datatype DateError = YearOutOfRange(year: int) | DayOutOfRange

  predicate IsLeap(y: int) {
    y % 4 == 0 && (y % 100 != 0 || y % 400 == 0)
  }

  function DaysInMonth(y: int, m: int): int
    requires 1 <= m <= 12
  {
    if m == 2 then (if IsLeap(y) then 29 else 28)
    else if m == 4 || m == 6 || m == 9 || m == 11 then 30
    else 31
  }

  function DaysInYear(y: int): int {
    if IsLeap(y) then 366 else 365
  }

  predicate ValidDate(d: Date) {
    MIN_YEAR <= d.year <= MAX_YEAR && 1 <= d.month <= 12 && 1 <= d.day <= DaysInMonth(d.year, d.month)
  }

  /** Python's date comparison: lexicographic on (year, month, day). */
  predicate Before(a: Date, b: Date) {
    a.year < b.year || (a.year == b.year && (a.month < b.month || (a.month == b.month && a.day < b.day)))
  }

  /** Days in the years before `y` (Python's `_days_before_year`). */
  function DaysBeforeYear(y: int): int
    requires y >= 1
  {
    var p := y - 1;
    p * 365 + p / 4 - p / 100 + p / 400
  }

  /** Days in the months of `y` before month `m` (Python's `_days_before_month`). */
  function DaysBeforeMonth(y: int, m: int): int
    requires 1 <= m <= 12
  {
    var common :=
      if m == 1 then 0 else if m == 2 then 31 else if m == 3 then 59
      else if m == 4 then 90 else if m == 5 then 120 else if m == 6 then 151
      else if m == 7 then 181 else if m == 8 then 212 else if m == 9 then 243
      else if m == 10 then 273 else if m == 11 then 304 else 334;
    if m > 2 && IsLeap(y) then common + 1 else common
  }

  /** The day number of `d`, 0001-01-01 being day 1 (Python's `toordinal`). */
  function Ordinal(d: Date): int
    requires ValidDate(d)
  {
    DaysBeforeYear(d.year) + DaysBeforeMonth(d.year, d.month) + d.day
  }

  /** Weekday of a day number, Monday = 0 ... Sunday = 6. */
  function WeekdayOf(n: int): int {
    (n + 6) % 7
  }

  /** Python's `date.weekday()`. */
  function Weekday(d: Date): int
    requires ValidDate(d)
  {
    WeekdayOf(Ordinal(d))
  }

  lemma DivStep4(y: int)
    requires y >= 1
    ensures y / 4 - (y - 1) / 4 == if y % 4 == 0 then 1 else 0
  {
    var q := (y - 1) / 4;
    assert 4 * q <= y - 1 < 4 * q + 4;
  }

  lemma DivStep100(y: int)
    requires y >= 1
    ensures y / 100 - (y - 1) / 100 == if y % 100 == 0 then 1 else 0
  {
    var q := (y - 1) / 100;
    assert 100 * q <= y - 1 < 100 * q + 100;
  }

  lemma DivStep400(y: int)
    requires y >= 1
    ensures y / 400 - (y - 1) / 400 == if y % 400 == 0 then 1 else 0
  {
    var q := (y - 1) / 400;
    assert 400 * q <= y - 1 < 400 * q + 400;
  }

  lemma MultipleOf100(k: int)
    ensures (100 * k) % 100 == 0
  {
  }

  lemma MultipleOf4(k: int)
    ensures (4 * k) % 4 == 0
  {
  }

  /** Multiples of 400 are multiples of 100, which are multiples of 4. */
  lemma Divisibility(y: int)
    ensures y % 400 == 0 ==> y % 100 == 0
    ensures y % 100 == 0 ==> y % 4 == 0
  {
    if y % 400 == 0 {
      var q := y / 400;
      assert y == 100 * (4 * q);
      MultipleOf100(4 * q);
    }
    if y % 100 == 0 {
      var q := y / 100;
      assert y == 4 * (25 * q);
      MultipleOf4(25 * q);
    }
  }

  /** One more year adds that year's length to the day count. */
  lemma YearStep(y: int)
    requires y >= 1
    ensures DaysBeforeYear(y + 1) == DaysBeforeYear(y) + DaysInYear(y)
  {
    DivStep4(y);
    DivStep100(y);
    DivStep400(y);
    Divisibility(y);
    assert y * 365 == (y - 1) * 365 + 365;
  }

  lemma {:induction false} YearsAreIncreasing(y1: int, y2: int)
    requires 1 <= y1 < y2
    ensures DaysBeforeYear(y1) + DaysInYear(y1) <= DaysBeforeYear(y2)
    decreases y2 - y1
  {
    YearStep(y1);
    if y1 + 1 < y2 {
      YearsAreIncreasing(y1 + 1, y2);
    }
  }

  /** A day of a valid date lies inside its own year's span of day numbers. */
  lemma OrdinalWithinYear(d: Date)
    requires ValidDate(d)
    ensures DaysBeforeYear(d.year) < Ordinal(d) <= DaysBeforeYear(d.year) + DaysInYear(d.year)
  {
  }

  /** Python's date order agrees with the order of day numbers. */
  lemma BeforeIsEarlier(a: Date, b: Date)
    requires ValidDate(a) && ValidDate(b)
    ensures Before(a, b) <==> Ordinal(a) < Ordinal(b)
    ensures a == b <==> Ordinal(a) == Ordinal(b)
  {
    OrdinalWithinYear(a);
    OrdinalWithinYear(b);
    if a.year < b.year {
      YearsAreIncreasing(a.year, b.year);
    } else if b.year < a.year {
      YearsAreIncreasing(b.year, a.year);
    }
  }

  /** `d + timedelta(days=1)`; Python overflows past `LAST_DATE`. */
  function NextDay(d: Date): (r: Date)
    requires ValidDate(d) && d != LAST_DATE
    ensures ValidDate(r) && Ordinal(r) == Ordinal(d) + 1
  {
    if d.day < DaysInMonth(d.year, d.month) then Date(d.year, d.month, d.day + 1)
    else if d.month < 12 then Date(d.year, d.month + 1, 1)
    else
      YearStep(d.year);
      Date(d.year + 1, 1, 1)
  }

  lemma LastDateIsFriday()
    ensures ValidDate(LAST_DATE) && Weekday(LAST_DATE) == 4
  {
  }

  /** A Saturday or Sunday is never the last representable date, so rolling a
      weekend forward never overflows. */
  lemma WeekendIsNotLast(d: Date)
    requires ValidDate(d) && Weekday(d) >= 5
    ensures d != LAST_DATE
  {
    LastDateIsFriday();
  }

  lemma WeekdayOfSuccessor(n: int)
    ensures WeekdayOf(n + 1) == (WeekdayOf(n) + 1) % 7
  {
    var q := (n + 6) / 7;
    assert n + 6 == 7 * q + WeekdayOf(n);
    if WeekdayOf(n) == 6 {
      assert n + 7 == 7 * (q + 1);
    } else {
      assert n + 7 == 7 * q + (WeekdayOf(n) + 1);
    }
  }

  lemma WeekdayOfNextDay(d: Date)
    requires ValidDate(d) && d != LAST_DATE
    ensures Weekday(NextDay(d)) == (Weekday(d) + 1) % 7
  {
    WeekdayOfSuccessor(Ordinal(d));
  }

  /** A Saturday rolls through Sunday to Monday, with no overflow on the way. */
  lemma SaturdayRoll(d: Date)
    requires ValidDate(d) && Weekday(d) == 5
    ensures d != LAST_DATE && NextDay(d) != LAST_DATE
    ensures Weekday(NextDay(d)) == 6 && Weekday(NextDay(NextDay(d))) == 0
    ensures WeekdayOf(Ordinal(d)) == 5 && WeekdayOf(Ordinal(d) + 1) == 6
    ensures Ordinal(NextDay(NextDay(d))) == Ordinal(d) + 2
  {
    WeekendIsNotLast(d);
    var sunday := NextDay(d);
    WeekdayOfNextDay(d);
    assert Weekday(sunday) == 6;
    WeekendIsNotLast(sunday);
    WeekdayOfNextDay(sunday);
  }

  /** A Sunday rolls to Monday, with no overflow. */
  lemma SundayRoll(d: Date)
    requires ValidDate(d) && Weekday(d) == 6
    ensures d != LAST_DATE && Weekday(NextDay(d)) == 0
    ensures WeekdayOf(Ordinal(d)) == 6 && Ordinal(NextDay(d)) == Ordinal(d) + 1
  {
    WeekendIsNotLast(d);
    WeekdayOfNextDay(d);
  }

  /** The first Monday-to-Friday date on or after `d`: Saturday and Sunday roll
      forward to the following Monday. */
  function NextWeekday(d: Date): (r: Date)
    requires ValidDate(d)
    ensures ValidDate(r) && Weekday(r) < 5
    ensures Ordinal(d) <= Ordinal(r) <= Ordinal(d) + 2
    ensures Weekday(d) < 5 ==> r == d
  {
    var w := Weekday(d);
    if w == 5 then
      SaturdayRoll(d);
      NextDay(NextDay(d))
    else if w == 6 then
      SundayRoll(d);
      NextDay(d)
    else d
  }

  /** The roll stops at the first weekday: every day it passes over is a
      Saturday or a Sunday. */
  lemma NextWeekdaySkipsOnlyWeekend(d: Date)
    requires ValidDate(d)
    ensures forall n :: Ordinal(d) <= n < Ordinal(NextWeekday(d)) ==> WeekdayOf(n) >= 5
  {
    var first, last := Ordinal(d), Ordinal(NextWeekday(d));
    if Weekday(d) == 5 {
      SaturdayRoll(d);
      assert last == first + 2 && WeekdayOf(first) == 5 && WeekdayOf(first + 1) == 6;
    } else if Weekday(d) == 6 {
      SundayRoll(d);
      assert last == first + 1 && WeekdayOf(first) == 6;
    } else {
      assert last == first;
    }
    WeekendRun(first, last);
  }

  lemma WeekendRun(first: int, last: int)
    requires || last == first
             || (last == first + 1 && WeekdayOf(first) == 6)
             || (last == first + 2 && WeekdayOf(first) == 5 && WeekdayOf(first + 1) == 6)
    ensures forall n :: first <= n < last ==> WeekdayOf(n) >= 5
  {
    forall n | first <= n < last
      ensures WeekdayOf(n) >= 5
    {
      assert n == first || n == first + 1;
    }
  }

  /** One step of the weekend roll does not change where the roll ends. */
  lemma RollStep(d: Date)
    requires ValidDate(d) && Weekday(d) >= 5
    ensures d != LAST_DATE && NextWeekday(NextDay(d)) == NextWeekday(d)
  {
    if Weekday(d) == 5 {
      SaturdayRoll(d);
    } else {
      SundayRoll(d);
    }
  }

  /** `d.replace(year=y)`. */
  function WithYear(d: Date, y: int): (r: Result<Date, DateError>)
    requires ValidDate(d)
    ensures r.Success? ==> ValidDate(r.value) && r.value.year == y && r.value.month == d.month && r.value.day == d.day
    ensures MIN_YEAR <= y <= MAX_YEAR ==> (r.Failure? <==> d.month == 2 && d.day == 29 && !IsLeap(y))
    ensures !(MIN_YEAR <= y <= MAX_YEAR) ==> r == Failure(YearOutOfRange(y))
  {
    if !(MIN_YEAR <= y <= MAX_YEAR) then Failure(YearOutOfRange(y))
    else if d.day > DaysInMonth(y, d.month) then Failure(DayOutOfRange)
    else Success(Date(y, d.month, d.day))
  }
}
