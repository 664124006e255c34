/**
 * The proleptic Gregorian calendar as Python's `datetime` module sees it:
 * dates, the day ordinal (0001-01-01 has ordinal 1), weekdays (Monday = 0),
 * adding whole days (`timedelta(days=n)`) and the ordering of `datetime`
 * values.  Years are unbounded above (Python stops at 9999).
 */
module Calendar {

  datatype Date = Date(year: int, month: int, day: int)

  /** A `datetime` without time zone, down to the microsecond. */
  datatype DateTime = DateTime(date: Date, hour: int, minute: int, second: int, microsecond: int)

  const MicrosPerDay: int := 86_400_000_000

  predicate IsLeapYear(y: int) {
    y % 4 == 0 && (y % 100 != 0 || y % 400 == 0)
  }

  function DaysInMonth(y: int, m: int): (n: int)
    requires 1 <= m <= 12
    ensures 28 <= n <= 31
    ensures m == 2 <==> n < 30
  {
    if m == 2 then (if IsLeapYear(y) then 29 else 28)
    else if m == 4 || m == 6 || m == 9 || m == 11 then 30
    else 31
  }

  function DaysInYear(y: int): int {
    if IsLeapYear(y) then 366 else 365
  }

  predicate ValidDate(d: Date) {
    d.year >= 1 && 1 <= d.month <= 12 && 1 <= d.day <= DaysInMonth(d.year, d.month)
  }

  predicate ValidDateTime(t: DateTime) {
    ValidDate(t.date) && 0 <= t.hour < 24 && 0 <= t.minute < 60 && 0 <= t.second < 60
    && 0 <= t.microsecond < 1_000_000
  }

  /** The calendar day after `d`. */
  function NextDay(d: Date): (r: Date)
    requires ValidDate(d)
    ensures ValidDate(r)
  {
    if d.day < DaysInMonth(d.year, d.month) then Date(d.year, d.month, d.day + 1)
    else if d.month < 12 then Date(d.year, d.month + 1, 1)
    else Date(d.year + 1, 1, 1)
  }

  /** The calendar day before `d`; Python raises OverflowError before 0001-01-01. */
  function PrevDay(d: Date): (r: Date)
    requires ValidDate(d) && d != Date(1, 1, 1)
    ensures ValidDate(r)
  {
    if d.day > 1 then Date(d.year, d.month, d.day - 1)
    else if d.month > 1 then Date(d.year, d.month - 1, DaysInMonth(d.year, d.month - 1))
    else Date(d.year - 1, 12, 31)
  }

  /** `d + timedelta(days=n)` for a non-negative `n`. */
  function AddDays(d: Date, n: nat): (r: Date)
    requires ValidDate(d)
    ensures ValidDate(r)
    decreases n
  {
    if n == 0 then d else AddDays(NextDay(d), n - 1)
  }

  function DaysBeforeYear(y: int): int
    requires y >= 1
  {
    var p := y - 1;
    365 * p + p / 4 - p / 100 + p / 400
  }

  function DaysBeforeMonth(y: int, m: int): int
    requires 1 <= m <= 12
  {
    if m == 1 then 0 else DaysBeforeMonth(y, m - 1) + DaysInMonth(y, m - 1)
  }

  /** Python's `date.toordinal()`. */
  function Ordinal(d: Date): int
    requires ValidDate(d)
  {
    DaysBeforeYear(d.year) + DaysBeforeMonth(d.year, d.month) + d.day
  }

  /** Python's `date.weekday()`: Monday is 0, Sunday is 6. */
  function Weekday(d: Date): int
    requires ValidDate(d)
  {
    (Ordinal(d) + 6) % 7
  }

  function TimeOfDayMicros(t: DateTime): int {
    ((t.hour * 60 + t.minute) * 60 + t.second) * 1_000_000 + t.microsecond
  }

  /** The instant as microseconds since 0001-01-01 00:00 minus one day. */
  function Micros(t: DateTime): int
    requires ValidDate(t.date)
  {
    Ordinal(t.date) * MicrosPerDay + TimeOfDayMicros(t)
  }

  /** `a < b` on Python datetimes. */
  predicate Before(a: DateTime, b: DateTime)
    requires ValidDate(a.date) && ValidDate(b.date)
  {
    Micros(a) < Micros(b)
  }

  /** Python compares datetimes field by field, most significant first. */
  predicate LexBefore(a: DateTime, b: DateTime) {
    a.date.year < b.date.year
    || (a.date.year == b.date.year && a.date.month < b.date.month)
    || (a.date.year == b.date.year && a.date.month == b.date.month && a.date.day < b.date.day)
    || (a.date == b.date && TimeOfDayMicros(a) < TimeOfDayMicros(b))
  }

  // ---------------------------------------------------------------------
  // Lemmas about the day count

  lemma DaysBeforeYearStep(y: int)
    requires y >= 1
    ensures DaysBeforeYear(y + 1) == DaysBeforeYear(y) + DaysInYear(y)
  {
    var p := y - 1;
    assert (p + 1) / 4 - p / 4 == (if y % 4 == 0 then 1 else 0);
    assert (p + 1) / 100 - p / 100 == (if y % 100 == 0 then 1 else 0);
    assert (p + 1) / 400 - p / 400 == (if y % 400 == 0 then 1 else 0);
  }

  lemma DaysBeforeDecember(y: int)
    ensures DaysBeforeMonth(y, 12) + 31 == DaysInYear(y)
  {
    var feb := DaysInMonth(y, 2);
    assert DaysBeforeMonth(y, 2) == 31;
    assert DaysBeforeMonth(y, 3) == 31 + feb;
    assert DaysBeforeMonth(y, 4) == 62 + feb;
    assert DaysBeforeMonth(y, 5) == 92 + feb;
    assert DaysBeforeMonth(y, 6) == 123 + feb;
    assert DaysBeforeMonth(y, 7) == 153 + feb;
    assert DaysBeforeMonth(y, 8) == 184 + feb;
    assert DaysBeforeMonth(y, 9) == 215 + feb;
    assert DaysBeforeMonth(y, 10) == 245 + feb;
    assert DaysBeforeMonth(y, 11) == 276 + feb;
    assert DaysBeforeMonth(y, 12) == 306 + feb;
  }

  lemma {:induction false} DaysBeforeMonthBound(y: int, m: int)
    requires 1 <= m <= 12
    ensures DaysBeforeMonth(y, m) + DaysInMonth(y, m) <= DaysInYear(y)
    decreases 12 - m
  {
    if m < 12 {
      DaysBeforeMonthBound(y, m + 1);
    } else {
      DaysBeforeDecember(y);
    }
  }

  /** Consecutive days have consecutive ordinals, across month and year ends. */
  lemma OrdinalNextDay(d: Date)
    requires ValidDate(d)
    ensures Ordinal(NextDay(d)) == Ordinal(d) + 1
  {
    if d.day < DaysInMonth(d.year, d.month) {
    } else if d.month < 12 {
    } else {
      DaysBeforeYearStep(d.year);
      DaysBeforeDecember(d.year);
    }
  }

  lemma {:induction false} OrdinalAddDays(d: Date, n: nat)
    requires ValidDate(d)
    ensures Ordinal(AddDays(d, n)) == Ordinal(d) + n
    decreases n
  {
    if n > 0 {
      OrdinalNextDay(d);
      OrdinalAddDays(NextDay(d), n - 1);
    }
  }

  /** Adding n days moves the weekday n steps on, modulo 7. */
  lemma WeekdayAddDays(d: Date, n: nat)
    requires ValidDate(d)
    ensures Weekday(AddDays(d, n)) == (Weekday(d) + n) % 7
  {
    OrdinalAddDays(d, n);
    ModAdd(Ordinal(d) + 6, n);
  }

  lemma ModAdd(x: int, n: int)
    ensures (x + n) % 7 == (x % 7 + n) % 7
  {
    var q := x / 7;
    assert x == 7 * q + x % 7;
    assert x + n == 7 * q + (x % 7 + n);
  }

  lemma PrevDayNextDay(d: Date)
    requires ValidDate(d)
    ensures NextDay(d) != Date(1, 1, 1) && PrevDay(NextDay(d)) == d
  {
  }

  lemma {:induction false} DaysBeforeYearMonotone(y: int, z: int)
    requires 1 <= y <= z
    ensures DaysBeforeYear(y) + 365 * (z - y) <= DaysBeforeYear(z)
    decreases z - y
  {
    if y < z {
      DaysBeforeYearStep(y);
      DaysBeforeYearMonotone(y + 1, z);
    }
  }

  lemma {:induction false} DaysBeforeMonthMonotone(y: int, m: int, n: int)
    requires 1 <= m <= n <= 12
    ensures DaysBeforeMonth(y, m) + 28 * (n - m) <= DaysBeforeMonth(y, n)
    decreases n - m
  {
    if m < n {
      DaysBeforeMonthMonotone(y, m, n - 1);
    }
  }

  /** An earlier date (field by field) has a smaller ordinal. */
  lemma OrdinalMonotone(a: Date, b: Date)
    requires ValidDate(a) && ValidDate(b)
    requires a.year < b.year || (a.year == b.year && a.month < b.month)
             || (a.year == b.year && a.month == b.month && a.day < b.day)
    ensures Ordinal(a) < Ordinal(b)
  {
    if a.year < b.year {
      DaysBeforeMonthBound(a.year, a.month);
      DaysBeforeYearStep(a.year);
      DaysBeforeYearMonotone(a.year + 1, b.year);
      DaysBeforeMonthMonotone(b.year, 1, b.month);
    } else if a.month < b.month {
      DaysBeforeMonthMonotone(a.year, a.month + 1, b.month);
    }
  }

  /** The numeric order used by the model is Python's field-by-field order. */
  lemma BeforeIsLexicographic(a: DateTime, b: DateTime)
    requires ValidDateTime(a) && ValidDateTime(b)
    ensures Before(a, b) <==> LexBefore(a, b)
  {
    if a.date == b.date {
    } else if LexBefore(a, b) {
      OrdinalMonotone(a.date, b.date);
    } else {
      OrdinalMonotone(b.date, a.date);
    }
  }

  /** `d.replace(day=28) + timedelta(days=4)` followed by `.replace(day=1)`. */
  function NextMonthFirst(d: Date): (r: Date)
    requires ValidDate(d)
    ensures ValidDate(r)
  {
    var t := AddDays(Date(d.year, d.month, 28), 4);
    Date(t.year, t.month, 1)
  }

  /** `(NextMonthFirst(d) - timedelta(days=1)).day`: the last day of d's month. */
  function LastDayOfMonth(d: Date): int
    requires ValidDate(d)
  {
    PrevDay(NextMonthFirst(d)).day
  }

  /** The `replace(day=28) + 4 days` trick lands in the next month, rolling December to January. */
  lemma NextMonthFirstIsNextMonth(d: Date)
    requires ValidDate(d)
    ensures NextMonthFirst(d) == if d.month == 12 then Date(d.year + 1, 1, 1) else Date(d.year, d.month + 1, 1)
  {
    var d0 := Date(d.year, d.month, 28);
    var d1 := NextDay(d0);
    var d2 := NextDay(d1);
    var d3 := NextDay(d2);
    var d4 := NextDay(d3);
    assert AddDays(d0, 4) == d4 by {
      assert AddDays(d3, 1) == d4;
      assert AddDays(d2, 2) == AddDays(d3, 1);
      assert AddDays(d1, 3) == AddDays(d2, 2);
    }
  }

  lemma LastDayOfMonthIsDaysInMonth(d: Date)
    requires ValidDate(d)
    ensures LastDayOfMonth(d) == DaysInMonth(d.year, d.month)
  {
    NextMonthFirstIsNextMonth(d);
  }
}
