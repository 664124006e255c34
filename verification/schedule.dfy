/**
 * The schedule: `calculate_next_backup_time`, the once-a-minute timer tick
 * `check_backup_time`, the start/stop of automatic backups and the range
 * defaulting applied to the stored weekday and day of month on load.
 *
 * The clock (`datetime.now()`) is a parameter.  Which backup runs when the
 * tick fires is modelled elsewhere; here a fired tick only records the
 * clock reading at which `perform_backup` was called.
 */
module Schedule {
  import opened Calendar
  import opened Options

  /** The time shown by the QTimeEdit. */
  datatype TimeOfDay = TimeOfDay(hour: int, minute: int, second: int)

  predicate ValidTime(t: TimeOfDay) {
    0 <= t.hour < 24 && 0 <= t.minute < 60 && 0 <= t.second < 60
  }

  /**
   * The period combo ("Ежедневно", "Еженедельно", "Ежемесячно") together
   * with the weekday combo index (0 = Monday) or the day-of-month spin box.
   */
  datatype Period = Daily | Weekly(weekday: int) | Monthly(dayOfMonth: int)

  /** The ranges the widgets allow: seven weekday entries, a spin box of 1..31. */
  predicate ValidPeriod(p: Period) {
    match p
    case Daily => true
    case Weekly(w) => 0 <= w < 7
    case Monthly(d) => 1 <= d <= 31
  }

  function Min(a: int, b: int): int {
    if a <= b then a else b
  }

  /** `datetime(d.year, d.month, d.day, t.hour(), t.minute(), t.second())`. */
  function At(d: Date, t: TimeOfDay): DateTime {
    DateTime(d, t.hour, t.minute, t.second, 0)
  }

  /** `calculate_next_backup_time`, with `datetime.now()` passed in as `now`. */
  function NextBackupTime(now: DateTime, time: TimeOfDay, period: Period): (r: DateTime)
    requires ValidDateTime(now) && ValidTime(time) && ValidPeriod(period)
    ensures ValidDateTime(r)
    ensures r == At(r.date, time)
  {
    var today := At(now.date, time);
    match period
    case Daily =>
      if Before(now, today) then today else At(AddDays(now.date, 1), time)
    case Weekly(w) =>
      var daysAhead := (w - Weekday(now.date)) % 7;
      if daysAhead == 0 && Before(now, today) then today
      else At(AddDays(now.date, if daysAhead == 0 then 7 else daysAhead), time)
    case Monthly(d) =>
      MonthlyNext(now, time, d)
  }

  /**
   * The monthly branch.  `datetime(y, m, day)` raises ValueError exactly when
   * `day` exceeds the month's length; the handler clamps `day` to the last day
   * found with the `replace(day=28) + timedelta(days=4)` trick.  The move to
   * the next month re-uses the possibly clamped `day`.
   */
  function MonthlyNext(now: DateTime, time: TimeOfDay, dayOfMonth: int): (r: DateTime)
    requires ValidDateTime(now) && ValidTime(time) && 1 <= dayOfMonth <= 31
    ensures ValidDateTime(r)
    ensures r == At(r.date, time)
  {
    var y, m := now.date.year, now.date.month;
    LastDayOfMonthIsDaysInMonth(now.date);
    var day := if dayOfMonth <= DaysInMonth(y, m) then dayOfMonth
               else Min(dayOfMonth, LastDayOfMonth(now.date));
    var candidate := At(Date(y, m, day), time);
    if Before(candidate, now) then
      var next := NextMonthFirst(now.date);
      LastDayOfMonthIsDaysInMonth(next);
      var day2 := if day <= DaysInMonth(next.year, next.month) then day
                  else Min(day, LastDayOfMonth(next));
      At(Date(next.year, next.month, day2), time)
    else
      candidate
  }

  // ---------------------------------------------------------------------
  // What the three policies promise

  lemma AfterToday(now: DateTime, time: TimeOfDay, k: nat)
    requires ValidDateTime(now) && ValidTime(time) && k >= 1
    ensures Before(now, At(AddDays(now.date, k), time))
    ensures Micros(At(AddDays(now.date, k), time)) == Micros(At(now.date, time)) + k * MicrosPerDay
  {
    OrdinalAddDays(now.date, k);
  }

  /**
   * Daily: today at the configured time when that is still ahead of `now`,
   * otherwise tomorrow at that time; so strictly after `now` and at most
   * one day later.
   */
  lemma DailyNext(now: DateTime, time: TimeOfDay)
    requires ValidDateTime(now) && ValidTime(time)
    ensures var r := NextBackupTime(now, time, Daily);
      && Before(now, r)
      && Micros(r) <= Micros(now) + MicrosPerDay
      && (r.date == now.date <==> Before(now, At(now.date, time)))
      && (r.date != now.date ==> r.date == NextDay(now.date))
  {
    var r := NextBackupTime(now, time, Daily);
    if !Before(now, At(now.date, time)) {
      AfterToday(now, time, 1);
      OrdinalNextDay(now.date);
      assert AddDays(now.date, 1) == NextDay(now.date);
    }
  }

  /** Day `j` from today (today is 0) at the configured time is a weekly slot still ahead of `now`. */
  predicate WeeklySlot(now: DateTime, time: TimeOfDay, w: int, j: nat)
    requires ValidDateTime(now)
  {
    Weekday(AddDays(now.date, j)) == w && Before(now, At(AddDays(now.date, j), time))
  }

  /** No day before the `k` the weekly branch chooses is a slot. */
  lemma NoEarlierWeeklySlot(now: DateTime, time: TimeOfDay, w: int, k: nat)
    requires ValidDateTime(now) && ValidTime(time) && 0 <= w < 7 && k <= 7
    requires var d := (w - Weekday(now.date)) % 7;
      k == (if d == 0 && Before(now, At(now.date, time)) then 0 else if d == 0 then 7 else d)
    ensures forall j: nat | j < k :: !WeeklySlot(now, time, w, j)
  {
    var a := Weekday(now.date);
    var ahead := Before(now, At(now.date, time));
    forall j: nat | j < k
      ensures !WeeklySlot(now, time, w, j)
    {
      WeekdayAddDays(now.date, j);
      EarlierDayMissesWeekday(a, w, ahead, k, j);
      if j == 0 {
        assert AddDays(now.date, 0) == now.date;
      }
    }
  }

  /** Before the chosen offset, a day lands on the wrong weekday, or it is today with the time passed. */
  lemma EarlierDayMissesWeekday(a: int, w: int, ahead: bool, k: int, j: int)
    requires 0 <= a < 7 && 0 <= w < 7 && 0 <= j < k
    requires var d := (w - a) % 7;
      k == (if d == 0 && ahead then 0 else if d == 0 then 7 else d)
    ensures (a + j) % 7 != w || (j == 0 && !ahead)
  {
    DaysToWeekday(a, w);
    if w >= a {
      assert (w - a) % 7 == w - a;
    } else {
      assert (w - a) % 7 == w - a + 7;
    }
    if a + j >= 7 {
      assert (a + j) % 7 == a + j - 7;
    } else {
      assert (a + j) % 7 == a + j;
    }
  }

  /** The weekly branch moves `k` days ahead, with `k` the days to the selected weekday (7 for today when its time has passed). */
  lemma WeeklyOffset(now: DateTime, time: TimeOfDay, w: int) returns (k: nat)
    requires ValidDateTime(now) && ValidTime(time) && 0 <= w < 7
    ensures k <= 7
    ensures var d := (w - Weekday(now.date)) % 7;
      k == (if d == 0 && Before(now, At(now.date, time)) then 0 else if d == 0 then 7 else d)
    ensures NextBackupTime(now, time, Weekly(w)) == At(AddDays(now.date, k), time)
  {
    var d := (w - Weekday(now.date)) % 7;
    k := if d == 0 && Before(now, At(now.date, time)) then 0 else if d == 0 then 7 else d;
    if k == 0 {
      assert AddDays(now.date, 0) == now.date;
    }
  }

  /**
   * Weekly: the result falls on the selected weekday, strictly after `now`,
   * at most seven days ahead, and no earlier day (counting today) at the
   * configured time would do: it is the first such instant.
   */
  lemma WeeklyNext(now: DateTime, time: TimeOfDay, w: int)
    requires ValidDateTime(now) && ValidTime(time) && 0 <= w < 7
    ensures var r := NextBackupTime(now, time, Weekly(w));
      && Weekday(r.date) == w
      && Before(now, r)
      && Micros(r) <= Micros(now) + 7 * MicrosPerDay
      && (exists k: nat | k <= 7 :: (r.date == AddDays(now.date, k) && WeeklySlot(now, time, w, k)
            && forall j: nat | j < k :: !WeeklySlot(now, time, w, j)))
  {
    var r := NextBackupTime(now, time, Weekly(w));
    var k := WeeklyOffset(now, time, w);
    WeekdayAddDays(now.date, k);
    DaysToWeekday(Weekday(now.date), w);
    assert Weekday(AddDays(now.date, k)) == w;
    if k >= 1 {
      WeeklyWithinAWeek(now, time, k);
    } else {
      assert AddDays(now.date, 0) == now.date;
    }
    assert WeeklySlot(now, time, w, k);
    NoEarlierWeeklySlot(now, time, w, k);
  }

  /** Counting `(w - a) % 7` days on from weekday `a` reaches weekday `w`; a full week returns to `a`. */
  lemma DaysToWeekday(a: int, w: int)
    requires 0 <= a < 7 && 0 <= w < 7
    ensures (a + (w - a) % 7) % 7 == w && (a + 7) % 7 == a
    ensures (w - a) % 7 == 0 <==> w == a
  {
    if w >= a {
      assert (w - a) % 7 == w - a;
    } else {
      assert (w - a) % 7 == w - a + 7;
    }
  }

  /** A slot one to seven days ahead, seven only when today's time has passed, lies within a week of `now`. */
  lemma WeeklyWithinAWeek(now: DateTime, time: TimeOfDay, k: nat)
    requires ValidDateTime(now) && ValidTime(time) && 1 <= k <= 7
    requires k == 7 ==> !Before(now, At(now.date, time))
    ensures var r := At(AddDays(now.date, k), time);
      Before(now, r) && Micros(r) <= Micros(now) + 7 * MicrosPerDay
  {
    var today := At(now.date, time);
    AfterToday(now, time, k);
    assert TimeOfDayMicros(today) < MicrosPerDay;
    assert Micros(today) < Micros(now) + MicrosPerDay;
  }

  /**
   * Monthly: the day is `min(D, days in the current month)`; if that instant
   * lies strictly before `now` the result moves to the next month (December
   * rolls over to January of the next year) and the already clamped day is
   * clamped again to that month's length.  An instant equal to `now` is kept,
   * so the result is never before `now`.
   */
  lemma MonthlyNextSpec(now: DateTime, time: TimeOfDay, d: int)
    requires ValidDateTime(now) && ValidTime(time) && 1 <= d <= 31
    ensures var r := NextBackupTime(now, time, Monthly(d));
      var y, m := now.date.year, now.date.month;
      var c := Min(d, DaysInMonth(y, m));
      var thisMonth := At(Date(y, m, c), time);
      && !Before(r, now)
      && (!Before(thisMonth, now) ==> r == thisMonth)
      && (Before(thisMonth, now) ==>
            && r.date.year == (if m == 12 then y + 1 else y)
            && r.date.month == (if m == 12 then 1 else m + 1)
            && r.date.day == Min(c, DaysInMonth(r.date.year, r.date.month)))
  {
    var r := NextBackupTime(now, time, Monthly(d));
    var y, m := now.date.year, now.date.month;
    var c := Min(d, DaysInMonth(y, m));
    LastDayOfMonthIsDaysInMonth(now.date);
    var thisMonth := At(Date(y, m, c), time);
    if Before(thisMonth, now) {
      var next := NextMonthFirst(now.date);
      NextMonthFirstIsNextMonth(now.date);
      LastDayOfMonthIsDaysInMonth(next);
      var last := Date(y, m, DaysInMonth(y, m));
      assert NextDay(last) == next;
      OrdinalNextDay(last);
      assert Ordinal(now.date) <= Ordinal(last);
      assert Ordinal(next) <= Ordinal(r.date);
    }
  }

  // ---------------------------------------------------------------------
  // Worked cases

  /** Monthly on the 31st, asked on 15 February 2024 (a leap year): 29 February. */
  lemma MonthEndLeapYear()
    ensures var now := DateTime(Date(2024, 2, 15), 9, 0, 0, 0);
      NextBackupTime(now, TimeOfDay(10, 0, 0), Monthly(31)) == DateTime(Date(2024, 2, 29), 10, 0, 0, 0)
  {
    var now := DateTime(Date(2024, 2, 15), 9, 0, 0, 0);
    LastDayOfMonthIsDaysInMonth(now.date);
  }

  /** The same in 2023: 28 February. */
  lemma MonthEndCommonYear()
    ensures var now := DateTime(Date(2023, 2, 15), 9, 0, 0, 0);
      NextBackupTime(now, TimeOfDay(10, 0, 0), Monthly(31)) == DateTime(Date(2023, 2, 28), 10, 0, 0, 0)
  {
    var now := DateTime(Date(2023, 2, 15), 9, 0, 0, 0);
    LastDayOfMonthIsDaysInMonth(now.date);
  }

  /**
   * Monthly on the 31st, asked on 30 April after the configured time: the
   * model (like the code) gives 30 May, because the day clamped for April is
   * carried into May.
   */
  lemma MonthlyCarriesClampedDay()
    ensures var now := DateTime(Date(2024, 4, 30), 12, 0, 0, 0);
      NextBackupTime(now, TimeOfDay(10, 0, 0), Monthly(31)) == DateTime(Date(2024, 5, 30), 10, 0, 0, 0)
  {
    var now := DateTime(Date(2024, 4, 30), 12, 0, 0, 0);
    MonthlyNextSpec(now, TimeOfDay(10, 0, 0), 31);
  }

  /** Weekly on Monday at 00:00, asked on Sunday 10 March 2024 at 23:59: the next day. */
  lemma WeeklyWrapsToNextDay()
    ensures var now := DateTime(Date(2024, 3, 10), 23, 59, 0, 0);
      NextBackupTime(now, TimeOfDay(0, 0, 0), Weekly(0)) == DateTime(Date(2024, 3, 11), 0, 0, 0, 0)
  {
    var sunday := Date(2024, 3, 10);
    assert Weekday(sunday) == 6;
    assert AddDays(sunday, 1) == Date(2024, 3, 11);
  }

  // ---------------------------------------------------------------------
  // Values restored by load_settings

  /** A stored weekday index is used when the combo has such an entry, otherwise 0. */
  function LoadWeekday(stored: int, count: int): (w: int)
    requires count >= 1
    ensures 0 <= w < count
    ensures 0 <= stored < count ==> w == stored
  {
    if 0 <= stored < count then stored else 0
  }

  /** A stored day of month is used when it lies in 1..31, otherwise 1. */
  function LoadMonthday(stored: int): (d: int)
    ensures 1 <= d <= 31
    ensures 1 <= stored <= 31 ==> d == stored
  {
    if 1 <= stored <= 31 then stored else 1
  }

  /** The earlier loader keeps the current index when the stored one is out of range. */
  function LoadWeekdayKeepingCurrent(stored: int, count: int, current: int): (w: int)
    ensures 0 <= stored < count ==> w == stored
    ensures !(0 <= stored < count) ==> w == current
  {
    if 0 <= stored < count then stored else current
  }

  /** `QSpinBox.setValue` bounds the value to the spin box range 1..31. */
  function SpinBoxMonthday(stored: int): (d: int)
    ensures 1 <= d <= 31
    ensures 1 <= stored <= 31 ==> d == stored
    ensures stored > 31 ==> d == 31
  {
    if stored < 1 then 1 else if stored > 31 then 31 else stored
  }

  /** Whatever the settings store held, the restored period is one the scheduler accepts. */
  lemma LoadedPeriodIsValid(storedWeekday: int, storedMonthday: int)
    ensures ValidPeriod(Weekly(LoadWeekday(storedWeekday, 7)))
    ensures ValidPeriod(Monthly(LoadMonthday(storedMonthday)))
    ensures ValidPeriod(Monthly(SpinBoxMonthday(storedMonthday)))
  {
  }

  // ---------------------------------------------------------------------
  // The timer-driven scheduler

  /**
   * The window's scheduling state: the widgets' time and period, whether the
   * minute timer runs, `next_backup_time` (absent until the first start,
   * which the code tests with `hasattr`) and the clock readings at which a
   * tick called `perform_backup`.
   */
  class Scheduler {
    var time: TimeOfDay
    var period: Period
    var timerActive: bool
    var nextBackupTime: Option<DateTime>
    var backupsRun: seq<DateTime>

    ghost predicate Valid()
      reads this
    {
      ValidTime(time) && ValidPeriod(period)
      && (nextBackupTime.Some? ==> ValidDateTime(nextBackupTime.value))
    }

    constructor (time: TimeOfDay, period: Period)
      requires ValidTime(time) && ValidPeriod(period)
      ensures Valid()
      ensures this.time == time && this.period == period
      ensures !timerActive && nextBackupTime == None && backupsRun == []
    {
      this.time := time;
      this.period := period;
      timerActive := false;
      nextBackupTime := None;
      backupsRun := [];
    }

    /**
     * `start_backup`: when the backup conditions hold, start the minute timer
     * and compute the next run from the clock reading `now`.
     * `conditionsHold` is the answer of `validate_backup_conditions`, which
     * `Tabs.ValidateBackupConditions` models (with the destination it may
     * create); the caller passes it in so that the timer's state stays apart
     * from the file system.
     */
    method StartBackup(conditionsHold: bool, now: DateTime) returns (started: bool)
      requires Valid() && ValidDateTime(now)
      modifies this
      ensures Valid()
      ensures started == conditionsHold
      ensures started ==> timerActive && nextBackupTime == Some(NextBackupTime(now, time, period))
      ensures !started ==> timerActive == old(timerActive) && nextBackupTime == old(nextBackupTime)
      ensures time == old(time) && period == old(period) && backupsRun == old(backupsRun)
    {
      started := conditionsHold;
      if started {
        timerActive := true;
        nextBackupTime := Some(NextBackupTime(now, time, period));
      }
    }

    /**
     * `start_backup_from_settings` of the single-file version: nothing starts
     * unless both the source file and the destination folder are set.
     */
    method StartBackupFromSettings(sourceFile: string, destinationFolder: string, now: DateTime)
      returns (started: bool)
      requires Valid() && ValidDateTime(now)
      modifies this
      ensures Valid()
      ensures started <==> sourceFile != "" && destinationFolder != ""
      ensures started ==> timerActive && nextBackupTime == Some(NextBackupTime(now, time, period))
      ensures !started ==> timerActive == old(timerActive) && nextBackupTime == old(nextBackupTime)
      ensures time == old(time) && period == old(period) && backupsRun == old(backupsRun)
    {
      started := sourceFile != "" && destinationFolder != "";
      if started {
        timerActive := true;
        nextBackupTime := Some(NextBackupTime(now, time, period));
      }
    }

    /** `stop_backup`: the timer stops; the last computed time is kept. */
    method StopBackup()
      requires Valid()
      modifies this
      ensures Valid()
      ensures !timerActive
      ensures time == old(time) && period == old(period)
      ensures nextBackupTime == old(nextBackupTime) && backupsRun == old(backupsRun)
    {
      timerActive := false;
    }

    /**
     * `check_backup_time`: at the clock reading `now`, run a backup iff a next
     * time exists and `now >= next_backup_time`; then recompute the next time
     * from the clock reading `later` taken after the backup.
     */
    method CheckBackupTime(now: DateTime, later: DateTime) returns (fired: bool)
      requires Valid() && ValidDateTime(now) && ValidDateTime(later)
      modifies this
      ensures Valid()
      ensures fired <==> old(nextBackupTime).Some? && !Before(now, old(nextBackupTime).value)
      ensures fired ==> backupsRun == old(backupsRun) + [now]
                        && nextBackupTime == Some(NextBackupTime(later, time, period))
      ensures !fired ==> backupsRun == old(backupsRun) && nextBackupTime == old(nextBackupTime)
      ensures time == old(time) && period == old(period) && timerActive == old(timerActive)
    {
      fired := nextBackupTime.Some? && !Before(now, nextBackupTime.value);
      if fired {
        backupsRun := backupsRun + [now];
        nextBackupTime := Some(NextBackupTime(later, time, period));
      }
    }
  }

  /**
   * After a tick fires, the new next time is not before the clock reading it
   * was computed from (strictly after it for the daily and weekly policies),
   * so a second tick at that same reading does not fire again.
   */
  lemma NextTimeNotBeforeClock(now: DateTime, time: TimeOfDay, period: Period)
    requires ValidDateTime(now) && ValidTime(time) && ValidPeriod(period)
    ensures !Before(NextBackupTime(now, time, period), now)
    ensures !period.Monthly? ==> Before(now, NextBackupTime(now, time, period))
  {
    match period
    case Daily => DailyNext(now, time);
    case Weekly(w) => WeeklyNext(now, time, w);
    case Monthly(d) => MonthlyNextSpec(now, time, d);
  }
}
