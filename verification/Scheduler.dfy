// When a scheduled query is due. Instants are UTC microseconds since 0001-01-01, a Monday.

module Scheduler {
  import opened Outcomes
  import opened Fermat

  const SECOND: int := 1_000_000
  const MINUTE: int := 60 * SECOND
  const HOUR: int := 60 * MINUTE
  const DAY: int := 24 * HOUR
  const WEEK: int := 7 * DAY
  const MAX_INSTANT: int := 3652059 * DAY - 1

  predicate InRange(t: int) {
    0 <= t <= MAX_INSTANT
  }

  /** Adding a timedelta to a datetime: leaving the years 1 to 9999 raises. */
  function Plus(t: int, delta: int): Result<int> {
    if InRange(t + delta) then Ok(t + delta) else Err(OverflowError)
  }

  function Weekday(t: int): int {
    t / DAY % 7
  }

  /** Monday-based weeks, numbered. */
  function WeekOf(t: int): int {
    t / WEEK
  }

  datatype TimeOfDay = TimeOfDay(hour: int, minute: int) {
    predicate Valid() {
      0 <= hour < 24 && 0 <= minute < 60
    }
  }

  type DayName = d: int | 0 <= d < 7

  /** replace(hour, minute): the day and the seconds stay. */
  function ReplaceTime(t: int, at: TimeOfDay): int {
    t / DAY * DAY + at.hour * HOUR + at.minute * MINUTE + t % MINUTE
  }

  /** The instant shows the given hour and minute. */
  predicate ShowsTime(t: int, at: TimeOfDay) {
    t % DAY / MINUTE == at.hour * 60 + at.minute
  }

  /** The next planned run, before any backoff. */
  function NextIteration(previous: int, interval: Option<int>, time: Option<TimeOfDay>,
                         day: Option<DayName>): Result<int>
  {
    match time
    case None =>
      if interval.None? then Err(TypeError) else Plus(previous, interval.value * SECOND)
    case Some(at) =>
      if !at.Valid() then Err(ValueError)
      else
        var normalized := ReplaceTime(previous, at);
        match (if normalized > previous then Plus(normalized, -DAY) else Ok(previous))
        case Err(e) => Err(e)
        case Ok(base) =>
          if interval.None? then Err(TypeError)
          else
            var daysToAdd := if day.None? then 0 else day.value - Weekday(normalized);
            match Plus(base, interval.value * SECOND)
            case Err(e) => Err(e)
            case Ok(delayed) =>
              match Plus(delayed, daysToAdd * DAY)
              case Err(e) => Err(e)
              case Ok(next) => Ok(ReplaceTime(next, at))
  }

  /** Exponential backoff after failures: 2^failures minutes, none without failures. */
  function Backoff(failures: nat): int {
    if failures == 0 then 0 else Pow(2, failures) * MINUTE
  }

  function ShouldScheduleNext(previous: int, now: int, interval: Option<int>, time: Option<TimeOfDay>,
                              day: Option<DayName>, failures: nat): Result<bool>
  {
    match NextIteration(previous, interval, time, day)
    case Err(e) => Err(e)
    case Ok(next) =>
      if failures != 0 then
        match Plus(next, Pow(2, failures) * MINUTE)
        case Err(_) => Ok(false)
        case Ok(delayed) => Ok(now > delayed)
      else Ok(now > next)
  }

  // ----- Arithmetic of days -----

  lemma DaySplit(d: int, r: int)
    requires 0 <= r < DAY
    ensures (d * DAY + r) / DAY == d && (d * DAY + r) % DAY == r
  {
  }

  lemma MinuteSplit(m: int, s: int)
    requires 0 <= s < MINUTE
    ensures (m * MINUTE + s) / MINUTE == m && (m * MINUTE + s) % MINUTE == s
  {
  }

  /** The parts of an instant: day, minute of the day, and what replace() keeps. */
  lemma Parts(t: int)
    ensures t == t / DAY * DAY + t % DAY / MINUTE * MINUTE + t % MINUTE
    ensures 0 <= t % DAY / MINUTE < 1440 && 0 <= t % MINUTE < MINUTE
  {
    var d, r := t / DAY, t % DAY;
    var m, s := r / MINUTE, r % MINUTE;
    MinuteSplit(d * 1440 + m, s);
  }

  lemma Replaced(t: int, at: TimeOfDay)
    requires at.Valid()
    ensures var n := ReplaceTime(t, at);
      n / DAY == t / DAY && n % MINUTE == t % MINUTE && ShowsTime(n, at)
    ensures InRange(t) ==> InRange(ReplaceTime(t, at))
  {
    var d, m, s := t / DAY, at.hour * 60 + at.minute, t % MINUTE;
    assert ReplaceTime(t, at) == d * DAY + (m * MINUTE + s);
    hide ReplaceTime;
    DaySplit(d, m * MINUTE + s);
    MinuteSplit(d * 1440 + m, s);
    MinuteSplit(m, s);
  }

  lemma ShiftDays(t: int, j: int, at: TimeOfDay)
    ensures ReplaceTime(t + j * DAY, at) == ReplaceTime(t, at) + j * DAY
    ensures (t + j * DAY) / DAY == t / DAY + j
  {
    Parts(t);
    Parts(t + j * DAY);
    DaySplit(t / DAY + j, t % DAY);
    assert t + j * DAY == (t / DAY + j) * DAY + t % DAY;
  }

  /** The run a timed plan counts from: the day before if the requested time is still to come. */
  function Base(previous: int, at: TimeOfDay): int {
    var normalized := ReplaceTime(previous, at);
    if normalized > previous then normalized - DAY else previous
  }

  /** The seconds a timed plan adds: the interval and the way to the requested weekday. */
  function Shifted(previous: int, interval: int, day: Option<DayName>): int {
    interval + if day.None? then 0 else (day.value - Weekday(previous)) * 86400
  }

  lemma TimedPlan(previous: int, interval: int, at: TimeOfDay, day: Option<DayName>)
    requires at.Valid()
    ensures var r := NextIteration(previous, Some(interval), Some(at), day);
      var base, next := Base(previous, at), Base(previous, at) + Shifted(previous, interval, day) * SECOND;
      && (r.Ok? ==> r.value == ReplaceTime(next, at))
      && (InRange(previous) && InRange(base) && InRange(base + interval * SECOND) && InRange(next) ==> r.Ok?)
  {
    hide ReplaceTime, Weekday, ShowsTime;
    SameWeekday(previous, at);
    var base, toAdd := Base(previous, at), if day.None? then 0 else day.value - Weekday(previous);
    assert base + Shifted(previous, interval, day) * SECOND == base + interval * SECOND + toAdd * DAY;
  }

  lemma SameWeekday(t: int, at: TimeOfDay)
    requires at.Valid()
    ensures Weekday(ReplaceTime(t, at)) == Weekday(t)
  {
    Replaced(t, at);
  }

  /** Whole-day intervals: the plan moves the previous run's day and shows the requested time. */
  lemma WholeDays(previous: int, j: int, at: TimeOfDay, day: Option<DayName>)
    requires at.Valid()
    ensures var r := NextIteration(previous, Some(j * 86400), Some(at), day);
      var n := ReplaceTime(previous, at);
      var toAdd := if day.None? then 0 else day.value - previous / DAY % 7;
      r.Ok? ==> r.value == n + (j - (if n > previous then 1 else 0) + toAdd) * DAY
  {
    hide ReplaceTime, NextIteration;
    TimedPlan(previous, j * 86400, at, day);
    var n, base := ReplaceTime(previous, at), Base(previous, at);
    var toAdd := if day.None? then 0 else day.value - previous / DAY % 7;
    ReplacedTwice(previous, at);
    ShiftDays(n, -1, at);
    ShiftDays(base, j + toAdd, at);
    assert Shifted(previous, j * 86400, day) * SECOND == (j + toAdd) * DAY;
  }

  lemma ReplacedTwice(t: int, at: TimeOfDay)
    requires at.Valid()
    ensures ReplaceTime(ReplaceTime(t, at), at) == ReplaceTime(t, at)
  {
    Replaced(t, at);
  }

  /** Within one day there is exactly one instant with a given time of day and given seconds. */
  lemma OneInstantPerDay(x: int, y: int, at: TimeOfDay)
    requires ShowsTime(x, at) && ShowsTime(y, at) && x % MINUTE == y % MINUTE && -DAY < x - y < DAY
    ensures x == y
  {
    Parts(x);
    Parts(y);
    assert x - y == (x / DAY - y / DAY) * DAY;
  }

  /**
   * Daily schedules: with an interval of k whole days the plan is the one instant in
   * (P + (k-1) days, P + k days] that shows the requested time at the seconds of P.
   */
  lemma DailyPlan(previous: int, k: int, at: TimeOfDay, x: int)
    requires at.Valid() && NextIteration(previous, Some(k * 86400), Some(at), None).Ok?
    ensures var n := NextIteration(previous, Some(k * 86400), Some(at), None).value;
      x == n <==> && previous + (k - 1) * DAY < x <= previous + k * DAY
                  && ShowsTime(x, at) && x % MINUTE == previous % MINUTE
  {
    WholeDays(previous, k, at, None);
    var n := NextIteration(previous, Some(k * 86400), Some(at), None).value;
    var m := ReplaceTime(previous, at);
    Replaced(previous, at);
    SameDayDistance(m, previous);
    var j := k - (if m > previous then 1 else 0);
    SameTimeLater(m, j, at);
    assert n == m + j * DAY;
    if previous + (k - 1) * DAY < x <= previous + k * DAY && ShowsTime(x, at) && x % MINUTE == previous % MINUTE {
      OneInstantPerDay(x, n, at);
    }
  }

  lemma SameDayDistance(x: int, y: int)
    requires x / DAY == y / DAY
    ensures -DAY < x - y < DAY
  {
  }

  lemma SameTimeLater(t: int, j: int, at: TimeOfDay)
    requires ShowsTime(t, at)
    ensures ShowsTime(t + j * DAY, at) && (t + j * DAY) % MINUTE == t % MINUTE
  {
    Parts(t);
    DaySplit(t / DAY + j, t % DAY);
    assert t + j * DAY == (t / DAY + j) * DAY + t % DAY;
    Parts(t + j * DAY);
  }

  /**
   * Weekly schedules, every k weeks: the plan is after P + (k-1) weeks and at most P + (k+1) weeks.
   * It falls on the requested day of the k-th Monday-based week after P's exactly when P's time of
   * day is not before the requested time; otherwise it falls on the day before the requested one.
   */
  lemma WeeklyPlan(previous: int, k: int, at: TimeOfDay, day: DayName)
    requires at.Valid() && NextIteration(previous, Some(7 * k * 86400), Some(at), Some(day)).Ok?
    ensures var n := NextIteration(previous, Some(7 * k * 86400), Some(at), Some(day)).value;
      && previous + (k - 1) * WEEK < n <= previous + (k + 1) * WEEK
      && ShowsTime(n, at) && n % MINUTE == previous % MINUTE
      && (ReplaceTime(previous, at) <= previous <==> Weekday(n) == day && WeekOf(n) == WeekOf(previous) + k)
      && (ReplaceTime(previous, at) > previous ==> Weekday(n) == (day + 6) % 7)
  {
    hide ReplaceTime, ShowsTime, NextIteration, WeekOf;
    var n := NextIteration(previous, Some(7 * k * 86400), Some(at), Some(day)).value;
    var late, j := WeeklyShift(previous, k, at, day);
    WeekOfDay(previous);
    WeekOfDay(n);
    DayOfNextWeek(previous / DAY, k, late, day);
  }

  lemma WeeklyShift(previous: int, k: int, at: TimeOfDay, day: DayName) returns (late: int, j: int)
    requires at.Valid() && NextIteration(previous, Some(7 * k * 86400), Some(at), Some(day)).Ok?
    ensures var n := NextIteration(previous, Some(7 * k * 86400), Some(at), Some(day)).value;
      && late == (if ReplaceTime(previous, at) > previous then 1 else 0)
      && j == 7 * k - late + (day - previous / DAY % 7)
      && n / DAY == previous / DAY + j
      && previous + (j - 1 + late) * DAY < n <= previous + (j + late) * DAY
      && ShowsTime(n, at) && n % MINUTE == previous % MINUTE
  {
    hide ReplaceTime, ShowsTime, NextIteration;
    var m := ReplaceTime(previous, at);
    WholeDays(previous, 7 * k, at, Some(day));
    Replaced(previous, at);
    SameDayDistance(m, previous);
    late := if m > previous then 1 else 0;
    j := 7 * k - late + (day - previous / DAY % 7);
    SameTimeLater(m, j, at);
    ShiftDays(m, j, at);
  }

  /** The same in day numbers. */
  lemma DayOfNextWeek(d: int, k: int, late: int, day: DayName)
    requires late == 0 || late == 1
    ensures var j := 7 * k - late + (day - d % 7);
      && 7 * k - late - 6 <= j <= 7 * k - late + 6
      && (late == 0 ==> (d + j) % 7 == day && (d + j) / 7 == d / 7 + k)
      && (late == 1 ==> (d + j) % 7 == (day + 6) % 7 != day)
  {
    var j := 7 * k - late + (day - d % 7);
    assert d + j == 7 * (d / 7 + k) + (day - late);
    WeekSplit(d / 7 + k, day - late);
  }

  lemma WeekSplit(w: int, r: int)
    requires -1 <= r < 7
    ensures (7 * w + r) % 7 == (r + 7) % 7 && (7 * w + r) / 7 == if r < 0 then w - 1 else w
  {
  }

  lemma WeekOfDay(t: int)
    ensures WeekOf(t) == t / DAY / 7
  {
    var d := t / DAY;
    var w, r := d / 7, d % 7;
    assert t == w * WEEK + (r * DAY + t % DAY);
  }

  // ----- What callers rely on -----

  /** The intervals the schedule form produces: at least a day with a time, at least a week with a day. */
  predicate ValidSchedule(interval: Option<int>, time: Option<TimeOfDay>, day: Option<DayName>) {
    && interval.Some? && interval.value >= 0
    && (time.Some? ==> time.value.Valid() && interval.value >= 86400)
    && (time.Some? && day.Some? ==> interval.value >= 7 * 86400)
  }

  /** Replacing the time a day or more after the run, counted from the shifted run, lands after the run. */
  lemma ReplacedIsLater(previous: int, moved: int, at: TimeOfDay)
    requires at.Valid()
    requires var m := ReplaceTime(previous, at);
      moved >= (if m > previous then m - DAY else previous) + DAY
    ensures ReplaceTime(moved, at) > previous
  {
    hide ReplaceTime;
    var m := ReplaceTime(previous, at);
    TimeAndSeconds(previous, at);
    TimeAndSeconds(moved, at);
    Parts(previous);
    assert moved / DAY >= previous / DAY;
    if m <= previous {
      assert moved / DAY >= previous / DAY + 1;
    }
  }

  lemma TimeAndSeconds(t: int, at: TimeOfDay)
    requires at.Valid()
    ensures ReplaceTime(t, at) == t / DAY * DAY + (at.hour * 60 + at.minute) * MINUTE + t % MINUTE
    ensures 0 <= (at.hour * 60 + at.minute) * MINUTE <= 1439 * MINUTE && 0 <= t % MINUTE < MINUTE
  {
  }

  /** A plan never lies before the run it follows; with a time of day it lies strictly after. */
  lemma PlanIsLater(previous: int, interval: Option<int>, time: Option<TimeOfDay>, day: Option<DayName>)
    requires ValidSchedule(interval, time, day) && NextIteration(previous, interval, time, day).Ok?
    ensures var n := NextIteration(previous, interval, time, day).value;
      n >= previous && (time.Some? ==> n > previous)
  {
    if time.Some? {
      var at := time.value;
      hide ReplaceTime;
      var m := ReplaceTime(previous, at);
      var base := if m > previous then m - DAY else previous;
      var toAdd := if day.None? then 0 else day.value - Weekday(m);
      ReplacedIsLater(previous, base + interval.value * SECOND + toAdd * DAY, at);
    }
  }

  /**
   * Being due is one comparison. A delay that leaves the calendar counts as never due, which agrees
   * with the comparison because the clock itself stays inside the calendar.
   */
  lemma DueExactly(previous: int, now: int, interval: Option<int>, time: Option<TimeOfDay>,
                   day: Option<DayName>, failures: nat)
    requires InRange(now)
    ensures ShouldScheduleNext(previous, now, interval, time, day, failures) ==
      match NextIteration(previous, interval, time, day)
      case Err(e) => Err(e)
      case Ok(next) => Ok(now > next + Backoff(failures))
  {
    PowerIsPositive(failures);
    if NextIteration(previous, interval, time, day).Ok? {
      PlanInRange(previous, interval, time, day);
    }
  }

  lemma {:induction false} PowerIsPositive(e: nat)
    ensures Pow(2, e) >= 1
  {
    if e > 0 {
      PowerIsPositive(e - 1);
    }
  }

  lemma PlanInRange(previous: int, interval: Option<int>, time: Option<TimeOfDay>, day: Option<DayName>)
    requires NextIteration(previous, interval, time, day).Ok?
    ensures InRange(NextIteration(previous, interval, time, day).value)
  {
    if time.Some? {
      hide ReplaceTime;
      var at := time.value;
      var x :| InRange(x) && NextIteration(previous, interval, time, day).value == ReplaceTime(x, at);
      Replaced(x, at);
    }
  }

  lemma {:induction false} PowerGrows(e: nat, f: nat)
    requires e <= f
    ensures Pow(2, e) <= Pow(2, f)
    decreases f
  {
    PowerIsPositive(e);
    if e < f {
      PowerGrows(e, f - 1);
    }
  }

  /** Once due, always due; and more failures never make a query due earlier. */
  lemma DueIsMonotone(previous: int, now: int, later: int, interval: Option<int>, time: Option<TimeOfDay>,
                      day: Option<DayName>, failures: nat, fewer: nat)
    requires InRange(now) && InRange(later) && now <= later && fewer <= failures
    requires ShouldScheduleNext(previous, now, interval, time, day, failures) == Ok(true)
    ensures ShouldScheduleNext(previous, later, interval, time, day, fewer) == Ok(true)
  {
    DueExactly(previous, now, interval, time, day, failures);
    DueExactly(previous, later, interval, time, day, fewer);
    PowerIsPositive(failures);
    PowerGrows(fewer, failures);
  }

  /** A query is never due at the instant of its own last run, whatever its failures. */
  lemma NotDueAtOwnRun(previous: int, interval: Option<int>, time: Option<TimeOfDay>, day: Option<DayName>,
                       failures: nat)
    requires InRange(previous) && ValidSchedule(interval, time, day)
    ensures ShouldScheduleNext(previous, previous, interval, time, day, failures) != Ok(true)
  {
    DueExactly(previous, previous, interval, time, day, failures);
    PowerIsPositive(failures);
    if NextIteration(previous, interval, time, day).Ok? {
      PlanIsLater(previous, interval, time, day);
    }
  }

  // ----- How short an interval may be -----

  /** Minutes of the requested time, at least one. */
  function LeadMinutes(at: TimeOfDay): int {
    var m := at.hour * 60 + at.minute;
    if m < 1 then 1 else m
  }

  /** The interval carries every run across midnight, or at least to its own minute. */
  predicate LongEnough(interval: int, at: TimeOfDay) {
    interval * SECOND + LeadMinutes(at) * MINUTE >= DAY
  }

  /** What remains of the interval after the longest way back to the requested weekday, which is Sunday's. */
  function Remaining(interval: int, day: Option<DayName>): int {
    if day.None? then interval else interval - (6 - day.value) * 86400
  }

  /** A run on a Sunday that is due at once. */
  lemma TooShortIsDueAtOnce(interval: int, at: TimeOfDay, day: Option<DayName>) returns (run: int)
    requires at.Valid() && interval >= 0 && !LongEnough(Remaining(interval, day), at)
    ensures InRange(run)
    ensures ShouldScheduleNext(run, run, Some(interval), Some(at), day, 0) == Ok(true)
  {
    hide ReplaceTime, Base, Shifted, NextIteration, SundayRun;
    run := SundayRun(at);
    SundayBase(at);
    SundayShift(run, interval, day);
    TimedPlan(run, interval, at, day);
    SundayPlanIsEarly(Remaining(interval, day), at);
  }

  lemma SundayPlanIsEarly(remaining: int, at: TimeOfDay)
    requires at.Valid() && !LongEnough(remaining, at)
    ensures ReplaceTime(Base(SundayRun(at), at) + remaining * SECOND, at) < SundayRun(at)
  {
    hide ReplaceTime, Base;
    SundayBase(at);
    var m := at.hour * 60 + at.minute;
    EarlierDay(Base(SundayRun(at), at) + remaining * SECOND, if m > 0 then 12 else 13, at);
  }

  /** The first minute of the second Sunday, or its second minute when the first is the requested one. */
  function SundayRun(at: TimeOfDay): int {
    13 * DAY + if at.hour * 60 + at.minute > 0 then 0 else MINUTE
  }

  lemma SundayBase(at: TimeOfDay)
    requires at.Valid()
    ensures var run, m := SundayRun(at), at.hour * 60 + at.minute;
      && 13 * DAY <= run <= 14 * DAY && Weekday(run) == 6
      && 12 * DAY <= Base(run, at) <= 14 * DAY
      && Base(run, at) == if m > 0 then 12 * DAY + m * MINUTE else run
  {
    ReplacedOnDay(13, SundayRun(at) - 13 * DAY, at);
    DaySplit(13, SundayRun(at) - 13 * DAY);
  }

  lemma SundayShift(run: int, interval: int, day: Option<DayName>)
    requires Weekday(run) == 6
    ensures Shifted(run, interval, day) == Remaining(interval, day)
  {
  }

  lemma EarlierDay(t: int, d: int, at: TimeOfDay)
    requires at.Valid() && t < (d + 1) * DAY
    ensures ReplaceTime(t, at) <= d * DAY + (at.hour * 60 + at.minute) * MINUTE + t % MINUTE
  {
    assert t / DAY <= d;
  }

  lemma ReplacedOnDay(d: int, r: int, at: TimeOfDay)
    requires 0 <= r < DAY
    ensures ReplaceTime(d * DAY + r, at) == d * DAY + at.hour * HOUR + at.minute * MINUTE + r % MINUTE
  {
    DaySplit(d, r);
    MinuteSplit(d * 1440 + r / MINUTE, r % MINUTE);
  }

  lemma LongEnoughIsNotDue(run: int, interval: int, at: TimeOfDay, day: Option<DayName>)
    requires at.Valid() && interval >= 0 && LongEnough(Remaining(interval, day), at) && InRange(run)
    ensures ShouldScheduleNext(run, run, Some(interval), Some(at), day, 0) != Ok(true)
  {
    hide ReplaceTime, Base, NextIteration;
    TimedPlan(run, interval, at, day);
    assert Shifted(run, interval, day) >= Remaining(interval, day);
    MovedFarEnough(run, Shifted(run, interval, day), at);
  }

  lemma MovedFarEnough(run: int, interval: int, at: TimeOfDay)
    requires at.Valid() && LongEnough(interval, at)
    ensures ReplaceTime(Base(run, at) + interval * SECOND, at) >= run
  {
    var moved := Base(run, at) + interval * SECOND;
    var d, r, s, m := run / DAY, run % DAY / MINUTE, run % MINUTE, at.hour * 60 + at.minute;
    Parts(run);
    TimeAndSeconds(run, at);
    TimeAndSeconds(moved, at);
    hide ReplaceTime;
    FarEnough(d, r, s, m, interval * SECOND);
  }

  /** The same for a run in minute r of day d and a requested minute m. */
  lemma FarEnough(d: int, r: int, s: int, m: int, shift: int)
    requires 0 <= r < 1440 && 0 <= m < 1440 && 0 <= s < MINUTE
    requires shift + (if m < 1 then 1 else m) * MINUTE >= DAY
    ensures var run := d * DAY + r * MINUTE + s;
      var moved := (if m > r then d * DAY + m * MINUTE + s - DAY else run) + shift;
      moved / DAY * DAY + m * MINUTE + moved % MINUTE >= run
  {
    var run := d * DAY + r * MINUTE + s;
    var moved := (if m > r then d * DAY + m * MINUTE + s - DAY else run) + shift;
    if m <= r && moved < (d + 1) * DAY {
      var t := moved - d * DAY - 1439 * MINUTE;
      LastMinute(d, t);
    } else {
      NotBefore(moved, if m > r then d else d + 1);
    }
  }

  lemma LastMinute(d: int, t: int)
    requires 0 <= t < MINUTE
    ensures var x := d * DAY + 1439 * MINUTE + t;
      x / DAY == d && x % MINUTE == t
  {
    DaySplit(d, 1439 * MINUTE + t);
    MinuteSplit(d * 1440 + 1439, t);
  }

  lemma NotBefore(t: int, d: int)
    requires t >= d * DAY
    ensures t / DAY * DAY >= d * DAY && t % MINUTE >= 0
  {
  }

  /**
   * A timed schedule is never due at the instant of its own last run exactly when what remains of its
   * interval plus the requested time, counted from 00:01, reaches a whole day.
   */
  lemma NeverDueAtOwnRunExactly(interval: int, at: TimeOfDay, day: Option<DayName>)
    requires at.Valid() && interval >= 0
    ensures LongEnough(Remaining(interval, day), at) <==>
      forall run :: InRange(run) ==> ShouldScheduleNext(run, run, Some(interval), Some(at), day, 0) != Ok(true)
  {
    if LongEnough(Remaining(interval, day), at) {
      forall run | InRange(run)
        ensures ShouldScheduleNext(run, run, Some(interval), Some(at), day, 0) != Ok(true)
      {
        LongEnoughIsNotDue(run, interval, at, day);
      }
    } else {
      var run := TooShortIsDueAtOnce(interval, at, day);
    }
  }

  /** More than 23 hours with a time, and more than six days with a weekday, do not suffice. */
  lemma HoursAndDaysDoNotSuffice()
    ensures exists run ::
              InRange(run) && ShouldScheduleNext(run, run, Some(82801), Some(TimeOfDay(0, 30)), None, 0) == Ok(true)
    ensures exists run ::
              InRange(run) && ShouldScheduleNext(run, run, Some(522000), Some(TimeOfDay(1, 0)), Some(0), 0) == Ok(true)
  {
    var daily := TooShortIsDueAtOnce(82801, TimeOfDay(0, 30), None);
    var weekly := TooShortIsDueAtOnce(522000, TimeOfDay(1, 0), Some(0));
  }

  // ----- The plan in plain numbers -----

  lemma PlainPlan(previous: int, interval: Option<int>, day: Option<DayName>)
    ensures NextIteration(previous, interval, None, day) ==
      if interval.None? then Err(TypeError)
      else if !InRange(previous + interval.value * 1_000_000) then Err(OverflowError)
      else Ok(previous + interval.value * 1_000_000)
  {
  }

  /**
   * Without a time of day a query is due exactly when more microseconds have passed since its last run
   * than its interval has, and 2^failures minutes more after failures.
   */
  lemma PlainDueExactly(previous: int, now: int, interval: int, day: Option<DayName>, failures: nat)
    requires InRange(now) && InRange(previous + interval * 1_000_000)
    ensures ShouldScheduleNext(previous, now, Some(interval), None, day, failures) ==
      Ok(now - previous > interval * 1_000_000 + if failures == 0 then 0 else Pow(2, failures) * 60_000_000)
  {
    DueExactly(previous, now, Some(interval), None, day, failures);
  }

  /** The instant a timed plan counts from: the last one up to the run, within a day, that is due its time. */
  predicate CountsFrom(previous: int, at: TimeOfDay, base: int) {
    if previous % DAY >= (at.hour * 60 + at.minute) * MINUTE + previous % MINUTE then base == previous
    else base / DAY == previous / DAY - 1 && ShowsTime(base, at) && base % MINUTE == previous % MINUTE
  }

  /** The days from the run's weekday to the requested one, back or forth within the week. */
  function DaysToWeekday(previous: int, day: Option<DayName>): int {
    if day.None? then 0 else day.value - previous / DAY % 7
  }

  /**
   * Any interval, with a time of day and perhaps a weekday: the plan is the one instant that shows the
   * requested time on the day, and at the seconds, reached from the base after the interval and the
   * days to the weekday.
   */
  lemma TimedPlanExactly(previous: int, interval: int, at: TimeOfDay, day: Option<DayName>, base: int, x: int)
    requires at.Valid() && CountsFrom(previous, at, base)
    requires NextIteration(previous, Some(interval), Some(at), day).Ok?
    ensures var reached := base + interval * SECOND + DaysToWeekday(previous, day) * DAY;
      NextIteration(previous, Some(interval), Some(at), day) == Ok(x) <==>
        ShowsTime(x, at) && x / DAY == reached / DAY && x % MINUTE == reached % MINUTE
  {
    hide NextIteration, ReplaceTime, ShowsTime, CountsFrom;
    BaseIsCountedFrom(previous, at, base);
    TimedPlan(previous, interval, at, day);
    var reached := base + interval * SECOND + DaysToWeekday(previous, day) * DAY;
    assert reached == base + Shifted(previous, interval, day) * SECOND;
    Replaced(reached, at);
    if ShowsTime(x, at) && x / DAY == reached / DAY && x % MINUTE == reached % MINUTE {
      SameDayDistance(x, ReplaceTime(reached, at));
      OneInstantPerDay(x, ReplaceTime(reached, at), at);
    }
  }

  predicate LeavesCalendar(previous: int, interval: Option<int>, day: Option<DayName>, base: int) {
    !InRange(base) ||
    (interval.Some? &&
     (!InRange(base + interval.value * SECOND) ||
      !InRange(base + interval.value * SECOND + DaysToWeekday(previous, day) * DAY)))
  }

  /** A timed plan raises for a bad time, a missing interval, or a step outside the calendar, in this order. */
  lemma TimedPlanRaisesExactly(previous: int, interval: Option<int>, at: TimeOfDay, day: Option<DayName>, base: int)
    requires InRange(previous) && (at.Valid() ==> CountsFrom(previous, at, base))
    ensures var r := NextIteration(previous, interval, Some(at), day);
      && (r == Err(ValueError) <==> !at.Valid())
      && (r == Err(TypeError) <==> at.Valid() && InRange(base) && interval.None?)
      && (r == Err(OverflowError) <==> at.Valid() && LeavesCalendar(previous, interval, day, base))
      && r != Err(ParseFailure)
  {
    hide ReplaceTime, CountsFrom, Weekday;
    if at.Valid() {
      BaseIsCountedFrom(previous, at, base);
      WeekdayOfPrevious(previous, at);
    }
  }

  lemma WeekdayOfPrevious(previous: int, at: TimeOfDay)
    requires at.Valid()
    ensures Weekday(ReplaceTime(previous, at)) == previous / DAY % 7
  {
    SameWeekday(previous, at);
  }

  lemma BaseIsCountedFrom(previous: int, at: TimeOfDay, base: int)
    requires at.Valid() && CountsFrom(previous, at, base)
    ensures base == Base(previous, at)
  {
    hide ShowsTime, ReplaceTime;
    var n := ReplaceTime(previous, at);
    TimeAndSeconds(previous, at);
    assert n > previous <==> previous % DAY < (at.hour * 60 + at.minute) * MINUTE + previous % MINUTE;
    if n > previous {
      Replaced(previous, at);
      SameTimeLater(n, -1, at);
      DayBefore(n);
      SameDayDistance(base, n - DAY);
      OneInstantPerDay(base, n - DAY, at);
    }
  }

  lemma DayBefore(t: int)
    ensures (t + -1 * DAY) / DAY == t / DAY - 1
  {
  }

  /**
   * Wednesday 1 January 2020 (day 737424), 10:00. Every seven days on Fridays at 09:30 the next run is
   * planned for Friday 10 January 09:30; every day at 09:30 for the next day; at 10:30 for the same day.
   */
  lemma PlansOfNewYear()
    ensures var wednesday := 737424 * 86_400_000_000;
      && NextIteration(wednesday + 36_000_000_000, Some(604800), Some(TimeOfDay(9, 30)), Some(4)) ==
         Ok(wednesday + 9 * 86_400_000_000 + 34_200_000_000)
      && NextIteration(wednesday + 36_000_000_000, Some(86400), Some(TimeOfDay(9, 30)), None) ==
         Ok(wednesday + 86_400_000_000 + 34_200_000_000)
      && NextIteration(wednesday + 36_000_000_000, Some(86400), Some(TimeOfDay(10, 30)), None) ==
         Ok(wednesday + 37_800_000_000)
  {
    hide NextIteration;
    PlanOfDays(737424, 600, 7, TimeOfDay(9, 30), Some(4));
    PlanOfDays(737424, 600, 1, TimeOfDay(9, 30), None);
    PlanOfDays(737424, 600, 1, TimeOfDay(10, 30), None);
  }

  /** A run in minute m of day d, planned again after j days. */
  lemma PlanOfDays(d: int, m: int, j: int, at: TimeOfDay, day: Option<DayName>)
    requires 0 <= m < 1440 && at.Valid() && 30 <= d < 1_000_000 && 0 <= j < 1000
    ensures var minute, toAdd := at.hour * 60 + at.minute, if day.None? then 0 else day.value - d % 7;
      NextIteration(d * DAY + m * MINUTE, Some(j * 86400), Some(at), day) ==
        Ok((d + j + toAdd - if minute > m then 1 else 0) * DAY + minute * MINUTE)
  {
    hide NextIteration, ReplaceTime;
    var previous := d * DAY + m * MINUTE;
    var minute, toAdd := at.hour * 60 + at.minute, if day.None? then 0 else day.value - d % 7;
    PlanExists(previous, j, at, day);
    DaySplit(d, m * MINUTE);
    ReplacedOnDay(d, m * MINUTE, at);
    MinuteSplit(m, 0);
    var n := ReplaceTime(previous, at);
    assert n == d * DAY + minute * MINUTE && previous / DAY == d;
    assert n > previous <==> minute > m;
    WholeDays(previous, j, at, day);
  }

  lemma PlanExists(previous: int, j: int, at: TimeOfDay, day: Option<DayName>)
    requires 30 * DAY <= previous < 1_000_000 * DAY && at.Valid() && 0 <= j < 1000
    ensures NextIteration(previous, Some(j * 86400), Some(at), day).Ok?
  {
    hide NextIteration, ReplaceTime, Base, Shifted;
    TimedPlan(previous, j * 86400, at, day);
    NearRun(previous, j, at, day);
  }

  lemma NearRun(previous: int, j: int, at: TimeOfDay, day: Option<DayName>)
    requires at.Valid()
    ensures previous - DAY <= Base(previous, at) <= previous
    ensures (j - 6) * DAY <= Shifted(previous, j * 86400, day) * SECOND <= (j + 6) * DAY
  {
    TimeAndSeconds(previous, at);
    Parts(previous);
    hide ReplaceTime;
  }
}
