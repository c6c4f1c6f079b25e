/** What the real-time clock module (pxbee/drivers/rtc/rtc.c) does on time: the alarm, the
    periodic task and the timeout. */
module RtcAlarm {
  import opened Arithmetic
  import opened Calendar
  import opened Rtc
  import opened Words

  // The alarm

  /** An alarm is accepted exactly when it is later than now. */
  lemma AlarmAcceptedExactly(s: State, alarm: Date)
    requires ValidDate(s.date) && ValidDate(alarm)
    ensures SetAlarm(s, alarm).1 == 0 <==> Seconds(s.date) < Seconds(alarm)
  {
    hide Seconds, ValidDate, Before;
    BeforeCounts(s.date, alarm);
  }

  /** The state after `n` calls of `update_date`. */
  function Updates(s: State, n: nat): State {
    if n == 0 then s else UpdateDate(Updates(s, n - 1))
  }

  lemma {:induction false} UpdatesState(s: State, n: nat)
    ensures Updates(s, n).date == After(s.date, n) && Updates(s, n).alarm == s.alarm
  {
    hide NextSecond;
    if n > 0 {
      UpdatesState(s, n - 1);
      UpdateCounters(Updates(s, n - 1));
    }
  }

  /** An accepted valid alarm fires at the second it names, once, and at no other second of
      the calendar. */
  lemma {:induction false} AlarmFiresOnTime(s: State, alarm: Date, n: nat)
    requires ValidDate(s.date) && ValidDate(alarm) && SetAlarm(s, alarm).1 == 0
    requires Seconds(s.date) + n <= Seconds(EndOfCalendar())
    ensures var wait := Seconds(alarm) - Seconds(s.date);
            && wait > 0
            && Updates(SetAlarm(s, alarm).0, n).alarms == s.alarms + (if n < wait then 0 else 1)
  {
    hide NextSecond, Seconds, ValidDate, Before, After;
    var s0 := SetAlarm(s, alarm).0;
    AlarmAcceptedExactly(s, alarm);
    if n > 0 {
      AlarmFiresOnTime(s, alarm, n - 1);
      var before := Updates(s0, n - 1);
      UpdatesState(s0, n - 1);
      UpdatesState(s0, n);
      AfterCounts(s.date, n);
      BeforeCounts(After(s.date, n), alarm);
      UpdateFires(before);
    }
  }

  /** What the alarm does after the date has been set: it fires at its second if that is still to
      come, and not at all if the date has been moved to it or past it. */
  lemma {:induction false} AlarmAfterDateIsSet(s: State, newDate: Date, n: nat)
    requires ValidDate(newDate) && ValidDate(s.alarm)
    requires Seconds(newDate) + n <= Seconds(EndOfCalendar())
    ensures var wait := Seconds(s.alarm) - Seconds(newDate);
            Updates(ConfigDate(s, newDate), n).alarms == s.alarms + (if 0 < wait <= n then 1 else 0)
  {
    hide NextSecond, Seconds, ValidDate, After;
    if n > 0 {
      var s0 := ConfigDate(s, newDate);
      AlarmAfterDateIsSet(s, newDate, n - 1);
      UpdatesState(s0, n - 1);
      UpdatesState(s0, n);
      AfterCounts(newDate, n);
      BeforeCounts(After(newDate, n), s.alarm);
      UpdateFires(Updates(s0, n - 1));
    }
  }

  lemma UpdateFires(s: State)
    ensures UpdateDate(s).alarms == s.alarms + (if UpdateDate(s).date == s.alarm then 1 else 0)
  {
    hide NextSecond;
  }

  /** An alarm that is not a date, such as 30 February, may be accepted but never fires. */
  lemma {:induction false} InvalidAlarmNeverFires(s: State, n: nat)
    requires ValidDate(s.date) && !ValidDate(s.alarm)
    requires Seconds(s.date) + n <= Seconds(EndOfCalendar())
    ensures Updates(s, n).alarms == s.alarms
  {
    hide NextSecond, Seconds, ValidDate, After;
    if n > 0 {
      InvalidAlarmNeverFires(s, n - 1);
      UpdatesState(s, n - 1);
      UpdatesState(s, n);
      AfterCounts(s.date, n);
      UpdateFires(Updates(s, n - 1));
    }
  }

  /** Events deal with the alarm as the calls of `update_date` they make do. */
  lemma EventUpdates(s: State, e: Event)
    ensures var n := Next(s, e);
            var k := n.updates - s.updates;
            k >= 0 && n.date == Updates(s, k).date && n.alarm == s.alarm && n.alarms == Updates(s, k).alarms
  {
    hide Isr, After;
    AfterNone(s.date);
    if e == Tick {
      IsrCounters(s);
      IsrAlarms(s, Isr(s).updates - s.updates);
      UpdatesState(s, Isr(s).updates - s.updates);
    }
  }

  lemma IsrAlarms(s: State, k: nat)
    requires Isr(s).updates == s.updates + k
    ensures Isr(s).alarms == Updates(s, k).alarms
  {
    hide UpdateDate, CarrySeconds, CheckClock, CheckPeriodicTask, After, NextSecond;
    var c := CountDown(s);
    ClockAlarms(c);
    ClockCounters(c);
    SameAlarms(c, s, k);
  }

  lemma ClockCounters(c: State)
    ensures CheckPeriodicTask(CheckClock(c)).updates == CheckClock(c).updates
    ensures CheckPeriodicTask(CheckClock(c)).alarms == CheckClock(c).alarms
  {
    hide CheckClock;
  }

  lemma ClockAlarms(c: State)
    ensures var k := CheckClock(c).updates - c.updates;
            0 <= k <= 2 && CheckClock(c).alarms == Updates(c, k).alarms
  {
    hide NextSecond, CarrySeconds, UpdateDate;
    if c.slow {
      var s1 := c.(msUptime := (c.msUptime + SLOW_MSEC_INC) % WORD32, uptime := (c.uptime + SLOW_SEC_INC) % WORD32);
      TwoUpdates(s1);
      SameAlarms(s1, c, 2);
      assert Updates(s1, 2) == UpdateDate(Updates(s1, 1)) == UpdateDate(UpdateDate(Updates(s1, 0)));
    } else {
      var s1 := c.(msUptime := (c.msUptime + FAST_MSEC_INC) % WORD32, ticks := (c.ticks + 1) % WORD16);
      SameAlarms(s1, c, 0);
      if s1.ticks >= HZ {
        CarryAlarms(s1);
        SameAlarms(s1, c, CarrySeconds(s1).updates - s1.updates);
      }
    }
  }

  lemma CarryAlarms(s: State)
    requires HZ <= s.ticks < WORD16
    ensures var k := CarrySeconds(s).updates - s.updates;
            1 <= k <= 2 && CarrySeconds(s).alarms == Updates(s, k).alarms
  {
    hide NextSecond, UpdateDate, After;
    CarryCounters(s);
    var s1 := s.(uptime := (s.uptime + s.ticks / HZ) % WORD32);
    SameAlarms(s1, s, 1);
    SameAlarms(s1, s, 2);
    assert Updates(s1, 2) == UpdateDate(Updates(s1, 1)) && Updates(s1, 1) == UpdateDate(Updates(s1, 0));
  }

  /** How often the alarm fires depends on the date and the alarm only. */
  lemma {:induction false} SameAlarms(s: State, t: State, n: nat)
    requires s.date == t.date && s.alarm == t.alarm && s.alarms == t.alarms
    ensures Updates(s, n).date == Updates(t, n).date && Updates(s, n).alarm == Updates(t, n).alarm
    ensures Updates(s, n).alarms == Updates(t, n).alarms
  {
    hide NextSecond;
    if n > 0 {
      SameAlarms(s, t, n - 1);
    }
  }

  lemma {:induction false} UpdatesMore(s: State, a: nat, b: nat)
    ensures Updates(Updates(s, a), b) == Updates(s, a + b)
  {
    hide UpdateDate;
    if b > 0 {
      UpdatesMore(s, a, b - 1);
    }
  }

  /** Nor does it matter which ticks, in which mode, the seconds come from. */
  lemma {:induction false} RunUpdates(s: State, es: seq<Event>)
    ensures var n := RunAll(s, es);
            var k := n.updates - s.updates;
            k >= 0 && n.date == Updates(s, k).date && n.alarm == s.alarm && n.alarms == Updates(s, k).alarms
  {
    hide Next, UpdateDate;
    if es != [] {
      var m := |es| - 1;
      var before := RunAll(s, es[..m]);
      RunUpdates(s, es[..m]);
      EventUpdates(before, es[m]);
      var j := before.updates - s.updates;
      var k := Next(before, es[m]).updates - before.updates;
      UpdatesState(s, j);
      SameAlarms(before, Updates(s, j), k);
      UpdatesMore(s, j, k);
    }
  }

  /** Over every run of ticks and mode switches within the calendar, an accepted valid alarm has
      fired once when the date has reached it, and not before. */
  lemma AlarmFiresOnTimeInRuns(s: State, alarm: Date, es: seq<Event>)
    requires ValidDate(s.date) && ValidDate(alarm) && SetAlarm(s, alarm).1 == 0
    requires var n := RunAll(SetAlarm(s, alarm).0, es);
             Seconds(s.date) + (n.updates - s.updates) <= Seconds(EndOfCalendar())
    ensures var n := RunAll(SetAlarm(s, alarm).0, es);
            && ValidDate(n.date) && Seconds(n.date) == Seconds(s.date) + (n.updates - s.updates)
            && n.alarms == s.alarms + (if Seconds(n.date) < Seconds(alarm) then 0 else 1)
  {
    hide RunAll, Seconds, ValidDate, Updates, Before;
    var s0 := SetAlarm(s, alarm).0;
    var n := RunAll(s0, es);
    RunUpdates(s0, es);
    UpdatesState(s0, n.updates - s.updates);
    AfterCounts(s.date, n.updates - s.updates);
    AlarmFiresOnTime(s, alarm, n.updates - s.updates);
  }

  // The timeout

  /** The ticks among the events. */
  function TicksIn(es: seq<Event>): nat {
    if es == [] then 0 else TicksIn(es[..|es| - 1]) + (if es[|es| - 1] == Tick then 1 else 0)
  }

  /** A timeout has expired exactly when it has seen as many ticks as it was set to, in whichever
      mode; so in slow mode it takes five hundred times as long. */
  lemma {:induction false} TimeoutExpiresOnTime(s: State, es: seq<Event>)
    ensures var n, t := RunAll(s, es), TicksIn(es);
            n.timeout == (if t < s.timeout then s.timeout - t else 0)
  {
    hide Isr;
    if es != [] {
      var m := |es| - 1;
      TimeoutExpiresOnTime(s, es[..m]);
      IsrCounters(RunAll(s, es[..m]));
    }
  }

  // The periodic task

  function Ticks(s: State, n: nat): State {
    if n == 0 then s else Isr(Ticks(s, n - 1))
  }

  /** The number of ticks from one run of the task to the next. */
  function TaskInterval(period: nat, slow: bool): nat
    requires period > 0
  {
    (period + TaskInc(slow) - 1) / TaskInc(slow)
  }

  /** The count can reach the period: the multiple of the increment that completes it still fits
      32 bits. In fast mode it always does. */
  predicate Reachable(period: nat, slow: bool)
    requires period > 0
  {
    TaskInc(slow) * TaskInterval(period, slow) < WORD32
  }

  /** The count and the runs of the task after `n` ticks, if it runs at every tick that completes its
      period, rounded up to whole ticks, and at no other. */
  predicate OnTime(s: State, t: State, n: nat)
    requires s.taskTimeout > 0 && TaskInterval(s.taskTimeout, s.slow) > 0
  {
    var k := TaskInterval(s.taskTimeout, s.slow);
    && t.slow == s.slow && t.taskTimeout == s.taskTimeout
    && t.tasks == s.tasks + n / k && t.taskCount == TaskInc(s.slow) * (n % k)
  }

  /** It does, in either mode, if its period can be reached. */
  lemma {:induction false} PeriodicTaskRunsOnTime(s: State, n: nat)
    requires 0 < s.taskTimeout < WORD32 && s.taskCount == 0 && Reachable(s.taskTimeout, s.slow)
    ensures TaskInterval(s.taskTimeout, s.slow) > 0 && OnTime(s, Ticks(s, n), n)
  {
    hide Isr, TaskInterval, Reachable;
    var k := TaskInterval(s.taskTimeout, s.slow);
    IntervalIsPositive(s);
    if n == 0 {
      DivisionIsUnique(0, k, 0, 0);
    } else {
      PeriodicTaskRunsOnTime(s, n - 1);
      TaskTick(Ticks(s, n - 1), (n - 1) % k);
      OneTickOn(n - 1, k);
    }
  }

  lemma OneTickOn(n: nat, k: nat)
    requires k > 0
    ensures if n % k + 1 == k then (n + 1) / k == n / k + 1 && (n + 1) % k == 0
            else (n + 1) / k == n / k && (n + 1) % k == n % k + 1
  {
    var q, r := n / k, n % k;
    assert n == k * q + r;
    if r + 1 == k {
      assert k * (q + 1) == k * q + k;
      DivisionIsUnique(n + 1, k, q + 1, 0);
    } else {
      DivisionIsUnique(n + 1, k, q, r + 1);
    }
  }

  lemma IntervalIsPositive(s: State)
    requires s.taskTimeout > 0
    ensures TaskInterval(s.taskTimeout, s.slow) > 0
  {
  }

  /** One tick with the count at `r` increments: it runs the task when it completes the period and
      the count does not wrap. */
  lemma TaskTick(s: State, r: nat)
    requires 0 < s.taskTimeout < WORD32
    requires r < TaskInterval(s.taskTimeout, s.slow) && s.taskCount == TaskInc(s.slow) * r
    ensures var t := Isr(s);
            && t.slow == s.slow && t.taskTimeout == s.taskTimeout
            && (if r + 1 < TaskInterval(s.taskTimeout, s.slow) then
                  t.tasks == s.tasks && t.taskCount == TaskInc(s.slow) * (r + 1)
                else if Reachable(s.taskTimeout, s.slow) then t.tasks == s.tasks + 1 && t.taskCount == 0
                else t.tasks == s.tasks)
  {
    hide CheckClock;
    ClockKeepsTask(CountDown(s));
    if s.slow {
      assert TaskInc(s.slow) * (r + 1) == TaskInc(s.slow) * r + TaskInc(s.slow);
    }
  }

  /** It is on time throughout exactly then. When the period cannot be reached, the tick that should
      run the task wraps the count instead. */
  lemma PeriodicTaskExactly(s: State)
    requires 0 < s.taskTimeout < WORD32 && s.taskCount == 0 && TaskInterval(s.taskTimeout, s.slow) > 0
    ensures (forall n: nat :: OnTime(s, Ticks(s, n), n)) <==> Reachable(s.taskTimeout, s.slow)
  {
    hide Isr, TaskInterval, Reachable, OnTime, Ticks;
    if Reachable(s.taskTimeout, s.slow) {
      forall n: nat
        ensures OnTime(s, Ticks(s, n), n)
      {
        PeriodicTaskRunsOnTime(s, n);
      }
    } else {
      UnreachedPeriod(s);
    }
  }

  lemma UnreachedPeriod(s: State)
    requires 0 < s.taskTimeout < WORD32 && s.taskCount == 0 && !Reachable(s.taskTimeout, s.slow)
    ensures var k := TaskInterval(s.taskTimeout, s.slow);
            k > 0 && Ticks(s, k).tasks == s.tasks && !OnTime(s, Ticks(s, k), k)
  {
    hide Isr, TaskInterval, Reachable;
    var k := TaskInterval(s.taskTimeout, s.slow);
    IntervalIsPositive(s);
    NotYetRun(s, k - 1);
    TaskTick(Ticks(s, k - 1), k - 1);
    DivisionIsUnique(k, k, 1, 0);
  }

  lemma {:induction false} NotYetRun(s: State, n: nat)
    requires 0 < s.taskTimeout < WORD32 && s.taskCount == 0 && n < TaskInterval(s.taskTimeout, s.slow)
    ensures var t := Ticks(s, n);
            && t.slow == s.slow && t.taskTimeout == s.taskTimeout
            && t.tasks == s.tasks && t.taskCount == TaskInc(s.slow) * n
  {
    hide Isr, TaskInterval, Reachable;
    if n > 0 {
      NotYetRun(s, n - 1);
      TaskTick(Ticks(s, n - 1), n - 1);
    }
  }

  /** Which periods these are. */
  lemma ReachablePeriods(period: nat, slow: bool)
    requires 0 < period < WORD32
    ensures Reachable(period, slow) <==> !slow || period <= 4294967000
  {
  }

  /** One tick adds to the count, modulo 2^32, or runs the task. */
  lemma CountsOrRuns(s: State)
    requires s.taskTimeout > 0
    ensures var t, c := Isr(s), (s.taskCount + TaskInc(s.slow)) % WORD32;
            && t.slow == s.slow && t.taskTimeout == s.taskTimeout
            && if c >= s.taskTimeout then t.tasks == s.tasks + 1 && t.taskCount == 0
               else t.tasks == s.tasks && t.taskCount == c
  {
    hide CheckClock;
    ClockKeepsTask(CountDown(s));
  }

  /** In slow mode the three largest periods are never reached at all: the count stays a multiple
      of 4. */
  lemma {:induction false} LargestPeriodsNeverRun(s: State, n: nat)
    requires s.slow && s.taskCount % 4 == 0 && 0xFFFF_FFFD <= s.taskTimeout < WORD32
    ensures var t := Ticks(s, n);
            t.tasks == s.tasks && t.slow && t.taskTimeout == s.taskTimeout && t.taskCount % 4 == 0
  {
    hide Isr;
    if n > 0 {
      LargestPeriodsNeverRun(s, n - 1);
      CountsOrRuns(Ticks(s, n - 1));
    }
  }

  /** All others are, sooner or later: as long as the task has not run the count goes through all
      multiples of 4. */
  lemma OtherPeriodsRun(s: State)
    requires s.slow && s.taskCount == 0 && 0 < s.taskTimeout <= 0xFFFF_FFFC
    ensures Ticks(s, LAST_MULTIPLE).tasks > s.tasks
  {
    hide Ticks, Isr;
    var n: nat := LAST_MULTIPLE;
    LastCount();
    TasksOrCount(s, n - 1);
    OneMoreTick(s, n);
    CountsOrRuns(Ticks(s, n - 1));
  }

  lemma LastCount()
    ensures (SLOW_TICKS_INC * (LAST_MULTIPLE - 1) % WORD32 + SLOW_TICKS_INC) % WORD32 == 0xFFFF_FFFC
  {
  }

  /** After so many increments of 500 the count shows the largest multiple of 4 there is. */
  const LAST_MULTIPLE: nat := 420906795

  lemma OneMoreTick(s: State, n: nat)
    requires n > 0
    ensures Ticks(s, n) == Isr(Ticks(s, n - 1))
  {
  }

  lemma {:induction false} TasksOrCount(s: State, n: nat)
    requires s.slow && s.taskCount == 0 && 0 < s.taskTimeout
    ensures var t := Ticks(s, n);
            && t.slow && t.taskTimeout == s.taskTimeout && t.tasks >= s.tasks
            && (t.tasks == s.tasks ==> t.taskCount == SLOW_TICKS_INC * n % WORD32)
  {
    hide Isr;
    if n > 0 {
      TasksOrCount(s, n - 1);
      CountsOrRuns(Ticks(s, n - 1));
      SumRemainder(SLOW_TICKS_INC * (n - 1), SLOW_TICKS_INC, WORD32);
    }
  }

  lemma ClockKeepsTask(s: State)
    ensures var c := CheckClock(s);
            c.slow == s.slow && c.taskTimeout == s.taskTimeout && c.taskCount == s.taskCount && c.tasks == s.tasks
  {
    hide NextSecond;
  }

  // The periodic task across mode switches

  /** The milliseconds an event stands for. */
  function Duration(s: State, e: Event): nat {
    match e
    case Tick => if s.slow then 2000 else 4
    case Slow => 0
    case Fast(r) => if s.slow then 16 * r.ms else 0
  }

  /** The milliseconds that pass in a run. */
  function Elapsed(s: State, es: seq<Event>): nat {
    if es == [] then 0
    else Elapsed(s, es[..|es| - 1]) + Duration(RunAll(s, es[..|es| - 1]), es[|es| - 1])
  }

  /** At every switch the counter register reads the same for the milliseconds and for the task. */
  predicate SameReadings(es: seq<Event>) {
    forall e :: e in es && e.Fast? ==> e.r.ms == e.r.task
  }

  /** The uptime in milliseconds is the time that has passed. */
  lemma {:induction false} MsIsElapsed(s: State, es: seq<Event>)
    requires s.msUptime < WORD32
    ensures RunAll(s, es).msUptime == (s.msUptime + Elapsed(s, es)) % WORD32
  {
    hide Isr, After;
    if es != [] {
      var n := |es| - 1;
      var before := RunAll(s, es[..n]);
      MsIsElapsed(s, es[..n]);
      IsrCounters(before);
      SumRemainder(s.msUptime + Elapsed(s, es[..n]), Duration(before, es[n]), WORD32);
    }
  }

  /** The count after an event, if that does not run the task. */
  function CountAfter(s: State, e: Event): nat {
    if e == Tick || (e.Fast? && s.slow) then (s.taskCount + Duration(s, e) / 4) % WORD32 else s.taskCount
  }

  /** What an event does to the count and to the runs of the task. */
  lemma EventCounts(s: State, e: Event)
    requires s.taskTimeout > 0 && (e.Fast? ==> e.r.ms == e.r.task)
    ensures Next(s, e).taskTimeout == s.taskTimeout
    ensures if e == Tick && CountAfter(s, e) >= s.taskTimeout
            then Next(s, e).tasks == s.tasks + 1 && Next(s, e).taskCount == 0
            else Next(s, e).tasks == s.tasks && Next(s, e).taskCount == CountAfter(s, e)
  {
    hide Isr, ConfigFast;
    if e == Tick {
      CountsOrRuns(s);
    } else if e.Fast? {
      SwitchCounts(s, e.r);
    }
  }

  lemma WholeTicks(s: State, e: Event)
    requires s.taskCount < WORD32
    ensures Duration(s, e) % 4 == 0
    ensures CountAfter(s, e) == (s.taskCount + Duration(s, e) / 4) % WORD32
  {
    hide Duration;
    DurationIsWhole(s, e);
    DivisionIsUnique(s.taskCount, WORD32, 0, s.taskCount);
  }

  lemma DurationIsWhole(s: State, e: Event)
    ensures Duration(s, e) % 4 == 0
    ensures e == Slow || (e.Fast? && !s.slow) ==> Duration(s, e) == 0
  {
    match e
    case Tick =>
    case Slow =>
    case Fast(r) => DivisionIsUnique(16 * r.ms, 4, 4 * r.ms, 0);
  }

  lemma SwitchCounts(s: State, r: Reading)
    requires s.taskTimeout > 0
    ensures var n := ConfigFast(s, r);
            && n.tasks == s.tasks && n.taskTimeout == s.taskTimeout
            && n.taskCount == if s.slow then (s.taskCount + 4 * r.task) % WORD32 else s.taskCount
  {
  }

  /** As long as the task does not run its count grows by one for every 4 ms that pass, whatever
      mix of ticks and switches they come from. */
  lemma {:induction false} CountIsElapsed(s: State, es: seq<Event>)
    requires s.taskTimeout > 0 && s.taskCount < WORD32 && SameReadings(es)
    ensures var n := RunAll(s, es);
            && n.tasks >= s.tasks && n.taskTimeout == s.taskTimeout && n.taskCount < WORD32
            && Elapsed(s, es) % 4 == 0
            && (n.tasks == s.tasks ==> n.taskCount == (s.taskCount + Elapsed(s, es) / 4) % WORD32)
  {
    hide Next, Duration, CountAfter;
    if es != [] {
      var n := |es| - 1;
      var before := RunAll(s, es[..n]);
      assert es[n] in es;
      CountIsElapsed(s, es[..n]);
      EventCounts(before, es[n]);
      WholeTicks(before, es[n]);
      var d := Duration(before, es[n]);
      SumRemainder(s.taskCount + Elapsed(s, es[..n]) / 4, d / 4, WORD32);
    }
  }

  /** So the count and the uptime in milliseconds move together. */
  lemma CountFollowsUptime(s: State, es: seq<Event>)
    requires s.taskTimeout > 0 && s.taskCount < WORD32 && s.msUptime < WORD32 && SameReadings(es)
    requires RunAll(s, es).tasks == s.tasks
    ensures var n := RunAll(s, es);
            (4 * (n.taskCount - s.taskCount) - (n.msUptime - s.msUptime)) % WORD32 == 0
  {
    hide RunAll, Elapsed;
    CountIsElapsed(s, es);
    MsIsElapsed(s, es);
    var e := Elapsed(s, es);
    var n := RunAll(s, es);
    var p, q := (s.taskCount + e / 4) / WORD32, (s.msUptime + e) / WORD32;
    assert 4 * (n.taskCount - s.taskCount) - (n.msUptime - s.msUptime) == 0 + WORD32 * (q - 4 * p);
    SameRemainder(0, WORD32, q - 4 * p);
  }

  /** The tick after the first `k` events finds that the period has passed. */
  predicate DueAt(s: State, es: seq<Event>, k: nat) {
    0 < k <= |es| && es[k - 1] == Tick && Elapsed(s, es[..k]) >= 4 * s.taskTimeout
  }

  /** The 32-bit count does not wrap before the period has passed. */
  ghost predicate CountFits(s: State, es: seq<Event>) {
    forall k :: 0 <= k <= |es| && (forall j :: 0 <= j < k ==> !DueAt(s, es, j)) ==> Elapsed(s, es[..k]) < 4 * WORD32
  }

  /** The task has run exactly if some tick has found that its period has passed since it was set
      up, in whatever modes; so it runs at the first tick from then on, and not before. */
  lemma {:induction false} TaskRunsWhenDue(s: State, es: seq<Event>)
    requires s.taskTimeout > 0 && s.taskCount == 0 && SameReadings(es) && CountFits(s, es)
    ensures RunAll(s, es).tasks > s.tasks <==> exists k: nat :: DueAt(s, es, k)
    decreases |es|
  {
    hide RunAll, Elapsed, Next, Duration, CountAfter, CountFits, DueAt;
    if es == [] {
      RunNothing(s);
      NothingDue(s);
    } else {
      var n := |es| - 1;
      var before := RunAll(s, es[..n]);
      assert es[n] in es;
      LastEvent(s, es);
      SameDue(s, es);
      TaskRunsWhenDue(s, es[..n]);
      CountIsElapsed(s, es[..n]);
      EventCounts(before, es[n]);
      WholeTicks(before, es[n]);
      if before.tasks > s.tasks {
        var k: nat :| DueAt(s, es[..n], k);
        assert DueAt(s, es, k);
      } else {
        LastIsDue(s, es);
      }
    }
  }

  lemma NothingDue(s: State)
    ensures forall k: nat :: !DueAt(s, [], k)
  {
  }

  /** Leaving out the last event changes nothing for the ones before. */
  lemma SameDue(s: State, es: seq<Event>)
    requires es != []
    ensures var n := |es| - 1;
            && (forall k: nat :: k <= n ==> (DueAt(s, es, k) <==> DueAt(s, es[..n], k)))
            && (forall k: nat :: k > n ==> !DueAt(s, es[..n], k))
            && (CountFits(s, es) ==> CountFits(s, es[..n]))
  {
    hide Elapsed;
    var n := |es| - 1;
    forall k | 0 <= k <= n
      ensures es[..n][..k] == es[..k]
    {
    }
  }

  lemma LastIsDue(s: State, es: seq<Event>)
    requires es != [] && CountFits(s, es) && forall k: nat :: k < |es| ==> !DueAt(s, es, k)
    ensures Elapsed(s, es) < 4 * WORD32
    ensures (exists k: nat :: DueAt(s, es, k)) <==> es[|es| - 1] == Tick && Elapsed(s, es) >= 4 * s.taskTimeout
  {
    hide Elapsed;
    assert es[..|es|] == es;
    if es[|es| - 1] == Tick && Elapsed(s, es) >= 4 * s.taskTimeout {
      assert DueAt(s, es, |es|);
    }
  }

  lemma RunNothing(s: State)
    ensures RunAll(s, []) == s
  {
  }

  lemma LastEvent(s: State, es: seq<Event>)
    requires es != []
    ensures var before := RunAll(s, es[..|es| - 1]);
            && RunAll(s, es) == Next(before, es[|es| - 1])
            && Elapsed(s, es) == Elapsed(s, es[..|es| - 1]) + Duration(before, es[|es| - 1])
  {
    hide Next, Duration;
  }

  /** The delay of `delay_ticks` is over exactly after as many ticks as it was set to. */
  lemma {:induction false} DelayEndsOnTime(s: State, es: seq<Event>)
    ensures var n, t := RunAll(s, es), TicksIn(es);
            n.delay == (if t < s.delay then s.delay - t else 0)
  {
    hide Isr;
    if es != [] {
      var m := |es| - 1;
      DelayEndsOnTime(s, es[..m]);
      IsrCounters(RunAll(s, es[..m]));
    }
  }

  /** Until an alarm is programmed none comes, whatever date is set. */
  lemma NoAlarmAtFirst(newDate: Date, n: nat)
    requires ValidDate(newDate) && Seconds(newDate) + n <= Seconds(EndOfCalendar())
    ensures Updates(ConfigDate(Initial(), newDate), n).alarms == 0
  {
    hide Seconds, Updates;
    InvalidAlarmNeverFires(ConfigDate(Initial(), newDate), n);
  }
}
