/** The real-time clock module (pxbee/drivers/rtc/rtc.c) with calendar, alarm, periodic task
    and power management enabled: the tick interrupt in its fast (4 ms) and slow (2 s) mode,
    the switches between the two, the alarm and the timeouts.

    The state is given once as a value with a function for every operation, and once as a
    class whose methods are proved to do what the functions say. */
module Rtc {
  import opened Calendar
  import opened Words

  const HZ: nat := 250
  const SLOW_MSEC_INC: nat := 2000
  const SLOW_SEC_INC: nat := 2
  const FAST_MSEC_INC: nat := 4
  const SLOW_TICKS_INC: nat := 500

  datatype WakeupSource = Unknown | Uart | PeriodicTask | Timeout | Alarm | Gpio | Radio

  /** `updates`, `alarms` and `tasks` count the calls of `update_date` and of the two handlers. */
  datatype State = State(
    ticks: nat, uptime: nat, msUptime: nat, slow: bool,
    date: Date, alarm: Date,
    taskTimeout: nat, taskCount: nat,
    secondsToWakeup: nat, wakeup: WakeupSource,
    delay: nat, timeout: nat,
    updates: nat, alarms: nat, tasks: nat)

  /** The first wake-up source wins. */
  function Raise(s: State, source: WakeupSource): State {
    if s.wakeup == Unknown then s.(wakeup := source) else s
  }

  /** The counter register as it reads the three times that a switch to fast mode looks at it. */
  datatype Reading = Reading(ms: nat, ticks: nat, task: nat)

  predicate ProperReading(r: Reading) { r.ms < 256 && r.ticks < 256 && r.task < 256 }

  /** The two timeouts, in ticks of either mode. */
  function CountDown(s: State): State {
    s.(delay := if s.delay > 0 then s.delay - 1 else 0, timeout := if s.timeout > 0 then s.timeout - 1 else 0)
  }

  /** `update_date`: one second on, then the alarm. */
  function UpdateDate(s: State): State {
    var s1 := s.(date := NextSecond(s.date), updates := s.updates + 1);
    if s1.date == s1.alarm then Raise(s1, Alarm).(alarms := s1.alarms + 1) else s1
  }

  function CarrySeconds(s: State): State {
    var s1 := s.(uptime := (s.uptime + s.ticks / HZ) % WORD32);
    var s2 := if s.ticks / HZ > 1 then UpdateDate(s1) else s1;
    UpdateDate(s2).(ticks := s.ticks % HZ)
  }

  function CheckClock(s: State): State {
    var s1 :=
      if s.slow then
        UpdateDate(UpdateDate(s.(msUptime := (s.msUptime + SLOW_MSEC_INC) % WORD32,
                                 uptime := (s.uptime + SLOW_SEC_INC) % WORD32)))
      else
        var s2 := s.(msUptime := (s.msUptime + FAST_MSEC_INC) % WORD32, ticks := (s.ticks + 1) % WORD16);
        if s2.ticks >= HZ then CarrySeconds(s2) else s2;
    if s1.secondsToWakeup != 0 && s1.uptime >= s1.secondsToWakeup then Raise(s1, Timeout) else s1
  }

  /** What a tick adds to the count of the periodic task, in 4 ms. */
  function TaskInc(slow: bool): nat { if slow then SLOW_TICKS_INC else 1 }

  function CheckPeriodicTask(s: State): State {
    if s.taskTimeout == 0 then s
    else
      var s1 := s.(taskCount := (s.taskCount + TaskInc(s.slow)) % WORD32);
      if s1.taskCount >= s1.taskTimeout
      then Raise(s1, PeriodicTask).(taskCount := 0, tasks := s1.tasks + 1)
      else s1
  }

  function Isr(s: State): State { CheckPeriodicTask(CheckClock(CountDown(s))) }

  function ConfigSlow(s: State): State { s.(slow := true) }

  /** Leaving slow mode. */
  function ConfigFast(s: State, r: Reading): State {
    if s.slow then
      s.(slow := false,
         msUptime := (s.msUptime + r.ms * 16) % WORD32,
         ticks := (s.ticks + r.ticks * 16 / 4) % WORD16,
         taskCount := if s.taskTimeout != 0 then (s.taskCount + r.task * 16 / 4) % WORD32 else s.taskCount)
    else s
  }

  /** A new date; the alarm stays as it is. */
  function ConfigDate(s: State, newDate: Date): State { s.(date := newDate) }

  /** The order in which `rtc_set_alarm` accepts an alarm is decided field by field. */
  function SetAlarm(s: State, newAlarm: Date): (State, int) {
    if Before(s.date, newAlarm) then (s.(alarm := newAlarm), 0) else (s, -EINVAL)
  }

  /** After `rtc_config`: no date yet, and an alarm that never comes. */
  function Initial(): State {
    State(0, 0, 0, false, Date(0, 0, 0, 0, 0, 0), Date(0, 0, 0, 0, 0, 0xFFFF), 0, 0, 0, Unknown, 0, 0, 0, 0, 0)
  }

  class Clock {
    var ticks: nat
    var uptime: nat
    var msUptime: nat
    var slow: bool
    var date: Date
    var alarm: Date
    var taskTimeout: nat
    var taskCount: nat
    var secondsToWakeup: nat
    var wakeup: WakeupSource
    var delay: nat
    var timeout: nat
    ghost var updates: nat
    ghost var alarms: nat
    ghost var tasks: nat

    ghost function View(): State
      reads this
    {
      State(ticks, uptime, msUptime, slow, date, alarm, taskTimeout, taskCount, secondsToWakeup, wakeup,
            delay, timeout, updates, alarms, tasks)
    }

    constructor ()
      ensures View() == Initial()
    {
      ticks, uptime, msUptime, slow := 0, 0, 0, false;
      date, alarm := Date(0, 0, 0, 0, 0, 0), Date(0, 0, 0, 0, 0, 0xFFFF);
      taskTimeout, taskCount, secondsToWakeup, wakeup := 0, 0, 0, Unknown;
      delay, timeout, updates, alarms, tasks := 0, 0, 0, 0, 0;
    }

    /** `rtc_set_date`. */
    method SetDate(newDate: Date)
      modifies this
      ensures View() == ConfigDate(old(View()), newDate)
    {
      date := newDate;
    }

    method SetAlarmTime(newAlarm: Date) returns (ret: int)
      modifies this
      ensures (View(), ret) == SetAlarm(old(View()), newAlarm)
    {
      if date.year > newAlarm.year {
        return -EINVAL;
      } else if date.year == newAlarm.year {
        if date.month > newAlarm.month {
          return -EINVAL;
        } else if date.month == newAlarm.month {
          if date.mday > newAlarm.mday {
            return -EINVAL;
          } else if date.mday == newAlarm.mday {
            if date.hour > newAlarm.hour {
              return -EINVAL;
            }
            if date.hour == newAlarm.hour {
              if date.min > newAlarm.min {
                return -EINVAL;
              } else if date.min == newAlarm.min {
                if date.sec >= newAlarm.sec {
                  return -EINVAL;
                }
              }
            }
          }
        }
      }
      alarm := newAlarm;
      return 0;
    }

    method SetPeriodicTaskPeriod(period: nat)
      modifies this
      ensures View() == old(View()).(taskTimeout := period, taskCount := 0)
    {
      taskTimeout, taskCount := period, 0;
    }

    method Update()
      modifies this
      ensures View() == UpdateDate(old(View()))
    {
      hide NextSecond;
      date := StepDate(date);
      updates := updates + 1;
      if date == alarm {
        if wakeup == Unknown {
          wakeup := Alarm;
        }
        alarms := alarms + 1;
      }
    }

    /** The field-by-field part of `update_date`. */
    static method StepDate(now: Date) returns (date: Date)
      ensures date == NextSecond(now)
    {
      hide Leap, Has30Days;
      date := now.(sec := (now.sec + 1) % 256);
      if date.sec > 59 {
        date := date.(sec := date.sec - 60, min := (date.min + 1) % 256);
        if date.min > 59 {
          date := date.(min := 0, hour := (date.hour + 1) % 256);
          if date.hour > 23 {
            date := date.(hour := 0, mday := (date.mday + 1) % 256);
            if date.mday > 31
               || (date.mday == 31 && Has30Days(date.month))
               || (date.mday == 30 && date.month == 2)
               || (date.mday == 29 && date.month == 2 && !Leap(date.year)) {
              date := date.(month := (date.month + 1) % 256, mday := 1);
            }
            if date.month > 12 {
              date := date.(month := 1, year := (date.year + 1) % WORD16);
            }
          }
        }
      }
    }

    method CheckClockAndUpdate()
      modifies this
      ensures View() == CheckClock(old(View()))
    {
      hide UpdateDate, CarrySeconds;
      if slow {
        msUptime := (msUptime + SLOW_MSEC_INC) % WORD32;
        uptime := (uptime + SLOW_SEC_INC) % WORD32;
        Update();
        Update();
      } else {
        msUptime := (msUptime + FAST_MSEC_INC) % WORD32;
        ticks := (ticks + 1) % WORD16;
        if ticks >= HZ {
          Carry();
        }
      }
      if wakeup == Unknown && secondsToWakeup != 0 && uptime >= secondsToWakeup {
        wakeup := Timeout;
      }
    }

    /** The part of the fast tick that completes a second, or more than one after a switch. */
    method Carry()
      modifies this
      ensures View() == CarrySeconds(old(View()))
    {
      hide UpdateDate;
      uptime := (uptime + ticks / HZ) % WORD32;
      UpdateKeepsTicks(View());
      if ticks / HZ > 1 {
        Update();
      }
      UpdateKeepsTicks(View());
      Update();
      ticks := ticks % HZ;
    }

    method CheckPeriodic()
      modifies this
      ensures View() == CheckPeriodicTask(old(View()))
    {
      if taskTimeout != 0 {
        if slow {
          taskCount := (taskCount + SLOW_TICKS_INC) % WORD32;
        } else {
          taskCount := (taskCount + 1) % WORD32;
        }
        if taskCount >= taskTimeout {
          taskCount := 0;
          if wakeup == Unknown {
            wakeup := PeriodicTask;
          }
          tasks := tasks + 1;
        }
      }
    }

    /** `rtc_set_timeout`, in ticks. */
    method SetTimeout(ticks: nat)
      requires ticks < WORD16
      modifies this
      ensures View() == old(View()).(timeout := ticks)
    {
      timeout := ticks;
    }

    method TimeoutExpired() returns (expired: bool)
      ensures expired <==> View().timeout == 0
    {
      expired := timeout == 0;
    }

    /** `rtc_isr`. */
    method Interrupt()
      modifies this
      ensures View() == Isr(old(View()))
    {
      hide CheckClock, CheckPeriodicTask;
      if delay > 0 {
        delay := delay - 1;
      }
      if timeout > 0 {
        timeout := timeout - 1;
      }
      CheckClockAndUpdate();
      CheckPeriodic();
    }

    method GoSlow()
      modifies this
      ensures View() == ConfigSlow(old(View()))
    {
      slow := true;
    }

    /** The argument is what the counter register reads, each time. */
    method GoFast(r: Reading)
      requires ProperReading(r)
      modifies this
      ensures View() == ConfigFast(old(View()), r)
    {
      if slow {
        msUptime := (msUptime + r.ms * 16) % WORD32;
        ticks := (ticks + r.ticks * 16 / 4) % WORD16;
        if taskTimeout != 0 {
          taskCount := (taskCount + r.task * 16 / 4) % WORD32;
        }
      }
      slow := false;
    }
  }

  lemma UpdateKeepsTicks(s: State)
    ensures UpdateDate(s).ticks == s.ticks && UpdateDate(s).uptime == s.uptime
  {
  }

  // Runs

  datatype Event = Tick | Slow | Fast(r: Reading)

  predicate ProperEvent(e: Event) { e.Fast? ==> ProperReading(e.r) }

  function Next(s: State, e: Event): State {
    match e
    case Tick => Isr(s)
    case Slow => ConfigSlow(s)
    case Fast(r) => ConfigFast(s, r)
  }

  function RunAll(s: State, es: seq<Event>): State {
    if es == [] then s else Next(RunAll(s, es[..|es| - 1]), es[|es| - 1])
  }

  // What an interrupt does

  lemma UpdateCounters(s: State)
    ensures var n := UpdateDate(s);
            n == s.(date := NextSecond(s.date), updates := s.updates + 1, alarms := n.alarms, wakeup := n.wakeup)
  {
  }

  lemma TwoUpdates(s: State)
    ensures var n := UpdateDate(UpdateDate(s));
            n == s.(date := After(s.date, 2), updates := s.updates + 2, alarms := n.alarms, wakeup := n.wakeup)
  {
    hide NextSecond, UpdateDate;
    UpdateCounters(s);
    UpdateCounters(UpdateDate(s));
    assert After(s.date, 1) == NextSecond(After(s.date, 0));
    assert After(s.date, 2) == NextSecond(After(s.date, 1));
  }

  /** The date after seconds have been carried over. */
  lemma CarryCounters(s: State)
    requires HZ <= s.ticks < WORD16
    ensures var n := CarrySeconds(s);
            var k := if s.ticks / HZ > 1 then 2 else 1;
            n == s.(uptime := (s.uptime + s.ticks / HZ) % WORD32, ticks := s.ticks % HZ, date := After(s.date, k),
                    updates := s.updates + k, alarms := n.alarms, wakeup := n.wakeup)
  {
    hide NextSecond, UpdateDate;
    var s1 := s.(uptime := (s.uptime + s.ticks / HZ) % WORD32);
    assert After(s.date, 0) == s.date && After(s.date, 1) == NextSecond(s.date);
    UpdateCounters(s1);
    TwoUpdates(s1);
  }

  /** What an interrupt does to the counters and the date. */
  lemma IsrCounters(s: State)
    ensures var n := Isr(s);
            var t := (s.ticks + 1) % WORD16;
            && n.slow == s.slow
            && n.msUptime == (s.msUptime + (if s.slow then SLOW_MSEC_INC else FAST_MSEC_INC)) % WORD32
            && n.uptime == (if !s.slow && t < HZ then s.uptime
                            else (s.uptime + (if s.slow then SLOW_SEC_INC else t / HZ)) % WORD32)
            && n.ticks == (if s.slow then s.ticks else t % HZ)
            && n.updates == s.updates + (if s.slow then 2 else if t / HZ > 1 then 2 else t / HZ)
            && n.date == After(s.date, n.updates - s.updates) && n.alarm == s.alarm
            && n.timeout == (if s.timeout > 0 then s.timeout - 1 else 0)
            && n.delay == (if s.delay > 0 then s.delay - 1 else 0)
  {
    hide NextSecond, UpdateDate, CarrySeconds, After;
    var t := (s.ticks + 1) % WORD16;
    var c := CountDown(s);
    AfterNone(s.date);
    if s.slow {
      TwoUpdates(c.(msUptime := (s.msUptime + SLOW_MSEC_INC) % WORD32, uptime := (s.uptime + SLOW_SEC_INC) % WORD32));
    } else if t >= HZ {
      CarryCounters(c.(msUptime := (s.msUptime + FAST_MSEC_INC) % WORD32, ticks := t));
    }
  }

  lemma AfterNone(d: Date)
    ensures After(d, 0) == d
  {
  }

  lemma {:induction false} AfterAfter(d: Date, a: nat, b: nat)
    ensures After(After(d, a), b) == After(d, a + b)
  {
    hide NextSecond;
    if b > 0 {
      AfterAfter(d, a, b - 1);
    }
  }
}
