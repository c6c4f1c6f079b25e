/** The stop modes of `pm_set_cpu_mode` (pxbee/cpu/pm.c) with the uptime kept: the processor
    stops in a loop that every interrupt leaves and only a wake-up source ends. */
module Sleep {
  import opened Arithmetic
  import opened Calendar
  import opened Rtc
  import opened RtcTime
  import opened Words

  /** What ends a stop instruction: the clock, an interrupt that is a wake-up source, or one
      that is not. */
  datatype Irq = RtcTick | Wake(source: WakeupSource) | Other

  predicate ProperIrq(q: Irq) { q.Wake? ==> q.source != Unknown }

  /** Going to sleep for `seconds`; 0 means until an interrupt. */
  function Prepare(s: State, seconds: nat): State {
    ConfigSlow(s).(secondsToWakeup := if seconds != 0 then (s.uptime + seconds) % WORD32 else 0, wakeup := Unknown)
  }

  function Handle(s: State, q: Irq): State {
    match q
    case RtcTick => Isr(s)
    case Wake(source) => Raise(s, source)
    case Other => s
  }

  /** The state after `n` of the interrupts. */
  function HandleAll(s: State, qs: seq<Irq>, n: nat): State
    requires n <= |qs|
  {
    if n == 0 then s else Handle(HandleAll(s, qs, n - 1), qs[n - 1])
  }

  /** What the handlers do with one interrupt. */
  method Interrupted(clock: Clock, q: Irq)
    modifies clock
    ensures clock.View() == Handle(old(clock.View()), q)
  {
    hide Isr;
    match q {
      case RtcTick => clock.Interrupt();
      case Wake(source) =>
        if clock.wakeup == Unknown {
          clock.wakeup := source;
        }
      case Other =>
    }
  }

  /** Sleeps through the interrupts `qs`; `used` of them are taken before the loop ends, and
      the processor is still asleep when none of them has been a wake-up source. */
  method StopMode(clock: Clock, seconds: nat, qs: seq<Irq>, r: Reading) returns (used: nat, asleep: bool)
    requires seconds < WORD32 && ProperReading(r)
    modifies clock
    ensures used <= |qs|
    ensures var s := HandleAll(Prepare(old(clock.View()), seconds), qs, used);
            && (asleep ==> used == |qs| && clock.View() == s)
            && (!asleep ==> used > 0 && s.wakeup != Unknown && clock.View() == ConfigFast(s, r))
    ensures forall k :: 0 < k < used ==> HandleAll(Prepare(old(clock.View()), seconds), qs, k).wakeup == Unknown
    ensures asleep && used > 0 ==> HandleAll(Prepare(old(clock.View()), seconds), qs, used).wakeup == Unknown
  {
    hide Handle, ConfigFast;
    clock.secondsToWakeup := if seconds != 0 then (clock.uptime + seconds) % WORD32 else 0;
    clock.GoSlow();
    clock.wakeup := Unknown;
    ghost var start := Prepare(old(clock.View()), seconds);
    used := 0;
    while true
      invariant used <= |qs|
      invariant clock.View() == HandleAll(start, qs, used)
      invariant forall k :: 0 < k <= used ==> HandleAll(start, qs, k).wakeup == Unknown
      decreases |qs| - used
    {
      if used == |qs| {
        return used, true;
      }
      Interrupted(clock, qs[used]);
      used := used + 1;
      if clock.wakeup != Unknown {
        clock.GoFast(r);
        return used, false;
      }
    }
  }

  // Which source it was

  /** The sources an interrupt raises, in the order in which the handlers look at them. */
  function Raises(s: State, q: Irq): seq<WakeupSource> {
    match q
    case Wake(source) => [source]
    case Other => []
    case RtcTick =>
      var c := CheckClock(CountDown(s));
      (if s.slow && (After(s.date, 1) == s.alarm || After(s.date, 2) == s.alarm) then [Alarm] else [])
      + (if c.secondsToWakeup != 0 && c.uptime >= c.secondsToWakeup then [Timeout] else [])
      + (if c.taskTimeout != 0 && (c.taskCount + SLOW_TICKS_INC) % WORD32 >= c.taskTimeout then [PeriodicTask] else [])
  }

  lemma SlowClock(s: State)
    requires s.slow && s.wakeup == Unknown
    ensures var c := CheckClock(CountDown(s));
            && c.slow && c.secondsToWakeup == s.secondsToWakeup
            && c.taskTimeout == s.taskTimeout && c.taskCount == s.taskCount && c.alarm == s.alarm
            && c.uptime == (s.uptime + 2) % WORD32
            && c.date == After(s.date, 2)
            && c.wakeup == (if After(s.date, 1) == s.alarm || After(s.date, 2) == s.alarm then Alarm
                            else if c.secondsToWakeup != 0 && c.uptime >= c.secondsToWakeup then Timeout else Unknown)
  {
    hide NextSecond;
    assert After(s.date, 1) == NextSecond(After(s.date, 0));
    assert After(s.date, 2) == NextSecond(After(s.date, 1));
  }

  /** A sleeping processor takes the first source raised, and stays slow and asleep if the
      interrupt raises none. */
  lemma HandleTakesFirst(s: State, q: Irq)
    requires s.slow && s.wakeup == Unknown && ProperIrq(q)
    ensures var n := Handle(s, q);
            && n.slow && n.secondsToWakeup == s.secondsToWakeup && n.alarm == s.alarm
            && n.uptime == (if q.RtcTick? then (s.uptime + 2) % WORD32 else s.uptime)
            && n.wakeup == (if Raises(s, q) == [] then Unknown else Raises(s, q)[0])
  {
    hide CheckClock, After;
    if q.RtcTick? {
      SlowClock(s);
    }
  }

  function ClockTicks(qs: seq<Irq>): nat {
    if qs == [] then 0 else ClockTicks(qs[..|qs| - 1]) + (if qs[|qs| - 1].RtcTick? then 1 else 0)
  }

  /** While it sleeps, the uptime grows by two seconds with every tick of the clock. */
  lemma {:induction false} AsleepState(s: State, qs: seq<Irq>, n: nat)
    requires s.slow && s.wakeup == Unknown && s.uptime < WORD32 && n <= |qs| && forall q :: q in qs ==> ProperIrq(q)
    requires forall k :: 0 < k < n ==> HandleAll(s, qs, k).wakeup == Unknown
    ensures var h := HandleAll(s, qs, n);
            && h.slow && h.secondsToWakeup == s.secondsToWakeup
            && h.uptime == (s.uptime + 2 * ClockTicks(qs[..n])) % WORD32
    ensures n > 0 ==> var r := Raises(HandleAll(s, qs, n - 1), qs[n - 1]);
                      HandleAll(s, qs, n).wakeup == if r == [] then Unknown else r[0]
  {
    hide Handle, Raises;
    if n > 0 {
      AsleepState(s, qs, n - 1);
      HandleTakesFirst(HandleAll(s, qs, n - 1), qs[n - 1]);
      assert qs[..n][..n - 1] == qs[..n - 1];
      SumRemainder(s.uptime + 2 * ClockTicks(qs[..n - 1]), 2, WORD32);
    }
  }

  /** The wake-up source reported after sleeping is the first one raised. */
  lemma FirstSourceIsReported(s: State, seconds: nat, qs: seq<Irq>, used: nat)
    requires s.uptime < WORD32 && 0 < used <= |qs| && forall q :: q in qs ==> ProperIrq(q)
    requires forall k :: 0 < k < used ==> HandleAll(Prepare(s, seconds), qs, k).wakeup == Unknown
    requires HandleAll(Prepare(s, seconds), qs, used).wakeup != Unknown
    ensures var start := Prepare(s, seconds);
            && (forall k :: 0 <= k < used - 1 ==> Raises(HandleAll(start, qs, k), qs[k]) == [])
            && var r := Raises(HandleAll(start, qs, used - 1), qs[used - 1]);
               r != [] && HandleAll(start, qs, used).wakeup == r[0]
  {
    hide Handle, Raises;
    var start := Prepare(s, seconds);
    AsleepState(start, qs, used);
    forall k | 0 <= k < used - 1
      ensures Raises(HandleAll(start, qs, k), qs[k]) == []
    {
      AsleepState(start, qs, k + 1);
      assert HandleAll(start, qs, k + 1).wakeup == Unknown;
      if Raises(HandleAll(start, qs, k), qs[k]) != [] {
        RaisesNoUnknown(HandleAll(start, qs, k), qs[k]);
      }
    }
  }

  lemma RaisesNoUnknown(s: State, q: Irq)
    requires ProperIrq(q) && Raises(s, q) != []
    ensures Raises(s, q)[0] != Unknown
  {
    hide CheckClock, After;
  }

  // How long it sleeps

  function HalfUp(n: nat): nat { (n + 1) / 2 }

  /** The time to wake up can be told from the 32-bit uptime: it is not 0, which would mean
      that no time was asked for, and it is not skipped by the tick that wraps the uptime. */
  predicate Timely(uptime: nat, seconds: nat) {
    uptime + seconds != WORD32 && (uptime + seconds == WORD32 - 1 ==> seconds % 2 == 0)
  }

  /** A sleep of `seconds` ends after at most half as many ticks of the slow clock, rounded up. */
  lemma SleepIsBounded(s: State, seconds: nat, qs: seq<Irq>, n: nat)
    requires s.uptime < WORD32 && n <= |qs| && forall q :: q in qs ==> ProperIrq(q)
    requires 0 < seconds < WORD32 && Timely(s.uptime, seconds)
    requires forall k :: 0 < k <= n ==> HandleAll(Prepare(s, seconds), qs, k).wakeup == Unknown
    ensures ClockTicks(qs[..n]) < HalfUp(seconds)
  {
    hide HandleAll, ClockTicks, Prepare, HalfUp, Timely;
    if ClockTicks(qs[..n]) >= HalfUp(seconds) {
      HalfUpPositive(seconds);
      var m := LastTick(qs, n, HalfUp(seconds));
      DueTickWakes(s, seconds, qs, m);
    }
  }

  lemma HalfUpPositive(n: nat)
    requires n > 0
    ensures HalfUp(n) > 0 && 2 * HalfUp(n) >= n
  {
  }

  /** The tick that completes the time asked for ends the sleep. */
  lemma DueTickWakes(s: State, seconds: nat, qs: seq<Irq>, m: nat)
    requires s.uptime < WORD32 && 0 < m <= |qs| && forall q :: q in qs ==> ProperIrq(q)
    requires 0 < seconds < WORD32 && Timely(s.uptime, seconds)
    requires qs[m - 1].RtcTick? && ClockTicks(qs[..m]) == HalfUp(seconds)
    requires forall k :: 0 < k < m ==> HandleAll(Prepare(s, seconds), qs, k).wakeup == Unknown
    ensures HandleAll(Prepare(s, seconds), qs, m).wakeup != Unknown
  {
    hide HandleAll, ClockTicks, Raises, Isr, Timely, HalfUp;
    var start := Prepare(s, seconds);
    DueTick(s.uptime, seconds);
    LastIsTick(start, qs, m);
    AsleepState(start, qs, m - 1);
    if m > 1 {
      assert HandleAll(start, qs, m - 1).wakeup == Unknown;
    } else {
      HandleNone(start, qs);
    }
    TimeoutRaised(HandleAll(start, qs, m - 1));
  }

  lemma LastIsTick(s: State, qs: seq<Irq>, m: nat)
    requires 0 < m <= |qs| && qs[m - 1].RtcTick?
    ensures HandleAll(s, qs, m) == Isr(HandleAll(s, qs, m - 1))
    ensures ClockTicks(qs[..m]) == ClockTicks(qs[..m - 1]) + 1
  {
    hide Isr;
    assert qs[..m][..m - 1] == qs[..m - 1];
  }

  lemma HandleNone(s: State, qs: seq<Irq>)
    ensures HandleAll(s, qs, 0) == s
  {
  }

  lemma DueTick(uptime: nat, seconds: nat)
    requires uptime < WORD32 && 0 < seconds < WORD32 && Timely(uptime, seconds)
    ensures var due := (uptime + seconds) % WORD32;
            due != 0 && ((uptime + 2 * (HalfUp(seconds) - 1)) % WORD32 + 2) % WORD32 >= due
  {
  }

  /** The place of the `t`-th tick. */
  lemma {:induction false} LastTick(qs: seq<Irq>, n: nat, t: nat) returns (m: nat)
    requires n <= |qs| && 0 < t <= ClockTicks(qs[..n])
    ensures 0 < m <= n && qs[m - 1].RtcTick? && ClockTicks(qs[..m]) == t
  {
    assert n > 0;
    assert qs[..n][..n - 1] == qs[..n - 1];
    if ClockTicks(qs[..n - 1]) >= t {
      m := LastTick(qs, n - 1, t);
    } else {
      m := n;
    }
  }

  lemma TimeoutRaised(s: State)
    requires s.slow && s.wakeup == Unknown && s.secondsToWakeup != 0
    requires (s.uptime + 2) % WORD32 >= s.secondsToWakeup
    ensures Isr(s).wakeup != Unknown
  {
    hide CheckClock, After;
    SlowClock(s);
  }

  /** The time to wake up lies behind the wrap of the uptime, and the next tick still before it. */
  predicate WakesEarly(uptime: nat, seconds: nat) { uptime + 2 < WORD32 < uptime + seconds }

  /** Otherwise the clock does not end a sleep early. */
  lemma NoEarlyTimeout(s: State, seconds: nat, qs: seq<Irq>, n: nat)
    requires s.uptime < WORD32 && n < |qs| && forall q :: q in qs ==> ProperIrq(q)
    requires 0 < seconds < WORD32 && ClockTicks(qs[..n]) + 1 < HalfUp(seconds) && !WakesEarly(s.uptime, seconds)
    requires forall k :: 0 < k <= n ==> HandleAll(Prepare(s, seconds), qs, k).wakeup == Unknown
    ensures qs[n].RtcTick? ==> Timeout !in Raises(HandleAll(Prepare(s, seconds), qs, n), qs[n])
  {
    hide Handle, HandleAll, Raises, ClockTicks, HalfUp, WakesEarly;
    var start := Prepare(s, seconds);
    NotYetDue(s.uptime, seconds, ClockTicks(qs[..n]));
    AsleepState(start, qs, n);
    if n == 0 {
      HandleNone(start, qs);
    } else {
      assert HandleAll(start, qs, n).wakeup == Unknown;
    }
    RaisesTimeout(HandleAll(start, qs, n));
  }

  lemma NotYetDue(uptime: nat, seconds: nat, ticks: nat)
    requires uptime < WORD32 && seconds < WORD32 && ticks + 1 < HalfUp(seconds) && !WakesEarly(uptime, seconds)
    ensures var due := (uptime + seconds) % WORD32;
            due == 0 || ((uptime + 2 * ticks) % WORD32 + 2) % WORD32 < due
  {
    var now := uptime + 2 * ticks + 2;
    SumRemainder(uptime + 2 * ticks, 2, WORD32);
    assert now < uptime + seconds;
    if uptime + seconds > WORD32 {
      DivisionIsUnique(now, WORD32, 1, now - WORD32);
      DivisionIsUnique(uptime + seconds, WORD32, 1, uptime + seconds - WORD32);
    }
  }

  lemma RaisesTimeout(s: State)
    requires s.slow && s.wakeup == Unknown
    ensures Timeout in Raises(s, RtcTick) <==> s.secondsToWakeup != 0 && (s.uptime + 2) % WORD32 >= s.secondsToWakeup
  {
    hide CheckClock, After;
    SlowClock(s);
  }

  // What the wrap of the uptime does

  /** The uptime shown after `k` more ticks. */
  function Shown(uptime: nat, k: nat): nat { (uptime + 2 * k) % WORD32 }

  /** Ticks of the slow clock while nothing is due. */
  lemma {:induction false} QuietTicks(s: State, qs: seq<Irq>, n: nat)
    requires s.slow && s.wakeup == Unknown && s.taskTimeout == 0
    requires forall k :: 0 < k <= 2 * n ==> After(s.date, k) != s.alarm
    requires s.uptime < WORD32 && n <= |qs| && forall q :: q in qs ==> q == RtcTick
    requires s.secondsToWakeup == 0 || forall k | 0 < k <= n :: Shown(s.uptime, k) < s.secondsToWakeup
    ensures var h := HandleAll(s, qs, n);
            && h.slow && h.wakeup == Unknown && h.taskTimeout == 0 && h.alarm == s.alarm
            && h.secondsToWakeup == s.secondsToWakeup
            && h.uptime == (s.uptime + 2 * n) % WORD32 && h.date == After(s.date, 2 * n)
  {
    hide Isr, After;
    if n == 0 {
      AfterNone(s.date);
    } else {
      QuietTicks(s, qs, n - 1);
      assert qs[n - 1] in qs;
      LastIsTick(s, qs, n);
      var h := HandleAll(s, qs, n - 1);
      AfterAfter(s.date, 2 * (n - 1), 1);
      AfterAfter(s.date, 2 * (n - 1), 2);
      SumModulo(s.uptime + 2 * (n - 1), 2);
      assert (h.uptime + 2) % WORD32 == Shown(s.uptime, n);
      QuietTick(h);
    }
  }

  lemma QuietTick(s: State)
    requires s.slow && s.wakeup == Unknown && s.taskTimeout == 0
    requires After(s.date, 1) != s.alarm && After(s.date, 2) != s.alarm
    requires s.secondsToWakeup == 0 || (s.uptime + 2) % WORD32 < s.secondsToWakeup
    ensures var h := Isr(s);
            && h.slow && h.wakeup == Unknown && h.taskTimeout == 0 && h.alarm == s.alarm
            && h.secondsToWakeup == s.secondsToWakeup
            && h.uptime == (s.uptime + 2) % WORD32 && h.date == After(s.date, 2)
  {
    hide CheckClock, After;
    SlowClock(s);
  }

  /** The bound needs its condition: otherwise, when nothing else wakes it, the processor is
      still asleep after the tick that should have ended the sleep. */
  lemma UntimelySleepIsLonger(s: State, seconds: nat, qs: seq<Irq>, n: nat)
    requires s.uptime < WORD32 && 0 < seconds < WORD32 && !Timely(s.uptime, seconds)
    requires s.taskTimeout == 0 && forall k :: 0 < k <= 2 * n ==> After(s.date, k) != s.alarm
    requires n <= HalfUp(seconds) && n <= |qs| && forall q :: q in qs ==> q == RtcTick
    ensures HandleAll(Prepare(s, seconds), qs, n).wakeup == Unknown
  {
    hide HandleAll;
    QuietTicks(Prepare(s, seconds), qs, n);
  }

  /** When it does lie there, the first tick already wakes. */
  lemma WrapWakesEarly(s: State, seconds: nat, qs: seq<Irq>)
    requires s.uptime < WORD32 && seconds < WORD32 && WakesEarly(s.uptime, seconds)
    requires |qs| > 0 && qs[0] == RtcTick
    ensures Timeout in Raises(HandleAll(Prepare(s, seconds), qs, 0), qs[0])
    ensures HandleAll(Prepare(s, seconds), qs, 1).wakeup != Unknown
  {
    hide Raises, Isr, HandleAll;
    HandleNone(Prepare(s, seconds), qs);
    LastIsTick(Prepare(s, seconds), qs, 1);
    RaisesTimeout(Prepare(s, seconds));
    TimeoutRaised(Prepare(s, seconds));
  }

  /** While the processor is still asleep after `n` interrupts, the next one is a tick that raises
      the timeout although it does not complete the time asked for. */
  ghost predicate EarlyTimeout(s: State, seconds: nat, qs: seq<Irq>, n: nat) {
    && n < |qs| && (forall q :: q in qs ==> ProperIrq(q))
    && (forall k :: 0 < k <= n ==> HandleAll(Prepare(s, seconds), qs, k).wakeup == Unknown)
    && qs[n].RtcTick? && ClockTicks(qs[..n]) + 1 < HalfUp(seconds)
    && Timeout in Raises(HandleAll(Prepare(s, seconds), qs, n), qs[n])
  }

  /** The clock can end a sleep early exactly then, if there is a tick before the last. */
  lemma EarlyTimeoutExactly(s: State, seconds: nat)
    requires s.uptime < WORD32 && 0 < seconds < WORD32
    ensures (exists qs: seq<Irq>, n: nat :: EarlyTimeout(s, seconds, qs, n))
       <==> seconds > 2 && WakesEarly(s.uptime, seconds)
  {
    hide HandleAll, Raises, Prepare, WakesEarly;
    if qs: seq<Irq>, n: nat :| EarlyTimeout(s, seconds, qs, n) {
      if !WakesEarly(s.uptime, seconds) {
        NoEarlyTimeout(s, seconds, qs, n);
      }
    }
    if seconds > 2 && WakesEarly(s.uptime, seconds) {
      WrapWakesEarly(s, seconds, [RtcTick]);
      assert [RtcTick][..0] == [];
      assert EarlyTimeout(s, seconds, [RtcTick], 0);
    }
  }

  /** Going to sleep for 0 seconds sets no time: the clock alone never ends that sleep. */
  lemma SleepWithoutTime(s: State, qs: seq<Irq>, n: nat)
    requires s.uptime < WORD32 && s.taskTimeout == 0 && n <= |qs| && forall q :: q in qs ==> q == RtcTick
    requires forall k :: 0 < k <= 2 * n ==> After(s.date, k) != s.alarm
    ensures HandleAll(Prepare(s, 0), qs, n).wakeup == Unknown
  {
    hide HandleAll, After;
    QuietTicks(Prepare(s, 0), qs, n);
  }
}
