/** Time in the real-time clock module (pxbee/drivers/rtc/rtc.c): milliseconds, seconds and ticks
    tell the same time, and the date follows them, over every run of ticks and mode switches,
    with the exact conditions. */
module RtcTime {
  import opened Arithmetic
  import opened Calendar
  import opened Rtc
  import opened Words

  /** The milliseconds, the seconds and the ticks of the current second tell the same time. */
  predicate Conserved(s: State) {
    s.msUptime == TotalMs(s.uptime, s.ticks)
  }

  function TotalMs(uptime: nat, ticks: nat): nat { (1000 * uptime + 4 * ticks) % WORD32 }

  // Single events

  lemma SumModulo(a: int, c: int)
    ensures ((a % WORD32) + c) % WORD32 == (a + c) % WORD32
    ensures (1000 * (a % WORD32) + c) % WORD32 == (1000 * a + c) % WORD32
  {
    SumRemainder(a, c, WORD32);
    var q := a / WORD32;
    assert 1000 * a + c == 1000 * (a % WORD32) + c + WORD32 * (1000 * q);
    SameRemainder(1000 * (a % WORD32) + c, WORD32, 1000 * q);
  }

  lemma MoreTicks(uptime: nat, ticks: nat, k: nat)
    ensures (TotalMs(uptime, ticks) + 4 * k) % WORD32 == TotalMs(uptime, ticks + k)
  {
    SumRemainder(1000 * uptime + 4 * ticks, 4 * k, WORD32);
  }

  lemma MoreSeconds(uptime: nat, ticks: nat, k: nat)
    ensures TotalMs((uptime + k) % WORD32, ticks) == TotalMs(uptime, ticks + HZ * k)
    ensures (TotalMs(uptime, ticks) + 1000 * k) % WORD32 == TotalMs((uptime + k) % WORD32, ticks)
  {
    SumModulo(uptime + k, 4 * ticks);
    SumRemainder(1000 * uptime + 4 * ticks, 1000 * k, WORD32);
  }

  /** A counter that wraps loses what it held. */
  lemma WrapLoses(uptime: nat, ticks: nat)
    requires ticks >= WORD16
    ensures TotalMs(uptime, ticks) != TotalMs(uptime, ticks - WORD16)
  {
    DifferentRemainders(1000 * uptime + 4 * (ticks - WORD16), 4 * WORD16);
  }

  lemma DifferentRemainders(a: int, b: int)
    requires 0 < b < WORD32
    ensures (a + b) % WORD32 != a % WORD32
  {
    SumRemainder(a, b, WORD32);
  }

  /** A tick conserves time, unless it is a fast one and the tick counter is full. */
  lemma TickConserves(s: State)
    requires Conserved(s) && s.ticks < WORD16
    ensures Conserved(Isr(s)) <==> s.slow || s.ticks + 1 < WORD16
  {
    hide Isr, TotalMs;
    if s.slow {
      SlowTickConserves(s);
    } else {
      FastTickConserves(s);
    }
  }

  lemma SlowTickConserves(s: State)
    requires Conserved(s) && s.slow
    ensures Conserved(Isr(s))
  {
    hide Isr, After, TotalMs;
    IsrCounters(s);
    MoreSeconds(s.uptime, s.ticks, SLOW_SEC_INC);
  }

  lemma FastTickConserves(s: State)
    requires Conserved(s) && s.ticks < WORD16 && !s.slow
    ensures Conserved(Isr(s)) <==> s.ticks + 1 < WORD16
  {
    hide Isr, After, TotalMs;
    IsrCounters(s);
    MoreTicks(s.uptime, s.ticks, 1);
    if s.ticks + 1 < WORD16 {
      CarriedTicks(s.uptime, s.ticks + 1);
    } else {
      WrapLoses(s.uptime, s.ticks + 1);
    }
  }

  lemma CarriedTicks(uptime: nat, t: nat)
    ensures TotalMs(uptime, t) == TotalMs((uptime + t / HZ) % WORD32, t % HZ)
    ensures t < HZ ==> t % HZ == t
  {
    hide TotalMs;
    MoreSeconds(uptime, t % HZ, t / HZ);
  }

  /** Leaving slow mode conserves time exactly when the counter register reads the same for the
      milliseconds and for the ticks, and the tick counter does not overflow. */
  lemma SwitchConservesExactly(s: State, r: Reading)
    requires Conserved(s) && s.slow && s.ticks < WORD16 && ProperReading(r)
    ensures Conserved(ConfigFast(s, r)) <==> r.ms == r.ticks && s.ticks + 4 * r.ticks < WORD16
  {
    hide TotalMs;
    var n := ConfigFast(s, r);
    MoreTicks(s.uptime, s.ticks, 4 * r.ms);
    assert n.msUptime == TotalMs(s.uptime, s.ticks + 4 * r.ms);
    var t := s.ticks + 4 * r.ticks;
    assert n.ticks == if t < WORD16 then t else t - WORD16;
    OneTotal(s.uptime, s.ticks + 4 * r.ms, n.ticks);
  }

  /** Totals that differ by less than a whole round are different. */
  lemma OneTotal(uptime: nat, t: nat, u: nat)
    requires t < 2 * WORD16 && u < 2 * WORD16
    ensures TotalMs(uptime, t) == TotalMs(uptime, u) <==> t == u
  {
    if t < u {
      DifferentRemainders(1000 * uptime + 4 * t, 4 * (u - t));
    } else if t > u {
      DifferentRemainders(1000 * uptime + 4 * u, 4 * (t - u));
    }
  }

  /** The events that lose time. */
  predicate Loses(s: State, e: Event) {
    match e
    case Tick => !s.slow && s.ticks + 1 >= WORD16
    case Slow => false
    case Fast(r) => s.slow && (r.ms != r.ticks || s.ticks + 4 * r.ticks >= WORD16)
  }

  lemma EventConservesExactly(s: State, e: Event)
    requires Conserved(s) && s.ticks < WORD16 && ProperEvent(e)
    ensures Conserved(Next(s, e)) <==> !Loses(s, e)
  {
    hide Isr, TotalMs;
    match e
    case Tick => TickConserves(s);
    case Slow =>
    case Fast(r) =>
      if s.slow {
        SwitchConservesExactly(s, r);
      }
  }

  // Runs

  lemma {:induction false} TicksInRange(s: State, es: seq<Event>)
    requires s.ticks < WORD16
    ensures RunAll(s, es).ticks < WORD16
  {
    hide Isr, After;
    if es != [] {
      var n := |es| - 1;
      TicksInRange(s, es[..n]);
      IsrCounters(RunAll(s, es[..n]));
    }
  }

  lemma RunStep(s: State, es: seq<Event>, k: nat)
    requires k < |es|
    ensures RunAll(s, es[..k + 1]) == Next(RunAll(s, es[..k]), es[k])
  {
    hide Next;
    assert es[..k + 1][..k] == es[..k];
  }

  /** Over any run whatever, time is conserved throughout exactly when no event loses any. */
  lemma RunConservesExactly(s: State, es: seq<Event>)
    requires Conserved(s) && s.ticks < WORD16 && forall e :: e in es ==> ProperEvent(e)
    ensures (forall k :: 0 <= k <= |es| ==> Conserved(RunAll(s, es[..k])))
       <==> (forall k :: 0 <= k < |es| ==> !Loses(RunAll(s, es[..k]), es[k]))
  {
    hide RunAll, Conserved, Loses;
    if forall k :: 0 <= k <= |es| ==> Conserved(RunAll(s, es[..k])) {
      forall k | 0 <= k < |es|
        ensures !Loses(RunAll(s, es[..k]), es[k])
      {
        RunStep(s, es, k);
        TicksInRange(s, es[..k]);
        EventConservesExactly(RunAll(s, es[..k]), es[k]);
        assert Conserved(RunAll(s, es[..k + 1]));
      }
    }
    if forall k :: 0 <= k < |es| ==> !Loses(RunAll(s, es[..k]), es[k]) {
      forall k | 0 <= k <= |es|
        ensures Conserved(RunAll(s, es[..k]))
      {
        NothingLost(s, es, k);
      }
    }
  }

  lemma {:induction false} NothingLost(s: State, es: seq<Event>, k: nat)
    requires Conserved(s) && s.ticks < WORD16 && (forall e :: e in es ==> ProperEvent(e)) && k <= |es|
    requires forall i :: 0 <= i < |es| ==> !Loses(RunAll(s, es[..i]), es[i])
    ensures Conserved(RunAll(s, es[..k]))
  {
    hide Conserved, Loses;
    if k > 0 {
      NothingLost(s, es, k - 1);
      RunStep(s, es, k - 1);
      TicksInRange(s, es[..k - 1]);
      EventConservesExactly(RunAll(s, es[..k - 1]), es[k - 1]);
    }
  }

  /** Slow-to-fast switches since the last tick in fast mode. */
  function Pending(s: State, es: seq<Event>): nat {
    if es == [] then 0
    else
      var n := |es| - 1;
      var p, before := Pending(s, es[..n]), RunAll(s, es[..n]);
      match es[n]
      case Tick => if before.slow then p else 0
      case Slow => p
      case Fast(_) => if before.slow then p + 1 else p
  }

  /** A run with at most `limit` such switches between fast ticks; at a switch the counter
      register reads the same throughout, and never more than 124. */
  predicate Paced(s: State, es: seq<Event>, limit: nat) {
    es == [] ||
    (&& Paced(s, es[..|es| - 1], limit)
     && Pending(s, es) <= limit
     && match es[|es| - 1] case Fast(r) => r.ms == r.ticks <= 124 && r.task < 256 case _ => true)
  }

  lemma {:induction false} TicksBound(s: State, es: seq<Event>, limit: nat)
    requires s.ticks < HZ && Paced(s, es, limit)
    ensures RunAll(s, es).ticks <= 249 + 496 * Pending(s, es)
  {
    hide Isr, After;
    if es != [] {
      var n := |es| - 1;
      TicksBound(s, es[..n], limit);
      TicksGrow(RunAll(s, es[..n]), es[n]);
    }
  }

  lemma TicksGrow(s: State, e: Event)
    requires e.Fast? ==> e.r.ticks <= 124
    ensures var n := Next(s, e);
            match e
            case Tick => if s.slow then n.ticks == s.ticks else n.ticks < HZ
            case Slow => n.ticks == s.ticks
            case Fast(_) => n.ticks <= (if s.slow then s.ticks + 496 else s.ticks)
  {
    hide Isr, After;
    IsrCounters(s);
  }

  /** Over every run with at most 131 switches between fast ticks the uptime in milliseconds
      is a thousand times the uptime in seconds, plus four for every tick. */
  lemma {:induction false} TimeIsConserved(s: State, es: seq<Event>)
    requires Conserved(s) && s.ticks < HZ && Paced(s, es, 131)
    ensures Conserved(RunAll(s, es))
  {
    hide Isr, After, Conserved, ConfigFast;
    if es != [] {
      var n := |es| - 1;
      TimeIsConserved(s, es[..n]);
      TicksBound(s, es[..n], 131);
      EventConservesExactly(RunAll(s, es[..n]), es[n]);
    }
  }

  const FULL: Reading := Reading(124, 124, 124)

  /** Going to sleep and waking up just before the slow tick, `n` times without a fast tick. */
  function Naps(n: nat): (es: seq<Event>)
    ensures |es| == 2 * n
  {
    if n == 0 then [] else Naps(n - 1) + [Slow, Fast(FULL)]
  }

  lemma NapsStep(n: nat)
    requires n > 0
    ensures var es := Naps(n);
            && es[2 * n - 1] == Fast(FULL) && es[2 * n - 2] == Slow
            && es[..2 * n - 1][..2 * n - 2] == Naps(n - 1) && es[..2 * n - 1][2 * n - 2] == Slow
  {
  }

  lemma {:induction false} NapsRun(s: State, n: nat)
    requires !s.slow && s.ticks < HZ && n <= 131
    ensures var t := RunAll(s, Naps(n)); !t.slow && t.ticks == s.ticks + 496 * n
    ensures Pending(s, Naps(n)) == n && Paced(s, Naps(n), n)
  {
    if n > 0 {
      NapsRun(s, n - 1);
      NapsPaced(s, n);
      OneNap(s, n);
    }
  }

  lemma OneNap(s: State, n: nat)
    requires n > 0
    ensures RunAll(s, Naps(n)) == ConfigFast(ConfigSlow(RunAll(s, Naps(n - 1))), FULL)
  {
    hide ConfigFast, ConfigSlow;
    NapsStep(n);
  }

  lemma NapsPaced(s: State, n: nat)
    requires n > 0 && Pending(s, Naps(n - 1)) == n - 1 && Paced(s, Naps(n - 1), n - 1)
    ensures Pending(s, Naps(n)) == n && Paced(s, Naps(n), n)
  {
    hide ConfigFast;
    NapsStep(n);
    PacedMore(s, Naps(n - 1), n - 1, n);
    var es := Naps(n);
    assert RunAll(s, es[..2 * n - 1]).slow;
    assert es[..|es| - 1] == es[..2 * n - 1];
  }

  lemma {:induction false} PacedMore(s: State, es: seq<Event>, limit: nat, more: nat)
    requires Paced(s, es, limit) && limit <= more
    ensures Paced(s, es, more)
  {
    hide RunAll, Pending;
    if es != [] {
      PacedMore(s, es[..|es| - 1], limit, more);
    }
  }

  /** One switch more than that loses time, from any conserved state in fast mode that is at least
      64 ticks into its second. */
  lemma OneSwitchTooMany(s: State)
    requires Conserved(s) && !s.slow && 64 <= s.ticks < HZ
    ensures Paced(s, Naps(132), 132) && !Conserved(RunAll(s, Naps(132)))
  {
    hide RunAll, Naps, Paced, Pending, Conserved;
    NapsRun(s, 131);
    NapsPaced(s, 132);
    OneNap(s, 132);
    PacedMore(s, Naps(131), 131, 131);
    TimeIsConserved(s, Naps(131));
    var before := ConfigSlow(RunAll(s, Naps(131)));
    SlowKeeps(RunAll(s, Naps(131)));
    SwitchConservesExactly(before, FULL);
  }

  lemma SlowKeeps(s: State)
    requires Conserved(s)
    ensures Conserved(ConfigSlow(s)) && ConfigSlow(s).slow && ConfigSlow(s).ticks == s.ticks
  {
  }

  // The date follows the uptime

  /** A fast tick steps the date as often as it adds seconds exactly when it adds at most two. */
  lemma FastTickStepsDateExactly(s: State)
    requires !s.slow
    ensures Isr(s).updates - s.updates == (s.ticks + 1) % WORD16 / HZ <==> (s.ticks + 1) % WORD16 / HZ <= 2
  {
    hide Isr, After;
    IsrCounters(s);
  }

  /** The date has been stepped once for every second of uptime since the state `s`. */
  predicate InStep(s: State, n: State) {
    && n.updates >= s.updates
    && n.uptime == (s.uptime + (n.updates - s.updates)) % WORD32
    && n.date == After(s.date, n.updates - s.updates)
  }

  /** The events that step the date less often than they add seconds: a fast tick that carries
      more than two of them. */
  predicate Slips(s: State, e: Event) {
    e == Tick && !s.slow && (s.ticks + 1) % WORD16 / HZ > 2
  }

  lemma EventKeepsStepExactly(s: State, before: State, e: Event)
    requires InStep(s, before) && before.uptime < WORD32
    ensures InStep(s, Next(before, e)) <==> !Slips(before, e)
  {
    hide Isr, After;
    if e == Tick {
      var n, k := Isr(before), before.updates - s.updates;
      IsrCounters(before);
      AfterAfter(s.date, k, n.updates - before.updates);
      SecondsStep(s.uptime, k, n.updates - before.updates, if before.slow then 2 else (before.ticks + 1) % WORD16 / HZ);
    }
  }

  /** `j` updates after `k` show the uptime after `c` more seconds exactly when there are as many. */
  lemma SecondsStep(uptime: nat, k: nat, j: nat, c: nat)
    requires j <= c < WORD16
    ensures ((uptime + k) % WORD32 + c) % WORD32 == (uptime + (k + j)) % WORD32 <==> j == c
  {
    SumRemainder(uptime + k, c, WORD32);
    if j < c {
      DifferentRemainders(uptime + (k + j), c - j);
    }
  }

  lemma {:induction false} UptimeInRange(s: State, es: seq<Event>)
    requires s.uptime < WORD32
    ensures RunAll(s, es).uptime < WORD32
  {
    hide Isr, After;
    if es != [] {
      var n := |es| - 1;
      UptimeInRange(s, es[..n]);
      IsrCounters(RunAll(s, es[..n]));
    }
  }

  /** Over any run whatever, the date follows the uptime throughout exactly when no event lets
      it slip. */
  lemma RunInStepExactly(s: State, es: seq<Event>)
    requires s.uptime < WORD32
    ensures (forall k :: 0 <= k <= |es| ==> InStep(s, RunAll(s, es[..k])))
       <==> (forall k :: 0 <= k < |es| ==> !Slips(RunAll(s, es[..k]), es[k]))
  {
    hide RunAll, InStep, Slips;
    if forall k :: 0 <= k <= |es| ==> InStep(s, RunAll(s, es[..k])) {
      forall k | 0 <= k < |es|
        ensures !Slips(RunAll(s, es[..k]), es[k])
      {
        RunStep(s, es, k);
        UptimeInRange(s, es[..k]);
        EventKeepsStepExactly(s, RunAll(s, es[..k]), es[k]);
        assert InStep(s, RunAll(s, es[..k + 1]));
      }
    }
    if forall k :: 0 <= k < |es| ==> !Slips(RunAll(s, es[..k]), es[k]) {
      forall k | 0 <= k <= |es|
        ensures InStep(s, RunAll(s, es[..k]))
      {
        NothingSlips(s, es, k);
      }
    }
  }

  lemma {:induction false} NothingSlips(s: State, es: seq<Event>, k: nat)
    requires s.uptime < WORD32 && k <= |es|
    requires forall i :: 0 <= i < |es| ==> !Slips(RunAll(s, es[..i]), es[i])
    ensures InStep(s, RunAll(s, es[..k]))
  {
    hide Slips, InStep, Next;
    if k == 0 {
      assert es[..0] == [];
      StartsInStep(s);
    } else {
      NothingSlips(s, es, k - 1);
      RunStep(s, es, k - 1);
      UptimeInRange(s, es[..k - 1]);
      EventKeepsStepExactly(s, RunAll(s, es[..k - 1]), es[k - 1]);
    }
  }

  /** Over every run with at most one switch between fast ticks the date has been stepped once
      for every second of uptime, whatever mix of modes the seconds were counted in. */
  lemma {:induction false} DateFollowsUptime(s: State, es: seq<Event>)
    requires s.ticks < HZ && s.uptime < WORD32 && Paced(s, es, 1)
    ensures InStep(s, RunAll(s, es))
  {
    hide Isr, After, InStep;
    if es == [] {
      StartsInStep(s);
    } else {
      var k := |es| - 1;
      DateFollowsUptime(s, es[..k]);
      UptimeInRange(s, es[..k]);
      TicksBound(s, es[..k], 1);
      EventKeepsStepExactly(s, RunAll(s, es[..k]), es[k]);
    }
  }

  lemma StartsInStep(s: State)
    requires s.uptime < WORD32
    ensures InStep(s, s)
  {
    hide After;
    AfterNone(s.date);
  }

  /** Two switches before a fast tick are too many, from any state in fast mode. */
  lemma TwoSwitchesSlip(s: State)
    requires !s.slow && s.ticks < HZ && s.uptime < WORD32
    ensures var es := Naps(2) + [Tick]; Paced(s, es, 2) && !InStep(s, RunAll(s, es))
  {
    hide Isr, Naps, InStep, ConfigFast;
    var es := Naps(2) + [Tick];
    var before := RunAll(s, Naps(2));
    NapsRun(s, 2);
    assert es[..4] == Naps(2) && es[4] == Tick;
    UptimeInRange(s, Naps(2));
    TwoNapsInStep(s);
    EventKeepsStepExactly(s, before, Tick);
  }

  lemma TwoNapsInStep(s: State)
    requires !s.slow && s.ticks < HZ && s.uptime < WORD32
    ensures InStep(s, RunAll(s, Naps(2)))
  {
    hide RunAll, After, Naps;
    OneNap(s, 2);
    OneNap(s, 1);
    NoNaps(s);
    AfterNone(s.date);
  }

  lemma NoNaps(s: State)
    ensures RunAll(s, Naps(0)) == s
  {
  }

  /** So a date that was valid at the start shows the seconds that have passed. */
  lemma DateShowsUptime(s: State, es: seq<Event>)
    requires s.ticks < HZ && s.uptime < WORD32 && Paced(s, es, 1) && ValidDate(s.date)
    requires Seconds(s.date) + RunAll(s, es).updates - s.updates <= Seconds(EndOfCalendar())
    ensures var n := RunAll(s, es);
            && ValidDate(n.date)
            && n.uptime == (s.uptime + (Seconds(n.date) - Seconds(s.date))) % WORD32
  {
    hide RunAll, Paced, Seconds, ValidDate;
    DateFollowsUptime(s, es);
    AfterCounts(s.date, RunAll(s, es).updates - s.updates);
  }
}
