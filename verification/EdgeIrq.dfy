/** Pin interrupts of one keyboard-interrupt bank (pxbee/drivers/gpio/gpios.c). The hardware
    only knows level interrupts; an edge is emulated by waiting for the other level each time.

    The registers are bytes with one bit per pin; a pin on its own is the value below. */
module EdgeIrq {
  import opened Bits
  import opened Words

  /** `enabled` tells whether the pin itself interrupts, `armed` is the level it waits for, `active`
      the level that counts, `calls` the number of times its handler has run. */
  datatype Pin = Pin(enabled: bool, armed: bool, edge: bool, active: bool, calls: nat)

  /** What the interrupt handler does with one pin, given the level sampled. */
  function Sample(p: Pin, level: bool): Pin {
    if level != p.armed then p
    else if p.edge then p.(armed := !p.armed, calls := p.calls + (if level == p.active then 1 else 0))
    else p.(calls := p.calls + 1)
  }

  /** What configuring a pin does, given its level at that moment. */
  function Configure(p: Pin, edge: bool, active: bool, level: bool): Pin {
    p.(edge := edge, active := active, armed := if edge then (if level == active then !active else active) else active)
  }

  lemma AssignAll(b: Byte, s: nat, v: bool)
    requires s < 8
    ensures forall t :: 0 <= t < 8 ==> IsSet(Assign(b, s, v), t) == if s == t then v else IsSet(b, t)
  {
    hide IsSet, Assign;
    forall t | 0 <= t < 8
      ensures IsSet(Assign(b, s, v), t) == if s == t then v else IsSet(b, t)
    {
      AssignIsSet(b, s, v, t);
    }
  }

  class Bank {
    /** KBIxES, KBIxPE, kbimod and kbiedg. */
    var es: Byte
    var pe: Byte
    var mod: Byte
    var edg: Byte
    ghost var calls: seq<nat>

    ghost predicate Valid()
      reads this
    {
      |calls| == 8
    }

    ghost function View(s: nat): Pin
      requires Valid() && s < 8
      reads this
    {
      Pin(IsSet(pe, s), IsSet(es, s), IsSet(mod, s), IsSet(edg, s), calls[s])
    }

    constructor ()
      ensures Valid() && forall s: nat :: s < 8 ==> View(s) == Pin(false, false, false, false, 0)
    {
      es, pe, mod, edg := 0, 0, 0, 0;
      calls := [0, 0, 0, 0, 0, 0, 0, 0];
    }

    /** Configures (`config`) and enables or disables the interrupt of one pin; the other pins
        of the bank are not affected, nor is this one if it is not for general use. */
    method ConfigIrq(s: nat, gpioable: bool, enable: bool, config: bool, edge: bool, active: bool, level: bool)
      returns (ret: int)
      requires Valid() && s < 8
      modifies this
      ensures Valid()
      ensures ret == if gpioable then 0 else -EINVAL
      ensures View(s) == if !gpioable then old(View(s))
                         else
                           (if config then Configure(old(View(s)), edge, active, level) else old(View(s)))
                           .(enabled := enable)
      ensures forall t :: 0 <= t < 8 && t != s ==> View(t) == old(View(t))
    {
      hide IsSet, Assign;
      if !gpioable {
        return -EINVAL;
      }
      if config {
        var armed := active;
        if edge {
          armed := if level == active then !active else active;
        }
        AssignAll(es, s, armed);
        AssignAll(mod, s, edge);
        AssignAll(edg, s, active);
        es := Assign(es, s, armed);
        mod := Assign(mod, s, edge);
        edg := Assign(edg, s, active);
      }
      AssignAll(pe, s, enable);
      pe := Assign(pe, s, enable);
      ret := 0;
    }

    /** The part of the handler that looks after one pin. */
    method ServicePin(s: nat, candidates: Byte, val: Byte)
      requires Valid() && s < 8
      requires IsSet(candidates, s) == (IsSet(val, s) == View(s).armed)
      modifies this`es, this`calls
      ensures Valid()
      ensures View(s) == Sample(old(View(s)), IsSet(val, s))
      ensures forall t :: 0 <= t < 8 && t != s ==> View(t) == old(View(t))
    {
      hide IsSet, Assign, Agreement;
      if IsSet(candidates, s) {
        if IsSet(mod, s) {
          AssignAll(es, s, !IsSet(es, s));
          es := Assign(es, s, !IsSet(es, s));
          SameBit(val, edg, s);
          if IsSet(Agreement(val, edg), s) {
            calls := calls[s := calls[s] + 1];
          }
        } else {
          calls := calls[s := calls[s] + 1];
        }
      }
    }

    /** The part of the interrupt handler for a bank: every pin is sampled once, on its own. */
    method GpioIsr(val: Byte)
      requires Valid()
      modifies this`es, this`calls
      ensures Valid()
      ensures forall s :: 0 <= s < 8 ==> View(s) == Sample(old(View(s)), IsSet(val, s))
    {
      hide IsSet, Assign, Sample, Agreement;
      var candidates := Agreement(val, es);
      forall s | 0 <= s < 8
        ensures IsSet(candidates, s) == (IsSet(val, s) == IsSet(es, s))
      {
        SameBit(val, es, s);
      }
      ServiceHalf(0, candidates, val);
      ServiceHalf(4, candidates, val);
    }

    /** The four pins from `base` on. */
    method ServiceHalf(base: nat, candidates: Byte, val: Byte)
      requires Valid() && base <= 4
      requires forall s :: base <= s < base + 4 ==> IsSet(candidates, s) == (IsSet(val, s) == View(s).armed)
      modifies this`es, this`calls
      ensures Valid()
      ensures forall s :: 0 <= s < 8 ==>
                View(s) == if base <= s < base + 4 then Sample(old(View(s)), IsSet(val, s)) else old(View(s))
    {
      hide IsSet, Assign, Sample, Agreement;
      ServicePin(base, candidates, val);
      ServicePin(base + 1, candidates, val);
      ServicePin(base + 2, candidates, val);
      ServicePin(base + 3, candidates, val);
    }
  }

  /** The interrupt handler for both banks, each with its own flag and levels. */
  method Isr(bank1: Bank, flag1: bool, val1: Byte, bank2: Bank, flag2: bool, val2: Byte)
    requires bank1.Valid() && bank2.Valid() && bank1 != bank2
    modifies bank1`es, bank1`calls, bank2`es, bank2`calls
    ensures bank1.Valid() && bank2.Valid()
    ensures forall s :: 0 <= s < 8 ==>
              bank1.View(s) == if flag1 then Sample(old(bank1.View(s)), IsSet(val1, s)) else old(bank1.View(s))
    ensures forall s :: 0 <= s < 8 ==>
              bank2.View(s) == if flag2 then Sample(old(bank2.View(s)), IsSet(val2, s)) else old(bank2.View(s))
  {
    hide IsSet, Sample;
    if flag1 {
      bank1.GpioIsr(val1);
    }
    if flag2 {
      bank2.GpioIsr(val2);
    }
  }

  // What the handler calls amount to

  /** The pin after a series of samples. */
  function SampleAll(p: Pin, levels: seq<bool>): Pin {
    if levels == [] then p else Sample(SampleAll(p, levels[..|levels| - 1]), levels[|levels| - 1])
  }

  /** The last level seen, `first` being the one at configuration. */
  function Last(first: bool, levels: seq<bool>): bool {
    if levels == [] then first else levels[|levels| - 1]
  }

  /** How often the level went from inactive to active, from one sample to the next. */
  function Edges(first: bool, levels: seq<bool>, active: bool): nat {
    if levels == [] then 0
    else
      var n := |levels| - 1;
      Edges(first, levels[..n], active) + (if Last(first, levels[..n]) != active && levels[n] == active then 1 else 0)
  }

  /** For a pin configured for an edge the armed level is always the opposite of the level
      sampled last, and the handler has run once for every inactive-to-active transition
      sampled, however often other pins caused a sample in between. */
  lemma {:induction false} CallsCountEdges(p: Pin, active: bool, first: bool, levels: seq<bool>)
    ensures var q := SampleAll(Configure(p, true, active, first), levels);
            && q.edge && q.active == active
            && q.armed == !Last(first, levels)
            && q.calls == p.calls + Edges(first, levels, active)
  {
    if levels != [] {
      CallsCountEdges(p, active, first, levels[..|levels| - 1]);
    }
  }

  /** The interrupt is pending exactly while the level differs from the one sampled last, so
      no change goes unnoticed and an unchanged level does not interrupt again. */
  lemma ChangeIsPending(p: Pin, active: bool, first: bool, levels: seq<bool>, level: bool)
    ensures var q := SampleAll(Configure(p, true, active, first), levels);
            level == q.armed <==> level != Last(first, levels)
  {
    CallsCountEdges(p, active, first, levels);
  }

  /** How often a level was sampled. */
  function Count(levels: seq<bool>, level: bool): nat {
    if levels == [] then 0
    else Count(levels[..|levels| - 1], level) + (if levels[|levels| - 1] == level then 1 else 0)
  }

  /** A pin configured for a level runs its handler at every sample that shows the level. */
  lemma {:induction false} CallsCountLevels(p: Pin, active: bool, first: bool, levels: seq<bool>)
    ensures var q := SampleAll(Configure(p, false, active, first), levels);
            !q.edge && q.armed == active && q.calls == p.calls + Count(levels, active)
  {
    if levels != [] {
      CallsCountLevels(p, active, first, levels[..|levels| - 1]);
    }
  }

  /** Whether a pin is enabled decides only whether it interrupts. Sampled because another pin did,
      a disabled pin is toggled and its handler called all the same. */
  lemma {:induction false} DisabledPinsAreServed(p: Pin, levels: seq<bool>)
    ensures SampleAll(p, levels) == SampleAll(p.(enabled := !p.enabled), levels).(enabled := p.enabled)
  {
    if levels != [] {
      DisabledPinsAreServed(p, levels[..|levels| - 1]);
    }
  }

  /** So a pin that was disabled at its inactive level counts its next active one. */
  lemma DisabledPinIsCalled(p: Pin, active: bool)
    ensures var q := Configure(p, true, active, !active).(enabled := false);
            Sample(q, active).calls == p.calls + 1
  {
  }
}
