/** Setting up the timer modules (pxbee/drivers/tpm/tpm.c), with the clock configured as
    48 MHz and the bus clock as half of it (pxbee/headers/tpm.h): the choice of clock and
    prescaler for a period, and the conversion of microseconds to timer counts and back. */
module TimerModulo {
  import opened Arithmetic
  import opened Bits
  import opened Words

  const BUS_CLOCK: Byte := 0x08
  const FIXED_CLOCK: Byte := 0x10
  const PRESCALER: Byte := 0x07
  const BUS_MAX: nat := 2731
  const FIXED_MAX: nat := 4194304

  function Shift(p: nat): nat
    requires p < 8
  {
    match p
    case 0 => 1 case 1 => 2 case 2 => 4 case 3 => 8
    case 4 => 16 case 5 => 32 case 6 => 64 case 7 => 128
  }

  /** The microseconds and the counts that make a whole ratio (`TPM_MIN_USEC`, `TPM_MIN_TICKS`). */
  function MinUsec(p: nat): nat
    requires p < 8
  {
    if p <= 3 then 1 else Shift(p - 3)
  }

  function MinTicks(p: nat): nat
    requires p < 8
  {
    if p <= 3 then 24 / Shift(p) else 3
  }

  function MinUsecFixed(p: nat): nat
    requires p < 8
  {
    64 * Shift(p)
  }

  predicate OnBusClock(sc: Byte) { sc & BUS_CLOCK != 0 }

  function Prescaler(sc: Byte): (p: nat)
    ensures p < 8
  {
    (sc & PRESCALER) as nat
  }

  /** Multiplication of 32-bit numbers. */
  function Product(a: nat, b: nat): nat { a * b % WORD32 }

  function ComputeModulo(sc: Byte, usecs: nat): nat
    requires usecs < WORD32
  {
    var p := Prescaler(sc);
    if OnBusClock(sc) then Product(usecs, MinTicks(p)) / MinUsec(p) % WORD16
    else usecs / MinUsecFixed(p) % WORD16
  }

  function ModuloToUsec(sc: Byte, modulo: nat): nat
    requires modulo < WORD16
  {
    var p := Prescaler(sc);
    if OnBusClock(sc) then Product(modulo, MinUsec(p)) / MinTicks(p)
    else Product(modulo, MinUsecFixed(p))
  }

  /** The shortest time a period can be changed by, in whole microseconds. */
  function Resolution(sc: Byte): nat {
    if OnBusClock(sc) then MinUsec(Prescaler(sc)) else MinUsecFixed(Prescaler(sc))
  }

  /** The period takes no more than the 65536 counts of the register. */
  predicate Fits(sc: Byte, usecs: nat) {
    if OnBusClock(sc) then 24 * usecs < WORD16 * Shift(Prescaler(sc))
    else usecs < FIXED_MAX * Shift(Prescaler(sc))
  }

  lemma ProductWraps(a: nat, b: nat) returns (j: nat)
    ensures a * b == WORD32 * j + Product(a, b) && Product(a, b) < WORD32
  {
    MulNonnegative(a, b);
    j := a * b / WORD32;
  }

  lemma ProductFits(m: nat, s: nat)
    requires m < WORD16 && s <= 0x2000
    ensures Product(m, s) == m * s
  {
    MulNonnegative(m, s);
    if m > 0 {
      MulGrows(m, s, 0x2001);
    }
  }

  /** `u` microseconds make `w` in the units of the bus clock, after `j` rounds of the 32-bit
      product, and `m` counts, after `k` rounds of the register; these make `back`
      microseconds. */
  lemma BusRounds(p: nat, u: nat, w: nat, j: nat, k: nat, m: nat, back: nat)
    requires p < 8 && m < WORD16 && u * MinTicks(p) == WORD32 * j + w && w < WORD32
    requires var s := MinUsec(p); s * (WORD16 * k + m) <= w < s * (WORD16 * k + m) + s
    requires var t := MinTicks(p); t * back <= m * MinUsec(p) < t * back + t
    ensures back <= u < back + MinUsec(p) <==> 24 * u < WORD16 * Shift(p)
  {
    match p
    case 0 => case 1 => case 2 => case 3 => case 4 => case 5 => case 6 => case 7 =>
  }

  lemma BusRoundTrip(p: nat, u: nat)
    requires p < 8
    ensures var back := Product(Product(u, MinTicks(p)) / MinUsec(p) % WORD16, MinUsec(p)) / MinTicks(p);
            back <= u < back + MinUsec(p) <==> 24 * u < WORD16 * Shift(p)
  {
    hide MinTicks, MinUsec, Shift, Product;
    Ratio(p);
    var t, s := MinTicks(p), MinUsec(p);
    var w := Product(u, t);
    var j := ProductWraps(u, t);
    var q := w / s;
    QuotientIsUnique(w, s, q);
    var m := q % WORD16;
    ProductFits(m, s);
    var y := Product(m, s);
    QuotientIsUnique(y, t, y / t);
    BusRounds(p, u, w, j, q / WORD16, m, y / t);
  }

  lemma FixedRounds(p: nat, u: nat, k: nat, m: nat)
    requires p < 8 && m < WORD16
    requires var s := MinUsecFixed(p); s * (WORD16 * k + m) <= u < s * (WORD16 * k + m) + s
    ensures m * MinUsecFixed(p) <= u < m * MinUsecFixed(p) + MinUsecFixed(p) <==> u < FIXED_MAX * Shift(p)
  {
    match p
    case 0 => case 1 => case 2 => case 3 => case 4 => case 5 => case 6 => case 7 =>
  }

  lemma FixedRoundTrip(p: nat, u: nat)
    requires p < 8
    ensures var back := Product(u / MinUsecFixed(p) % WORD16, MinUsecFixed(p));
            back <= u < back + MinUsecFixed(p) <==> u < FIXED_MAX * Shift(p)
  {
    Ratio(p);
    hide MinUsecFixed, Shift, Product;
    var s := MinUsecFixed(p);
    var q := u / s;
    QuotientIsUnique(u, s, q);
    ProductFits(q % WORD16, s);
    FixedRounds(p, u, q / WORD16, q % WORD16);
  }

  /** A period converted to counts and back is never longer and falls short by less than the
      resolution, exactly when the counts fit the register. */
  lemma RoundTripExactlyWhenItFits(sc: Byte, usecs: nat)
    requires usecs < WORD32
    ensures var back := ModuloToUsec(sc, ComputeModulo(sc, usecs));
            back <= usecs < back + Resolution(sc) <==> Fits(sc, usecs)
  {
    hide Prescaler, OnBusClock, MinTicks, MinUsec, MinUsecFixed, Shift, Product;
    if OnBusClock(sc) {
      BusRoundTrip(Prescaler(sc), usecs);
    } else {
      FixedRoundTrip(Prescaler(sc), usecs);
    }
  }

  /** The longest period that a prescaler is chosen for does not fit; one step of the
      prescaler less does. */
  lemma LongestPeriodDoesNotFit(sc: Byte)
    ensures var longest, p := if OnBusClock(sc) then BUS_MAX else FIXED_MAX, Prescaler(sc);
            !Fits(sc, longest * Shift(p)) && Fits(sc, longest * Shift(p) - Shift(p))
  {
    hide Prescaler, OnBusClock;
    match Prescaler(sc)
    case 0 => case 1 => case 2 => case 3 => case 4 => case 5 => case 6 => case 7 =>
  }

  lemma Ratio(p: nat)
    requires p < 8
    ensures 1 <= MinTicks(p) && 1 <= MinUsec(p) <= 16 && 64 <= MinUsecFixed(p) <= 0x2000
  {
  }

  class Timer {
    /** The status and control register. */
    var sc: Byte

    constructor ()
      ensures sc == 0
    {
      sc := 0;
    }

    /** The smallest prescaler of the bus clock that the period fits, else the smallest of the
        fixed clock. */
    method SetPrescaler(usecs: nat) returns (ret: int)
      requires usecs < WORD32
      modifies this
      ensures ret == -EINVAL <==> usecs > FIXED_MAX * 128
      ensures ret == -EINVAL ==> sc == old(sc)
      ensures ret != -EINVAL ==>
                && ret == Prescaler(sc) && OnBusClock(sc) == (usecs <= BUS_MAX * 128)
                && (OnBusClock(sc) <==> sc & FIXED_CLOCK == 0) && sc & 0xE0 == old(sc) & 0xE0
                && var longest := if OnBusClock(sc) then BUS_MAX else FIXED_MAX;
                   && usecs <= longest * Shift(ret)
                   && (ret > 0 ==> usecs > longest * Shift(ret - 1))
    {
      hide OnBusClock, Prescaler;
      var i := 0;
      while i < 2
        invariant i <= 2 && sc == old(sc)
        invariant i > 0 ==> usecs > BUS_MAX * 128
        invariant i > 1 ==> usecs > FIXED_MAX * 128
      {
        var longest := if i == 0 then BUS_MAX else FIXED_MAX;
        var max, prescaler := longest, 0;
        while prescaler < 8
          invariant prescaler <= 8 && sc == old(sc)
          invariant prescaler < 8 ==> max == longest * Shift(prescaler)
          invariant prescaler > 0 ==> usecs > longest * Shift(prescaler - 1)
        {
          if usecs <= max {
            SetFields(sc, i == 1, prescaler);
            sc := WithFields(sc, i == 1, prescaler);
            return prescaler;
          }
          max := max * 2 % WORD32;
          prescaler := prescaler + 1;
        }
        i := i + 1;
      }
      return -EINVAL;
    }
  }

  /** The register with clock and prescaler replaced. */
  function WithFields(sc: Byte, fixed: bool, prescaler: nat): Byte
    requires prescaler < 8
  {
    (sc & !(BUS_CLOCK | FIXED_CLOCK | PRESCALER))
    | (if fixed then FIXED_CLOCK else BUS_CLOCK) | (prescaler as Byte & PRESCALER)
  }

  lemma SetFields(sc: Byte, fixed: bool, prescaler: nat)
    requires prescaler < 8
    ensures var w := WithFields(sc, fixed, prescaler);
            && Prescaler(w) == prescaler && OnBusClock(w) == !fixed
            && (w & FIXED_CLOCK == 0) == !fixed && w & 0xE0 == sc & 0xE0
  {
    match prescaler
    case 0 => case 1 => case 2 => case 3 => case 4 => case 5 => case 6 => case 7 =>
  }

  /** The bits of the register: the clock source in bits 3 and 4, the prescaler in bits 0 to 2. */
  lemma RegisterInBits()
    ensures OnBusClock(0x08) && !OnBusClock(0xF7) && Prescaler(0xF8) == 0 && Prescaler(0x0D) == 5
    ensures WithFields(0x00, false, 6) == 0x0E && WithFields(0xFF, false, 6) == 0xEE
    ensures WithFields(0x00, true, 1) == 0x11 && WithFields(0xFF, true, 1) == 0xF1
  {
  }

  /** Periods of a millisecond on the bus clock, undivided and divided by 16, and of a second on the
      fixed clock divided by 128. */
  lemma KnownPeriods()
    ensures ComputeModulo(0x08, 1000) == 24000 && ModuloToUsec(0x08, 24000) == 1000
    ensures ComputeModulo(0x0C, 1000) == 1500 && ModuloToUsec(0x0C, 1500) == 1000
    ensures ComputeModulo(0x17, 1000000) == 122 && ModuloToUsec(0x17, 122) == 999424
  {
    RegisterOf(0x08);
    RegisterOf(0x0C);
    RegisterOf(0x17);
  }

  lemma RegisterOf(sc: Byte)
    ensures sc == 0x08 ==> OnBusClock(sc) && Prescaler(sc) == 0
    ensures sc == 0x0C ==> OnBusClock(sc) && Prescaler(sc) == 4
    ensures sc == 0x17 ==> !OnBusClock(sc) && Prescaler(sc) == 7
  {
  }
}
