/** Bytes and the bits in them. */
module Bits {

  type Byte = bv8

  /** The bit with value 2 to the power `s`. */
  function Bit(s: nat): Byte
    requires s < 8
  {
    match s
    case 0 => 0x01 case 1 => 0x02 case 2 => 0x04 case 3 => 0x08
    case 4 => 0x10 case 5 => 0x20 case 6 => 0x40 case 7 => 0x80
  }

  /** The `s` lowest bits. */
  function LowBits(s: nat): Byte
    requires s <= 8
  {
    match s
    case 0 => 0x00 case 1 => 0x01 case 2 => 0x03 case 3 => 0x07 case 4 => 0x0F
    case 5 => 0x1F case 6 => 0x3F case 7 => 0x7F case 8 => 0xFF
  }

  predicate IsSet(b: Byte, s: nat)
    requires s < 8
  {
    Has(b, Bit(s))
  }

  /** Some bit of `m` is set in `b`. */
  predicate Has(b: Byte, m: Byte) { b & m != 0 }

  /** `b` with bit `s` set or cleared. */
  function Assign(b: Byte, s: nat, v: bool): Byte
    requires s < 8
  {
    if v then b | Bit(s) else b & !Bit(s)
  }

  lemma SetBit(b: Byte, s: nat, t: nat)
    requires s < 8 && t < 8
    ensures IsSet(b | Bit(s), t) == (s == t || IsSet(b, t))
  {
    hide Bit, Has;
    TwoBits(s, t);
    SetMask(b, Bit(s), Bit(t));
  }

  lemma ClearBit(b: Byte, s: nat, t: nat)
    requires s < 8 && t < 8
    ensures IsSet(b & !Bit(s), t) == (s != t && IsSet(b, t))
  {
    hide Bit, Has;
    TwoBits(s, t);
    ClearMask(b, Bit(s), Bit(t));
  }

  lemma TwoBits(s: nat, t: nat)
    requires s < 8 && t < 8
    ensures Bit(s) != 0 && (s == t <==> Bit(s) == Bit(t)) && (s != t ==> Bit(s) & Bit(t) == 0)
  {
  }

  lemma SetMask(b: Byte, m: Byte, n: Byte)
    requires m != 0 && (m == n || m & n == 0)
    ensures Has(b | m, n) == (m == n || Has(b, n))
  {
  }

  lemma ClearMask(b: Byte, m: Byte, n: Byte)
    requires m != 0 && (m == n || m & n == 0)
    ensures Has(b & !m, n) == (m != n && Has(b, n))
  {
  }

  lemma AssignIsSet(b: Byte, s: nat, v: bool, t: nat)
    requires s < 8 && t < 8
    ensures IsSet(Assign(b, s, v), t) == if s == t then v else IsSet(b, t)
  {
    hide IsSet, Bit;
    SetBit(b, s, t);
    ClearBit(b, s, t);
  }

  /** The complement of the exclusive or. */
  function Agreement(x: Byte, y: Byte): Byte { !(x ^ y) }

  /** It has the bits in which the operands agree. */
  lemma SameBit(x: Byte, y: Byte, s: nat)
    requires s < 8
    ensures IsSet(Agreement(x, y), s) == (IsSet(x, s) == IsSet(y, s))
  {
    hide Bit, Has, Agreement, AllOrNone;
    TwoBits(s, s);
    OneBitMask(x, s);
    OneBitMask(y, s);
    AgreeMask(x, y, Bit(s));
  }

  lemma OneBitMask(x: Byte, s: nat)
    requires s < 8
    ensures AllOrNone(x, Bit(s))
  {
    match s
    case 0 => case 1 => case 2 => case 3 => case 4 => case 5 => case 6 => case 7 =>
  }

  predicate AllOrNone(x: Byte, m: Byte) { x & m == 0 || x & m == m }

  lemma AgreeMask(x: Byte, y: Byte, m: Byte)
    requires AllOrNone(x, m) && AllOrNone(y, m) && m != 0
    ensures Has(Agreement(x, y), m) == (Has(x, m) == Has(y, m))
  {
  }

  lemma SameByte(x: Byte, y: Byte)
    requires forall s :: 0 <= s < 8 ==> (x & Bit(s) != 0) == (y & Bit(s) != 0)
    ensures x == y
  {
    assert (x & Bit(0) != 0) == (y & Bit(0) != 0);
    assert (x & Bit(1) != 0) == (y & Bit(1) != 0);
    assert (x & Bit(2) != 0) == (y & Bit(2) != 0);
    assert (x & Bit(3) != 0) == (y & Bit(3) != 0);
    assert (x & Bit(4) != 0) == (y & Bit(4) != 0);
    assert (x & Bit(5) != 0) == (y & Bit(5) != 0);
    assert (x & Bit(6) != 0) == (y & Bit(6) != 0);
    assert (x & Bit(7) != 0) == (y & Bit(7) != 0);
  }
}
