/** What `crc_check` (pxbee/drivers/1-wire/one_wire.c) computes, without reference to how: the
    remainder of the message, taken as a polynomial over the bits, after division by
    x^8 + x^5 + x^4 + 1. */
module CrcPolynomial {
  import opened Bits
  import opened Crc8

  // Messages and polynomials

  /** The `n` lowest bits, lowest first. */
  function FirstBits(x: Byte, n: nat): (bits: seq<bool>)
    requires n <= 8
    ensures |bits| == n
  {
    seq(n, k requires 0 <= k < n => IsSet(x, k))
  }

  /** The bits of a message in the order in which they are sent. */
  function MessageBits(b: seq<Byte>): (bits: seq<bool>)
    ensures |bits| == 8 * |b|
  {
    if b == [] then [] else FirstBits(b[0], 8) + MessageBits(b[1..])
  }

  function Plus(a: bool, b: bool): bool { a != b }

  /** The coefficient at place `i` of a polynomial written from its highest power down; there are
      none beyond its ends. */
  predicate At(q: seq<bool>, i: int) { 0 <= i < |q| && q[i] }

  /** The coefficient at place `t` of the product of `q` with x^8 + x^5 + x^4 + 1. */
  predicate Product(q: seq<bool>, t: int) {
    Plus(Plus(At(q, t), At(q, t - 3)), Plus(At(q, t - 4), At(q, t - 8)))
  }

  /** The message followed by the eight bits of `r`, lowest first; that is, the message times x^8
      plus the remainder `r`. */
  predicate Dividend(m: seq<bool>, r: Byte, t: nat)
    requires t < |m| + 8
  {
    if t < |m| then m[t] else IsSet(r, t - |m|)
  }

  /** `q` is the quotient and `r` the remainder of the division. */
  ghost predicate Divides(m: seq<bool>, r: Byte, q: seq<bool>) {
    |q| == |m| && forall t :: 0 <= t < |m| + 8 ==> Dividend(m, r, t) == Product(q, t)
  }

  // The register, bit by bit

  /** The register after the bits of `m`. */
  function Shifted(c: Byte, m: seq<bool>): Byte
    decreases |m|
  {
    if m == [] then c else Shifted(ShiftBit(c, if m[0] then 1 else 0), m[1..])
  }

  /** One shift: every bit moves down by one, and where the bit that leaves differs from the bit of
      the message, three bits are changed. */
  lemma ShiftedBit(c: Byte, bit: bool, k: nat)
    requires k < 8
    ensures IsSet(ShiftBit(c, if bit then 1 else 0), k)
         == Plus(k < 7 && IsSet(c, k + 1), Plus(bit, IsSet(c, 0)) && (k == 2 || k == 3 || k == 7))
  {
    match k
    case 0 => case 1 => case 2 => case 3 => case 4 => case 5 => case 6 => case 7 =>
  }

  lemma LowestDecides(c: Byte, x: Byte)
    ensures ShiftBit(c, x) == ShiftBit(c, if IsSet(x, 0) then 1 else 0)
  {
  }

  lemma HalfBits(x: Byte, k: nat)
    requires k < 7
    ensures IsSet(Half(x), k) == IsSet(x, k + 1)
  {
    match k
    case 0 => case 1 => case 2 => case 3 => case 4 => case 5 => case 6 =>
  }

  lemma {:induction false} ShiftBitsShifts(c: Byte, x: Byte, n: nat)
    requires n <= 8
    ensures ShiftBits(c, x, n) == Shifted(c, FirstBits(x, n))
    decreases n
  {
    hide ShiftBit, IsSet, Half;
    if n > 0 {
      var bits := FirstBits(x, n);
      forall k | 0 <= k < n - 1
        ensures bits[1..][k] == FirstBits(Half(x), n - 1)[k]
      {
        HalfBits(x, k);
      }
      assert bits[1..] == FirstBits(Half(x), n - 1);
      LowestDecides(c, x);
      ShiftBitsShifts(ShiftBit(c, x), Half(x), n - 1);
    }
  }

  lemma {:induction false} ShiftedConcat(c: Byte, a: seq<bool>, b: seq<bool>)
    ensures Shifted(c, a + b) == Shifted(Shifted(c, a), b)
    decreases |a|
  {
    hide ShiftBit;
    if a == [] {
      assert a + b == b;
    } else {
      assert (a + b)[1..] == a[1..] + b;
      ShiftedConcat(ShiftBit(c, if a[0] then 1 else 0), a[1..], b);
    }
  }

  lemma {:induction false} CrcShifts(c: Byte, b: seq<Byte>)
    ensures CrcFrom(c, b) == Shifted(c, MessageBits(b))
    decreases |b|
  {
    hide ShiftBit, ShiftBits, Shifted, FirstBits;
    if b == [] {
      ShiftedNone(c);
    } else {
      ShiftBitsShifts(c, b[0], 8);
      ShiftedConcat(c, FirstBits(b[0], 8), MessageBits(b[1..]));
      CrcShifts(ShiftBits(c, b[0], 8), b[1..]);
    }
  }

  lemma ShiftedNone(c: Byte)
    ensures Shifted(c, []) == c
  {
  }

  // Division

  /** One more bit: the quotient grows by the bit that decides about the change. */
  lemma DivideBit(m: seq<bool>, c: Byte, q: seq<bool>, bit: bool)
    requires Divides(m, c, q)
    ensures Divides(m + [bit], ShiftBit(c, if bit then 1 else 0), q + [Plus(bit, IsSet(c, 0))])
  {
    hide IsSet, ShiftBit;
    var n := |m|;
    var m', c', q' := m + [bit], ShiftBit(c, if bit then 1 else 0), q + [Plus(bit, IsSet(c, 0))];
    assert Dividend(m, c, n) == Product(q, n);
    forall t | 0 <= t < n + 9
      ensures Dividend(m', c', t) == Product(q', t)
    {
      if t < n {
        assert Dividend(m, c, t) == Product(q, t);
      } else if t > n {
        var k := t - n - 1;
        ShiftedBit(c, bit, k);
        if k < 7 {
          assert Dividend(m, c, t) == Product(q, t);
        }
      }
    }
  }

  lemma {:induction false} DivideAll(m: seq<bool>, c: Byte, q: seq<bool>, rest: seq<bool>) returns (quotient: seq<bool>)
    requires Divides(m, c, q)
    ensures Divides(m + rest, Shifted(c, rest), quotient)
    decreases |rest|
  {
    hide ShiftBit, Divides;
    if rest == [] {
      assert m + rest == m;
      quotient := q;
    } else {
      DivideBit(m, c, q, rest[0]);
      assert m + rest == (m + [rest[0]]) + rest[1..];
      quotient := DivideAll(m + [rest[0]], ShiftBit(c, if rest[0] then 1 else 0),
                            q + [Plus(rest[0], IsSet(c, 0))], rest[1..]);
    }
  }

  lemma DivideNothing()
    ensures Divides([], 0, [])
  {
    forall t | 0 <= t < 8
      ensures !IsSet(0, t)
    {
    }
  }

  /** There is only one quotient, and so only one remainder. */
  lemma {:induction false} SameQuotient(m: seq<bool>, r: Byte, q: seq<bool>, r': Byte, q': seq<bool>, t: nat)
    requires Divides(m, r, q) && Divides(m, r', q') && t <= |m|
    ensures q[..t] == q'[..t]
  {
    hide IsSet;
    if t > 0 {
      SameQuotient(m, r, q, r', q', t - 1);
      var i := t - 1;
      assert forall k :: 0 <= k < i ==> q[..i][k] == q[k] && q'[..i][k] == q'[k];
      assert Dividend(m, r, i) == Product(q, i) && Dividend(m, r', i) == Product(q', i);
      assert q[..t] == q[..i] + [q[i]] && q'[..t] == q'[..i] + [q'[i]];
    }
  }

  lemma SameRemainderBits(m: seq<bool>, r: Byte, r': Byte, q: seq<bool>)
    requires Divides(m, r, q) && Divides(m, r', q)
    ensures r == r'
  {
    hide Product;
    forall s | 0 <= s < 8
      ensures (r & Bit(s) != 0) == (r' & Bit(s) != 0)
    {
      assert Dividend(m, r, |m| + s) == Product(q, |m| + s);
      assert Dividend(m, r', |m| + s) == Product(q, |m| + s);
    }
    hide Bit;
    SameByte(r, r');
  }

  /** The CRC of a message is the remainder of its bits, and nothing else is. */
  lemma CrcIsRemainder(b: seq<Byte>, r: Byte)
    ensures (exists q :: Divides(MessageBits(b), r, q)) <==> r == Crc(b)
  {
    hide Divides, Shifted, MessageBits;
    var m := MessageBits(b);
    DivideNothing();
    var quotient := DivideAll([], 0, [], m);
    assert [] + m == m;
    CrcShifts(0, b);
    if q :| Divides(m, r, q) {
      Lengths(m, r, q);
      Lengths(m, Crc(b), quotient);
      SameQuotient(m, r, q, Crc(b), quotient, |m|);
      assert q == q[..|m|] && quotient == quotient[..|m|];
      SameRemainderBits(m, r, Crc(b), q);
    }
  }

  lemma Lengths(m: seq<bool>, r: Byte, q: seq<bool>)
    requires Divides(m, r, q)
    ensures |q| == |m|
  {
  }

  /** A code that is known to be valid. */
  lemma KnownCode()
    ensures Crc([0x02, 0x1C, 0xB8, 0x01, 0x00, 0x00, 0x00, 0xA2]) == 0
  {
    assert ShiftBits(0x00, 0x02, 8) == 0xBC by { ByteStep(0x00, 0x02); }
    assert ShiftBits(0xBC, 0x1C, 8) == 0xAF by { ByteStep(0xBC, 0x1C); }
    assert ShiftBits(0xAF, 0xB8, 8) == 0x1E by { ByteStep(0xAF, 0xB8); }
    assert ShiftBits(0x1E, 0x01, 8) == 0xDC by { ByteStep(0x1E, 0x01); }
    assert ShiftBits(0xDC, 0x00, 8) == 0xF4 by { ByteStep(0xDC, 0x00); }
    assert ShiftBits(0xF4, 0x00, 8) == 0x15 by { ByteStep(0xF4, 0x00); }
    assert ShiftBits(0x15, 0x00, 8) == 0xA2 by { ByteStep(0x15, 0x00); }
    assert ShiftBits(0xA2, 0xA2, 8) == 0x00 by { ByteStep(0xA2, 0xA2); }
  }
}
