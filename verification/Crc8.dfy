/** The 8-bit cyclic redundancy check of the 1-Wire bus, `crc_check` in
    pxbee/drivers/1-wire/one_wire.c: bits are taken least significant first and the feedback
    constant is 0b10001100. */
module Crc8 {
  import opened Bits

  const FEEDBACK: Byte := 0x8C

  /** The register after the bit in the least significant position of `data` is shifted in. */
  function ShiftBit(crc: Byte, data: Byte): Byte {
    if (data ^ crc) & 1 != 0 then (crc >> 1) ^ FEEDBACK else crc >> 1
  }

  function Half(x: Byte): Byte { x >> 1 }

  /** The register after the `n` lowest bits of `data`. */
  function ShiftBits(crc: Byte, data: Byte, n: nat): Byte
    decreases n
  {
    if n == 0 then crc else ShiftBits(ShiftBit(crc, data), Half(data), n - 1)
  }

  /** The register after all the bytes of `b`, from the register value `crc`. */
  function CrcFrom(crc: Byte, b: seq<Byte>): Byte
    decreases |b|
  {
    if b == [] then crc else CrcFrom(ShiftBits(crc, b[0], 8), b[1..])
  }

  function Crc(b: seq<Byte>): Byte { CrcFrom(0, b) }

  method CrcCheck(buffer: array<Byte>, start: nat, len: nat) returns (crc: Byte)
    requires start + len <= buffer.Length && len < 256
    ensures crc == Crc(buffer[start..start + len])
  {
    var i := 0;
    crc := 0;
    ghost var b := buffer[start..start + len];
    while i < len
      invariant i <= len
      invariant CrcFrom(crc, b[i..]) == Crc(b)
    {
      var byte := buffer[start + i];
      i := i + 1;
      ghost var before := crc;
      var bit := 0;
      while bit < 8
        invariant bit <= 8
        invariant ShiftBits(crc, byte, 8 - bit) == ShiftBits(before, b[i - 1], 8)
      {
        var xor := (byte ^ crc) & 1;
        byte := byte >> 1;
        crc := crc >> 1;
        if xor != 0 {
          crc := crc ^ FEEDBACK;
        }
        bit := bit + 1;
      }
      assert b[i - 1..][1..] == b[i..];
    }
    assert b[len..] == [];
  }

  // Linear algebra over bits

  /** Addition of bit vectors. */
  function Add(x: Byte, y: Byte): Byte { x ^ y }

  function Xor(a: seq<Byte>, b: seq<Byte>): (r: seq<Byte>)
    requires |a| == |b|
    ensures |r| == |a|
  {
    seq(|a|, i requires 0 <= i < |a| => Add(a[i], b[i]))
  }

  /** The feedback that the lowest bit of `v` selects. */
  function Gate(v: Byte): Byte { if v & 1 != 0 then FEEDBACK else 0 }

  lemma ShiftBitGate(c: Byte, x: Byte)
    ensures ShiftBit(c, x) == Add(Half(c), Gate(Add(x, c)))
  {
  }

  lemma GateLinear(u: Byte, v: Byte)
    ensures Gate(Add(u, v)) == Add(Gate(u), Gate(v))
  {
  }

  lemma HalfLinear(x: Byte, y: Byte)
    ensures Half(Add(x, y)) == Add(Half(x), Half(y))
  {
  }

  lemma AddSwap(p: Byte, q: Byte, r: Byte, s: Byte)
    ensures Add(Add(p, q), Add(r, s)) == Add(Add(p, r), Add(q, s))
  {
    hide Add;
    AddAssociative(p, q, Add(r, s));
    AddAssociative(q, r, s);
    AddCommutative(q, r);
    AddAssociative(r, q, s);
    AddAssociative(p, r, Add(q, s));
  }

  lemma AddAssociative(p: Byte, q: Byte, r: Byte)
    ensures Add(Add(p, q), r) == Add(p, Add(q, r))
  {
  }

  lemma AddCommutative(p: Byte, q: Byte)
    ensures Add(p, q) == Add(q, p)
  {
  }

  lemma ShiftBitLinear(c: Byte, d: Byte, x: Byte, y: Byte)
    ensures ShiftBit(Add(c, d), Add(x, y)) == Add(ShiftBit(c, x), ShiftBit(d, y))
    ensures Half(Add(x, y)) == Add(Half(x), Half(y))
  {
    hide ShiftBit, Add, Half, Gate;
    ShiftBitGate(c, x);
    ShiftBitGate(d, y);
    ShiftBitGate(Add(c, d), Add(x, y));
    AddSwap(x, y, c, d);
    GateLinear(Add(x, c), Add(y, d));
    HalfLinear(c, d);
    HalfLinear(x, y);
    AddSwap(Half(c), Half(d), Gate(Add(x, c)), Gate(Add(y, d)));
  }

  lemma {:induction false} ShiftBitsLinear(c: Byte, d: Byte, x: Byte, y: Byte, n: nat)
    ensures ShiftBits(Add(c, d), Add(x, y), n) == Add(ShiftBits(c, x, n), ShiftBits(d, y, n))
    decreases n
  {
    hide ShiftBit, Add, Half;
    if n > 0 {
      ShiftBitLinear(c, d, x, y);
      ShiftBitsLinear(ShiftBit(c, x), ShiftBit(d, y), Half(x), Half(y), n - 1);
    }
  }

  lemma {:induction false} CrcFromLinear(c: Byte, d: Byte, a: seq<Byte>, b: seq<Byte>)
    requires |a| == |b|
    ensures CrcFrom(Add(c, d), Xor(a, b)) == Add(CrcFrom(c, a), CrcFrom(d, b))
    decreases |a|
  {
    hide ShiftBits, Add;
    if a != [] {
      ShiftBitsLinear(c, d, a[0], b[0], 8);
      assert Xor(a, b)[1..] == Xor(a[1..], b[1..]);
      CrcFromLinear(ShiftBits(c, a[0], 8), ShiftBits(d, b[0], 8), a[1..], b[1..]);
    }
  }

  /** The check value of a sum is the sum of the check values. */
  lemma CrcLinear(a: seq<Byte>, b: seq<Byte>)
    requires |a| == |b|
    ensures Crc(Xor(a, b)) == Add(Crc(a), Crc(b))
  {
    CrcFromLinear(0, 0, a, b);
  }

  lemma {:induction false} CrcFromConcat(c: Byte, a: seq<Byte>, b: seq<Byte>)
    ensures CrcFrom(c, a + b) == CrcFrom(CrcFrom(c, a), b)
    decreases |a|
  {
    if a == [] {
      assert a + b == b;
    } else {
      assert (a + b)[1..] == a[1..] + b;
      CrcFromConcat(ShiftBits(c, a[0], 8), a[1..], b);
    }
  }

  /** Eight shifts written out: the register depends on the sum of register and byte only. */
  function Feed(v: Byte): Byte {
    var s1 := ShiftBit(v, 0);
    var s2 := ShiftBit(s1, 0);
    var s3 := ShiftBit(s2, 0);
    var s4 := ShiftBit(s3, 0);
    var s5 := ShiftBit(s4, 0);
    var s6 := ShiftBit(s5, 0);
    var s7 := ShiftBit(s6, 0);
    ShiftBit(s7, 0)
  }

  lemma ShiftBitMerged(c: Byte, x: Byte)
    ensures Add(ShiftBit(c, x), Half(x)) == ShiftBit(Add(c, x), 0)
    ensures Half(0) == 0
  {
  }

  lemma {:induction false} ShiftBitsMerged(c: Byte, x: Byte, n: nat)
    ensures Add(ShiftBits(c, x, n), Drop(x, n)) == ShiftBits(Add(c, x), 0, n)
    decreases n
  {
    hide ShiftBit, Add, Half;
    if n > 0 {
      ShiftBitMerged(c, x);
      ShiftBitsMerged(ShiftBit(c, x), Half(x), n - 1);
    }
  }

  function Drop(x: Byte, n: nat): Byte
    decreases n
  {
    if n == 0 then x else Drop(Half(x), n - 1)
  }

  lemma DropAll(x: Byte)
    ensures Drop(x, 8) == 0
  {
    hide Half;
    var x4 := Half(Half(Half(Half(x))));
    assert Drop(x, 8) == Drop(Half(x), 7) == Drop(Half(Half(x)), 6) == Drop(Half(Half(Half(x))), 5) == Drop(x4, 4);
    var x8 := Half(Half(Half(Half(x4))));
    assert Drop(x4, 4) == Drop(Half(x4), 3) == Drop(Half(Half(x4)), 2) == Drop(Half(Half(Half(x4))), 1) == x8;
    EightHalves(x);
  }

  lemma EightHalves(x: Byte)
    ensures Half(Half(Half(Half(Half(Half(Half(Half(x)))))))) == 0
  {
  }

  lemma ShiftEight(v: Byte)
    ensures ShiftBits(v, 0, 8) == Feed(v)
  {
    hide ShiftBit, Half;
    assert Half(0) == 0 by { ShiftBitMerged(0, 0); }
    var s1 := ShiftBit(v, 0);
    var s2 := ShiftBit(s1, 0);
    var s3 := ShiftBit(s2, 0);
    var s4 := ShiftBit(s3, 0);
    assert ShiftBits(v, 0, 8) == ShiftBits(s1, 0, 7) == ShiftBits(s2, 0, 6)
        == ShiftBits(s3, 0, 5) == ShiftBits(s4, 0, 4);
    var s5 := ShiftBit(s4, 0);
    var s6 := ShiftBit(s5, 0);
    var s7 := ShiftBit(s6, 0);
    assert ShiftBits(s4, 0, 4) == ShiftBits(s5, 0, 3) == ShiftBits(s6, 0, 2) == ShiftBits(s7, 0, 1);
    assert ShiftBits(s7, 0, 1) == ShiftBit(s7, 0);
  }

  lemma ByteStep(c: Byte, x: Byte)
    ensures ShiftBits(c, x, 8) == Feed(Add(c, x))
  {
    hide ShiftBits, Drop, Feed;
    ShiftBitsMerged(c, x, 8);
    DropAll(x);
    ShiftEight(Add(c, x));
  }

  /** Feeding a byte loses nothing. */
  lemma FeedInjective(v: Byte)
    ensures Feed(v) == 0 <==> v == 0
  {
  }

  /** A buffer with its check value appended checks to zero. */
  lemma SealedBufferChecks(b: seq<Byte>)
    ensures Crc(b + [Crc(b)]) == 0
  {
    CrcFromConcat(0, b, [Crc(b)]);
    ByteStep(Crc(b), Crc(b));
    FeedInjective(0);
  }

  /** Changing a valid buffer goes unnoticed exactly when the change itself checks to zero. */
  lemma ErrorCheck(b: seq<Byte>, e: seq<Byte>)
    requires |b| == |e| && Crc(b) == 0
    ensures Crc(Xor(b, e)) == Crc(e)
  {
    CrcLinear(b, e);
  }

  lemma {:induction false} ZerosKeep(c: Byte, e: seq<Byte>)
    requires forall i :: 0 <= i < |e| ==> e[i] == 0
    ensures CrcFrom(c, e) == 0 <==> c == 0
    decreases |e|
  {
    if e != [] {
      ByteStep(c, 0);
      AddZero(c);
      FeedInjective(c);
      ZerosKeep(Feed(c), e[1..]);
    }
  }

  /** `e` is not zero, and the bits set in it lie among eight consecutive ones, in the order in
      which they are sent: from bit `s` of byte `i` to bit `s - 1` of byte `i + 1`. */
  predicate Burst(e: seq<Byte>, i: nat, s: nat) {
    && i < |e| && s < 8
    && (forall j :: 0 <= j < |e| && j != i && j != i + 1 ==> e[j] == 0)
    && e[i] & LowBits(s) == 0
    && (i + 1 < |e| ==> e[i + 1] & !LowBits(s) == 0)
    && (e[i] != 0 || (i + 1 < |e| && e[i + 1] != 0))
  }

  lemma BurstPair(x: Byte, y: Byte, s: nat)
    requires s < 8 && x & LowBits(s) == 0 && y & !LowBits(s) == 0
    requires x != 0 || y != 0
    ensures Add(Feed(x), y) != 0
  {
    match s
    case 0 => FeedInjective(x);
    case 1 => case 2 => case 3 => case 4 => case 5 => case 6 => case 7 =>
  }

  lemma AddZero(x: Byte)
    ensures Add(0, x) == x && Add(x, 0) == x
  {
  }

  lemma CrcFromNone(c: Byte)
    ensures CrcFrom(c, []) == c
  {
  }

  lemma CrcFromHead(c: Byte, b: seq<Byte>)
    requires b != []
    ensures CrcFrom(c, b) == CrcFrom(ShiftBits(c, b[0], 8), b[1..])
  {
    hide ShiftBits;
  }

  lemma BurstChecksNonzero(e: seq<Byte>, i: nat, s: nat)
    requires Burst(e, i, s)
    ensures Crc(e) != 0
  {
    hide Feed, ShiftBits, CrcFrom, LowBits, Add;
    ZerosKeep(0, e[..i]);
    assert e == e[..i] + e[i..];
    CrcFromHead(0, e[i..]);
    CrcFromConcat(0, e[..i], e[i..]);
    ByteStep(0, e[i]);
    assert Add(0, e[i]) == e[i] by { AddZero(e[i]); }
    if i + 1 == |e| {
      CrcFromNone(Feed(e[i]));
      assert e[i..][1..] == [];
      FeedInjective(e[i]);
    } else {
      BurstPair(e[i], e[i + 1], s);
      ByteStep(Feed(e[i]), e[i + 1]);
      assert e[i..][1..] == e[i + 1..];
      CrcFromHead(Feed(e[i]), e[i + 1..]);
      assert e[i + 1..][1..] == e[i + 2..];
      FeedInjective(Add(Feed(e[i]), e[i + 1]));
      ZerosKeep(Feed(Add(Feed(e[i]), e[i + 1])), e[i + 2..]);
    }
  }

  /** Every burst of up to eight bits in a valid buffer, of whatever length, is noticed. */
  lemma BurstIsDetected(b: seq<Byte>, e: seq<Byte>, i: nat, s: nat)
    requires |b| == |e| && Crc(b) == 0 && Burst(e, i, s)
    ensures Crc(Xor(b, e)) != 0
  {
    ErrorCheck(b, e);
    BurstChecksNonzero(e, i, s);
  }

  lemma BitFacts(s: nat)
    requires s < 8
    ensures Bit(s) & LowBits(s) == 0 && Bit(s) != 0 && 0 & !LowBits(s) == 0
  {
  }

  /** So is every single wrong bit. */
  lemma SingleBitIsDetected(b: seq<Byte>, i: nat, s: nat)
    requires i < |b| && s < 8 && Crc(b) == 0
    ensures Crc(b[i := Add(b[i], Bit(s))]) != 0
  {
    hide Crc, LowBits, Bit, Add;
    var e := seq(|b|, j requires 0 <= j < |b| => if j == i then Bit(s) else 0);
    BitFacts(s);
    BurstIsDetected(b, e, i, s);
    var l, r := Xor(b, e), b[i := Add(b[i], Bit(s))];
    forall j | 0 <= j < |b|
      ensures l[j] == r[j]
    {
      AddZero(b[j]);
    }
    assert l == r;
  }
}
