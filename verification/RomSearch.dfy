/** The ROM search, `one_wire_search` in pxbee/drivers/1-wire/one_wire.c. Passes over the bus
    are repeated with the path left by the one before; codes whose check value is wrong are
    overwritten by the next. */
module RomSearch {
  import opened Bits
  import opened Crc8
  import opened RomTrie
  import opened OneWireBus
  import opened Words

  /** The devices whose code checks. */
  function ValidCodes(d: set<Rom>): set<Rom>
  {
    set c | c in d && Crc(c) == 0
  }

  function ValidBefore(d: set<Rom>, c: Rom): (v: set<Rom>)
    requires Codes(d) && |c| == CODE_BYTES
    ensures v <= ValidCodes(d)
  {
    set v | v in d && Crc(v) == 0 && Less(v, c)
  }

  /** The codes stored one after the other in a buffer. */
  function Rows(buf: seq<Byte>, n: nat): (rows: seq<Rom>)
    requires CODE_BYTES * n <= |buf|
    ensures |rows| == n
  {
    seq(n, q requires 0 <= q < n => buf[CODE_BYTES * q..CODE_BYTES * q + CODE_BYTES])
  }

  function Counted(c: Rom): nat { if Crc(c) == 0 then 1 else 0 }

  // Codes behind more than eight forks

  /** The search path has no marker left for the last fork on the way to the code. */
  ghost predicate Deep(d: set<Rom>, c: Rom)
    requires Codes(d) && |c| == CODE_BYTES
  {
    Forks(d, c, 0) > 8
  }

  ghost predicate NoDeepBefore(d: set<Rom>, c: Rom)
    requires Codes(d) && |c| == CODE_BYTES
  {
    forall e :: e in d && Less(e, c) ==> !Deep(d, e)
  }

  ghost predicate FirstDeep(d: set<Rom>, c: Rom)
    requires Codes(d)
  {
    c in d && Deep(d, c) && NoDeepBefore(d, c)
  }

  /** The search comes to this code before it has found enough, and does not get past it. */
  ghost predicate Sticks(d: set<Rom>, c: Rom, len: nat)
    requires Codes(d)
  {
    FirstDeep(d, c) && !(len <= 31 && len <= |ValidBefore(d, c)| + Counted(c))
  }

  /** The search ends: at a code at which it sticks it stops if that is the very first; otherwise it
      ends if it has found enough before, or finds enough by counting that code again and again. */
  ghost predicate SearchEnds(d: set<Rom>, len: nat)
    requires Codes(d)
  {
    forall c :: FirstDeep(d, c) ==>
      IsFirst(d, c, 0) || (len <= 31 && (Crc(c) == 0 || len <= |ValidBefore(d, c)|))
  }

  /** `out` lists valid codes of `d`, in order and each once, and none that is not listed
      comes before one that is. */
  predicate FirstCodes(d: set<Rom>, out: seq<Rom>)
    requires Codes(d)
  {
    && (forall v :: v in out ==> v in ValidCodes(d))
    && Sorted(out)
    && (forall v, w :: v in ValidCodes(d) && v !in out && w in out ==> Less(w, v))
  }

  predicate Sorted(out: seq<Rom>) {
    && (forall v :: v in out ==> |v| == CODE_BYTES)
    && (forall i, k :: 0 <= i < k < |out| ==> Less(out[i], out[k]))
  }

  /** The buffer index, one byte wide, does not overflow: at most 31 codes are wanted, or no
      device has 32 valid codes in front of it. (When it does overflow, the next code is
      written over the first.) */
  predicate IndexFits(d: set<Rom>, len: nat)
    requires Codes(d)
  {
    len <= 31 || forall c :: c in d ==> |ValidBefore(d, c)| <= 31
  }

  /** The `s` lowest bits of `x`. */
  function Partial(x: Byte, s: nat): Byte
    requires s <= 8
  {
    x & LowBits(s)
  }

  lemma ByteGrows(x: Byte, s: nat, byte: Byte, mask: Byte, bit: bool)
    requires s < 8 && bit == (x & Bit(s) != 0) && byte == Partial(x, s) && mask == Bit(s)
    ensures (if bit then byte | mask else byte) == Partial(x, s + 1)
  {
    hide Bit, LowBits;
    OneBitMask(x, s);
    assert LowBits(s + 1) == LowBits(s) | Bit(s) by { MoreBits(s); }
    MaskGrows(x, LowBits(s), Bit(s));
  }

  lemma MoreBits(s: nat)
    requires s < 8
    ensures LowBits(s + 1) == LowBits(s) | Bit(s)
  {
  }

  lemma MaskGrows(x: Byte, low: Byte, m: Byte)
    requires AllOrNone(x, m)
    ensures (if x & m != 0 then (x & low) | m else x & low) == x & (low | m)
  {
  }

  lemma Decision(path: Byte, b: nat, pos: Byte)
    requires pos == Marker(b)
    ensures (pos & path != 0) == GoesRight(path, b)
    ensures (path & (pos - 1)) | pos == TurnRight(path, b)
    ensures pos << 1 == Marker(b + 1)
  {
    assert pos - 1 == Before(b) && pos << 1 == Marker(b + 1) by { MarkerFacts(b); }
    hide Marker, Before;
  }

  lemma TurnMeans(a: set<Rom>, j: nat, b: nat, path: Byte)
    requires Codes(a) && j < CODE_BITS
    ensures Turn(a, j, b, path) == if Forked(a, j) then GoesRight(path, b) else Side(a, j, true) != {}
  {
  }

  /** Reads one bit and its complement and decides which way to go. */
  method ChooseBit(bus: Bus, pos: Byte, path: Byte, next: Byte, ghost b: nat)
    returns (collision: bool, bit: bool, pos': Byte, next': Byte)
    requires bus.Valid() && bus.searching && bus.index < CODE_BITS && bus.phase == 0 && bus.active != {}
    requires pos == Marker(b)
    modifies bus
    ensures bus.Valid() && bus.searching && bus.index == old(bus.index) && bus.phase == 2
    ensures bus.active == old(bus.active)
    ensures !collision
    ensures bit == Turn(bus.active, bus.index, b, path)
    ensures if Forked(bus.active, bus.index)
            then pos' == Marker(b + 1) && next' == (if GoesRight(path, b) then next else TurnRight(path, b))
            else pos' == pos && next' == next
  {
    hide CodeBit, Marker, GoesRight, TurnRight, Forked, Side, Turn;
    pos', next' := pos, next;
    collision := false;
    bit := bus.ReadBit();
    var chk := bus.ReadBit();
    ReadsTellForks(bus.active, bus.index);
    TurnMeans(bus.active, bus.index, b, path);
    Decision(path, b, pos);
    if bit && chk {
      return true, bit, pos', next';
    }
    if !bit && !chk {
      if pos & path != 0 {
        bit := true;
      } else {
        next' := (path & (pos - 1)) | pos;
      }
      pos' := pos << 1;
    }
  }

  /** The bytes before bit `count` hold the code that all of `a` have in common, and `byte` holds
      the bits of the byte that is not complete yet. */
  ghost predicate Assembled(buf: seq<Byte>, base: nat, a: set<Rom>, count: nat, byte: Byte)
    requires Codes(a) && base + CODE_BYTES <= |buf| && count <= CODE_BITS
  {
    forall c :: c in a ==>
      && (forall q :: 0 <= q < count / 8 ==> buf[base + q] == c[q])
      && (count < CODE_BITS ==> byte == Partial(c[count / 8], count % 8))
  }

  /** Adds a bit to the byte being assembled, and stores the byte when it is complete. */
  method StoreBit(rombuf: array<Byte>, i: nat, byte: Byte, mask: Byte, bit: bool,
                  ghost base: nat, ghost a: set<Rom>, ghost count: nat)
    returns (i': nat, byte': Byte, mask': Byte)
    requires Codes(a) && count < CODE_BITS && base + CODE_BYTES <= rombuf.Length && base <= 248
    requires i == base + count / 8 && mask == Bit(count % 8)
    requires Assembled(rombuf[..], base, a, count, byte)
    requires forall c :: c in a ==> CodeBit(c, count) == bit
    modifies rombuf
    ensures i' == (base + (count + 1) / 8) % 256
    ensures mask' == Bit((count + 1) % 8)
    ensures Assembled(rombuf[..], base, a, count + 1, byte')
    ensures rombuf[..base] == old(rombuf[..base])
  {
    hide CodeBit, Bit, Partial, Assembled;
    i', byte', mask' := i, byte, mask;
    MaskFacts(count % 8);
    ByteGrown(rombuf[..], base, a, count, byte, mask, bit);
    if bit {
      byte' := byte' | mask';
    }
    mask' := mask' << 1;
    if mask' == 0 {
      ghost var full := byte';
      rombuf[i'] := byte';
      i' := (i' + 1) % 256;
      byte' := 0;
      mask' := 1;
      assert rombuf[..] == old(rombuf[..])[base + count / 8 := full];
      ByteComplete(old(rombuf[..]), rombuf[..], base, a, count, byte, full);
    } else {
      ByteIncomplete(rombuf[..], base, a, count, byte, byte');
    }
  }

  lemma ByteGrown(buf: seq<Byte>, base: nat, a: set<Rom>, count: nat, byte: Byte, mask: Byte, bit: bool)
    requires Codes(a) && count < CODE_BITS && base + CODE_BYTES <= |buf| && mask == Bit(count % 8)
    requires Assembled(buf, base, a, count, byte)
    requires forall c :: c in a ==> CodeBit(c, count) == bit
    ensures forall c :: c in a ==> (if bit then byte | mask else byte) == Partial(c[count / 8], count % 8 + 1)
  {
    hide CodeBit, Bit, Partial;
    forall c | c in a
      ensures (if bit then byte | mask else byte) == Partial(c[count / 8], count % 8 + 1)
    {
      CodeBitMeans(c, count);
      ByteGrows(c[count / 8], count % 8, byte, mask, bit);
    }
  }

  lemma ByteIncomplete(buf: seq<Byte>, base: nat, a: set<Rom>, count: nat, byte: Byte, grown: Byte)
    requires Codes(a) && count < CODE_BITS && count % 8 < 7 && base + CODE_BYTES <= |buf|
    requires Assembled(buf, base, a, count, byte)
    requires forall c :: c in a ==> grown == Partial(c[count / 8], count % 8 + 1)
    ensures Assembled(buf, base, a, count + 1, grown)
  {
    hide Partial;
    assert (count + 1) / 8 == count / 8 && (count + 1) % 8 == count % 8 + 1;
  }

  lemma ByteComplete(before: seq<Byte>, after: seq<Byte>, base: nat, a: set<Rom>, count: nat, byte: Byte, full: Byte)
    requires Codes(a) && count < CODE_BITS && count % 8 == 7 && base + CODE_BYTES <= |before|
    requires Assembled(before, base, a, count, byte)
    requires after == before[base + count / 8 := full]
    requires forall c :: c in a ==> full == Partial(c[count / 8], 8)
    ensures Assembled(after, base, a, count + 1, 0)
  {
    hide Partial;
    forall c | c in a
      ensures (forall q :: 0 <= q < (count + 1) / 8 ==> after[base + q] == c[q])
      ensures count + 1 < CODE_BITS ==> 0 == Partial(c[(count + 1) / 8], 0)
    {
      AllBits(c[count / 8]);
      if count + 1 < CODE_BITS {
        AllBits(c[(count + 1) / 8]);
      }
    }
  }

  /** Where a pass is after `count` bits, with the devices `a` still taking part: it is on its way
      to the code and the next path that the path decides, and has stored what it has seen. */
  ghost predicate Passing(d: set<Rom>, path: Byte, a: set<Rom>, count: nat, b: nat, next: Byte,
                          buf: seq<Byte>, base: nat, byte: Byte)
  {
    && Codes(d) && d != {} && Codes(a) && a != {} && count <= CODE_BITS && Agree(a, count)
    && End(a, count, b, path) == End(d, 0, 0, path)
    && NextPath(a, count, b, path, next) == NextPath(d, 0, 0, path, 0)
    && base + CODE_BYTES <= |buf| && Assembled(buf, base, a, count, byte)
  }

  lemma PassBegins(d: set<Rom>, path: Byte, buf: seq<Byte>, base: nat)
    requires Codes(d) && d != {} && base + CODE_BYTES <= |buf|
    ensures Passing(d, path, d, 0, 0, 0, buf, base, 0)
  {
    hide Agree, Assembled, End, NextPath;
    AgreeFromTheStart(d);
    NothingAssembled(buf, base, d);
  }

  lemma PassingMeans(d: set<Rom>, path: Byte, a: set<Rom>, count: nat, b: nat, next: Byte, buf: seq<Byte>, base: nat,
                     byte: Byte)
    requires Passing(d, path, a, count, b, next, buf, base, byte)
    ensures Codes(d) && d != {} && Codes(a) && a != {} && count <= CODE_BITS
    ensures base + CODE_BYTES <= |buf| && Assembled(buf, base, a, count, byte)
  {
  }

  /** The bit sent keeps the pass on its way. */
  lemma PassTurns(d: set<Rom>, path: Byte, a: set<Rom>, count: nat, b: nat, next: Byte, buf: seq<Byte>, base: nat,
                  byte: Byte)
    requires Passing(d, path, a, count, b, next, buf, base, byte) && count < CODE_BITS
    ensures var v := Turn(a, count, b, path);
            var side := Side(a, count, v);
            var b' := if Forked(a, count) then b + 1 else b;
            var next' := if Forked(a, count) && !GoesRight(path, b) then TurnRight(path, b) else next;
            && side != {} && Agree(side, count + 1)
            && End(side, count + 1, b', path) == End(d, 0, 0, path)
            && NextPath(side, count + 1, b', path, next') == NextPath(d, 0, 0, path, 0)
            && Assembled(buf, base, side, count, byte)
            && forall c :: c in side ==> CodeBit(c, count) == v
  {
    hide CodeBit, GoesRight, TurnRight, Assembled, Agree, Turn, End, NextPath;
    SideNonempty(a, count, b, path);
    AgreeSide(a, count, Turn(a, count, b, path));
    PassUnfolds(a, count, b, path, next);
    AssembledSide(buf, base, a, count, byte, Turn(a, count, b, path));
  }

  lemma PassEnded(d: set<Rom>, path: Byte, a: set<Rom>, b: nat, next: Byte, buf: seq<Byte>, base: nat, byte: Byte)
    requires Passing(d, path, a, CODE_BITS, b, next, buf, base, byte)
    ensures Codes(d) && d != {} && base + CODE_BYTES <= |buf|
    ensures next == NextPath(d, 0, 0, path, 0) && buf[base..base + CODE_BYTES] == End(d, 0, 0, path)
  {
    hide Agree, Assembled, End, NextPath;
    AssembledCode(buf, base, a, byte);
    PassEnds(a, b, path, next);
  }

  /** One bit of a pass: two reads, a write, and the bit stored. */
  method SearchBit(bus: Bus, rombuf: array<Byte>, path: Byte, pos: Byte, next: Byte, i: nat, byte: Byte, mask: Byte,
                   ghost d: set<Rom>, ghost base: nat, ghost b: nat)
    returns (collision: bool, pos': Byte, next': Byte, i': nat, byte': Byte, mask': Byte, ghost b': nat)
    requires bus.Valid() && bus.searching && bus.index < CODE_BITS && bus.phase == 0 && base <= 248
    requires pos == Marker(b) && mask == Bit(bus.index % 8) && i == (base + bus.index / 8) % 256
    requires Passing(d, path, bus.active, bus.index, b, next, rombuf[..], base, byte)
    modifies bus, rombuf
    ensures !collision && bus.Valid() && bus.searching && bus.index == old(bus.index) + 1 && bus.phase == 0
    ensures pos' == Marker(b') && mask' == Bit(bus.index % 8) && i' == (base + bus.index / 8) % 256
    ensures Passing(d, path, bus.active, bus.index, b', next', rombuf[..], base, byte')
    ensures rombuf[..base] == old(rombuf[..base])
  {
    hide CodeBit, GoesRight, TurnRight, Forked, Bit, Marker, Assembled, Turn, Side, Agree, End, NextPath, Passing;
    ghost var a, count := bus.active, bus.index;
    PassingMeans(d, path, a, count, b, next, rombuf[..], base, byte);
    PassTurns(d, path, a, count, b, next, rombuf[..], base, byte);
    i', byte', mask' := i, byte, mask;
    b' := if Forked(a, count) then b + 1 else b;
    var bit: bool;
    collision, bit, pos', next' := ChooseBit(bus, pos, path, next, b);
    if collision {
      return;
    }
    bus.WriteBit(bit);
    i', byte', mask' := StoreBit(rombuf, i, byte, mask, bit, base, bus.active, count);
    PassingAgain(d, path, bus.active, bus.index, b', next', rombuf[..], base, byte');
  }

  lemma PassingAgain(d: set<Rom>, path: Byte, a: set<Rom>, count: nat, b: nat, next: Byte, buf: seq<Byte>, base: nat,
                     byte: Byte)
    requires Codes(d) && d != {} && Codes(a) && a != {} && count <= CODE_BITS && Agree(a, count)
    requires End(a, count, b, path) == End(d, 0, 0, path)
    requires NextPath(a, count, b, path, next) == NextPath(d, 0, 0, path, 0)
    requires base + CODE_BYTES <= |buf| && Assembled(buf, base, a, count, byte)
    ensures Passing(d, path, a, count, b, next, buf, base, byte)
  {
  }

  /** One pass: 64 times two reads and a write. */
  method SearchPass(bus: Bus, rombuf: array<Byte>, base: nat, path: Byte)
    returns (collision: bool, next: Byte, i: nat)
    requires bus.Valid() && bus.searching && bus.active == bus.devices && bus.index == 0 && bus.phase == 0
    requires bus.devices != {}
    requires base + CODE_BYTES <= rombuf.Length && base <= 248
    modifies bus, rombuf
    ensures bus.Valid() && !collision
    ensures next == NextPath(bus.devices, 0, 0, path, 0)
    ensures rombuf[base..base + CODE_BYTES] == End(bus.devices, 0, 0, path)
    ensures rombuf[..base] == old(rombuf[..base])
    ensures i == (base + CODE_BYTES) % 256
  {
    hide Bit, Marker, Passing, End, NextPath;
    ghost var d, b := bus.devices, 0;
    next, i, collision := 0, base, false;
    var pos, count, byte, mask := 1, 0, 0, 1;
    FirstMarker();
    PassBegins(d, path, rombuf[..], base);
    while count < CODE_BITS
      invariant count <= CODE_BITS && bus.Valid() && bus.searching && bus.index == count && bus.phase == 0
      invariant pos == Marker(b) && mask == Bit(count % 8) && i == (base + count / 8) % 256
      invariant Passing(d, path, bus.active, count, b, next, rombuf[..], base, byte)
      invariant rombuf[..base] == old(rombuf[..base]) && !collision
    {
      collision, pos, next, i, byte, mask, b := SearchBit(bus, rombuf, path, pos, next, i, byte, mask, d, base, b);
      if collision {
        return;
      }
      count := count + 1;
    }
    PassEnded(d, path, bus.active, b, next, rombuf[..], base, byte);
  }

  lemma PassUnfolds(a: set<Rom>, j: nat, b: nat, path: Byte, next: Byte)
    requires Codes(a) && a != {} && j < CODE_BITS && Side(a, j, Turn(a, j, b, path)) != {}
    ensures var side := Side(a, j, Turn(a, j, b, path));
            var b' := if Forked(a, j) then b + 1 else b;
            && End(a, j, b, path) == End(side, j + 1, b', path)
            && NextPath(a, j, b, path, next) == NextPath(side, j + 1, b', path,
                 if Forked(a, j) && !GoesRight(path, b) then TurnRight(path, b) else next)
  {
  }

  lemma PassEnds(a: set<Rom>, b: nat, path: Byte, next: Byte)
    requires Codes(a) && a != {}
    ensures End(a, CODE_BITS, b, path) in a && NextPath(a, CODE_BITS, b, path, next) == next
  {
  }

  lemma NothingAssembled(buf: seq<Byte>, base: nat, a: set<Rom>)
    requires Codes(a) && base + CODE_BYTES <= |buf|
    ensures Assembled(buf, base, a, 0, 0)
  {
    forall c | c in a
      ensures 0 == Partial(c[0], 0)
    {
    }
  }

  lemma AssembledSide(buf: seq<Byte>, base: nat, a: set<Rom>, count: nat, byte: Byte, bit: bool)
    requires Codes(a) && base + CODE_BYTES <= |buf| && count < CODE_BITS && Assembled(buf, base, a, count, byte)
    ensures Assembled(buf, base, Side(a, count, bit), count, byte)
    ensures forall c :: c in Side(a, count, bit) ==> CodeBit(c, count) == bit
  {
    hide CodeBit, Partial;
  }

  lemma AssembledCode(buf: seq<Byte>, base: nat, a: set<Rom>, byte: Byte)
    requires Codes(a) && base + CODE_BYTES <= |buf| && Assembled(buf, base, a, CODE_BITS, byte)
    ensures forall c :: c in a ==> buf[base..base + CODE_BYTES] == c
  {
    forall c | c in a
      ensures buf[base..base + CODE_BYTES] == c
    {
      forall q | 0 <= q < CODE_BYTES
        ensures buf[base + q] == c[q]
      {
      }
    }
  }

  lemma FirstMarker()
    ensures 1 == Marker(0) && 1 == Bit(0)
  {
  }

  lemma AllBits(x: Byte)
    ensures Partial(x, 8) == x && Partial(x, 0) == 0
  {
  }

  lemma MaskFacts(s: nat)
    requires s < 8
    ensures Bit(s) << 1 == if s == 7 then 0 else Bit(s + 1)
    ensures Bit(0) == 1 && (s < 7 ==> Bit(s + 1) != 0)
  {
  }

  lemma CodeBitMeans(c: Rom, j: nat)
    requires |c| == CODE_BYTES && j < CODE_BITS
    ensures CodeBit(c, j) == (c[j / 8] & Bit(j % 8) != 0)
  {
  }

  // The passes together

  /** `out` lists the valid codes in front of `c`, in order. */
  ghost predicate Found(d: set<Rom>, c: Rom, out: seq<Rom>)
    requires Codes(d) && |c| == CODE_BYTES
  {
    && Sorted(out)
    && (forall v :: v in out <==> v in ValidBefore(d, c))
    && |out| == |ValidBefore(d, c)|
  }

  function Keep(out: seq<Rom>, c: Rom): seq<Rom> { if Crc(c) == 0 then out + [c] else out }

  lemma NothingFound(d: set<Rom>, c: Rom)
    requires Codes(d) && IsFirst(d, c, 0)
    ensures Found(d, c, [])
  {
    hide Crc, CodeBit, LessFrom;
    forall v | v in d
      ensures !Less(v, c)
    {
      if v == c {
        if LessFrom(c, c, 0) { LessFromAsymmetric(c, c, 0); }
      } else {
        LessFromAsymmetric(c, v, 0);
      }
    }
    assert ValidBefore(d, c) == {};
  }

  /** What is valid and comes before the code after `c` came before `c`, or is `c`. */
  lemma ValidBeforeNext(d: set<Rom>, c: Rom, e: Rom)
    requires Codes(d) && c in d && Follows(d, c, e, 0)
    ensures ValidBefore(d, e) == ValidBefore(d, c) + (if Crc(c) == 0 then {c} else {})
    ensures c !in ValidBefore(d, c)
  {
    hide Crc, CodeBit, LessFrom;
    LessIrreflexive(c);
    forall v | v in d
      ensures Less(v, e) <==> Less(v, c) || v == c
    {
      if Less(v, c) {
        LessFromTransitive(v, c, e, 0);
      }
      if Less(v, e) && v != c {
        LessFromTotal(v, c, 0);
        if Less(c, v) {
          LessIrreflexive(e);
          if v != e { LessFromAsymmetric(v, e, 0); }
        }
      }
    }
  }

  lemma LessIrreflexive(c: Rom)
    requires |c| == CODE_BYTES
    ensures !Less(c, c)
  {
    if Less(c, c) { LessFromAsymmetric(c, c, 0); }
  }

  lemma SortedSnoc(out: seq<Rom>, c: Rom)
    requires Sorted(out) && |c| == CODE_BYTES && forall v :: v in out ==> |v| == CODE_BYTES && Less(v, c)
    ensures Sorted(out + [c])
  {
    hide Less;
  }

  lemma KeepNext(d: set<Rom>, c: Rom, e: Rom, out: seq<Rom>)
    requires Codes(d) && c in d && Found(d, c, out) && Follows(d, c, e, 0)
    ensures Found(d, e, Keep(out, c))
  {
    hide Crc, CodeBit, LessFrom, Sorted, Follows;
    ValidBeforeNext(d, c, e);
    forall v | v in out
      ensures |v| == CODE_BYTES && Less(v, c)
    {
      assert v in ValidBefore(d, c);
    }
    SortedSnoc(out, c);
    hide ValidBefore;
  }

  lemma KeepLast(d: set<Rom>, c: Rom, out: seq<Rom>)
    requires Codes(d) && c in d && Found(d, c, out) && IsLast(d, c, 0)
    ensures FirstCodes(d, Keep(out, c)) && |Keep(out, c)| == |ValidCodes(d)|
  {
    hide Crc, CodeBit, LessFrom;
    LessIrreflexive(c);
    forall v | v in ValidCodes(d)
      ensures v in ValidBefore(d, c) || v == c
    {
      if v != c { LessFromTotal(v, c, 0); }
    }
    assert ValidCodes(d) == ValidBefore(d, c) + (if Crc(c) == 0 then {c} else {});
    forall v | v in out
      ensures |v| == CODE_BYTES && Less(v, c)
    {
      assert v in ValidBefore(d, c);
    }
    SortedSnoc(out, c);
  }

  lemma FoundIsFirst(d: set<Rom>, c: Rom, out: seq<Rom>)
    requires Codes(d) && c in d && Found(d, c, out)
    ensures FirstCodes(d, out) && |out| <= |ValidCodes(d)|
  {
    hide Crc, CodeBit, LessFrom;
    SubsetSize(ValidBefore(d, c), ValidCodes(d));
    forall v, w | v in ValidCodes(d) && v !in out && w in out
      ensures Less(w, v)
    {
      assert Less(w, c) && !Less(v, c);
      if v != c {
        LessFromTotal(v, c, 0);
        LessFromTransitive(w, c, v, 0);
      }
    }
  }

  /** Together with `c`, the valid codes in front of it are the first ones. */
  lemma KeepIsFirst(d: set<Rom>, c: Rom, out: seq<Rom>)
    requires Codes(d) && c in d && Found(d, c, out)
    ensures FirstCodes(d, Keep(out, c)) && |Keep(out, c)| <= |ValidCodes(d)|
  {
    hide Crc, CodeBit, LessFrom;
    FoundIsFirst(d, c, out);
    if Crc(c) == 0 {
      LessIrreflexive(c);
      forall v | v in out
        ensures |v| == CODE_BYTES && Less(v, c)
      {
        assert v in ValidBefore(d, c);
      }
      SortedSnoc(out, c);
      SubsetSize(ValidBefore(d, c) + {c}, ValidCodes(d));
      assert c !in ValidBefore(d, c);
      forall v, w | v in ValidCodes(d) && v !in out + [c] && w in out + [c]
        ensures Less(w, v)
      {
        LessFromTotal(v, c, 0);
        if w != c { LessFromTransitive(w, c, v, 0); }
      }
    }
  }

  lemma {:induction false} SubsetSize<T>(a: set<T>, b: set<T>)
    requires a <= b
    ensures |a| <= |b|
  {
    if a != {} {
      var x :| x in a;
      SubsetSize(a - {x}, b - {x});
    }
  }

  /** The codes not yet reached, a measure that every pass makes smaller. */
  function Remaining(d: set<Rom>, c: Rom): set<Rom>
    requires Codes(d) && |c| == CODE_BYTES
  {
    set e | e in d && !Less(e, c)
  }

  lemma RemainingShrinks(d: set<Rom>, c: Rom, e: Rom)
    requires Codes(d) && c in d && Follows(d, c, e, 0)
    ensures |Remaining(d, e)| < |Remaining(d, c)|
  {
    hide CodeBit, LessFrom;
    LessIrreflexive(c);
    forall v | v in d && Less(v, c)
      ensures Less(v, e)
    {
      LessFromTransitive(v, c, e, 0);
    }
    SubsetSize(Remaining(d, e), Remaining(d, c) - {c});
  }

  lemma RowsKeep(before: seq<Byte>, after: seq<Byte>, n: nat, c: Rom)
    requires |c| == CODE_BYTES && CODE_BYTES * n + CODE_BYTES <= |before| == |after|
    requires after[..CODE_BYTES * n] == before[..CODE_BYTES * n]
    requires after[CODE_BYTES * n..CODE_BYTES * n + CODE_BYTES] == c
    ensures Rows(after, n) == Rows(before, n)
    ensures Rows(after, n + 1) == Rows(before, n) + [c]
  {
    forall q | 0 <= q < n
      ensures after[CODE_BYTES * q..CODE_BYTES * q + CODE_BYTES] == before[CODE_BYTES * q..CODE_BYTES * q + CODE_BYTES]
    {
      var lo, hi := CODE_BYTES * q, CODE_BYTES * q + CODE_BYTES;
      assert after[lo..hi] == after[..CODE_BYTES * n][lo..hi];
      assert before[lo..hi] == before[..CODE_BYTES * n][lo..hi];
    }
  }

  lemma RowsKept(before: seq<Byte>, after: seq<Byte>, n: nat, c: Rom)
    requires |c| == CODE_BYTES && CODE_BYTES * n + CODE_BYTES <= |before| == |after|
    requires after[..CODE_BYTES * n] == before[..CODE_BYTES * n]
    requires after[CODE_BYTES * n..CODE_BYTES * n + CODE_BYTES] == c
    ensures Rows(after, if Crc(c) == 0 then n + 1 else n) == Keep(Rows(before, n), c)
  {
    hide Crc, Rows;
    RowsKeep(before, after, n, c);
  }

  /** What the next pass will start from. */
  lemma NextPass(d: set<Rom>, c: Rom, e: Rom)
    requires Codes(d) && c in d && Follows(d, c, e, 0)
    ensures e in d && |Remaining(d, e)| < |Remaining(d, c)|
    ensures |ValidBefore(d, c)| <= |ValidBefore(d, e)|
  {
    hide Crc, CodeBit, LessFrom;
    RemainingShrinks(d, c, e);
    ValidBeforeNext(d, c, e);
    SubsetSize(ValidBefore(d, c), ValidBefore(d, e));
  }

  lemma NextFound(d: set<Rom>, c: Rom, e: Rom, out: seq<Rom>)
    requires Codes(d) && c in d && Found(d, c, out) && Follows(d, c, e, 0)
    ensures e in d && Found(d, e, Keep(out, c)) && |Keep(out, c)| == |ValidBefore(d, e)|
    ensures FirstCodes(d, Keep(out, c)) && |Keep(out, c)| <= |ValidCodes(d)|
  {
    hide Crc, CodeBit, LessFrom, Keep, FirstCodes;
    KeepNext(d, c, e, out);
    FoundIsFirst(d, e, Keep(out, c));
  }

  /** Nothing has more valid codes in front of it than the last code. */
  lemma LastHasMostBefore(d: set<Rom>, c: Rom, len: nat)
    requires Codes(d) && c in d && IsLast(d, c, 0) && |ValidBefore(d, c)| <= 31
    ensures IndexFits(d, len)
  {
    hide Crc, CodeBit, LessFrom;
    forall e | e in d
      ensures |ValidBefore(d, e)| <= 31
    {
      forall v | v in ValidBefore(d, e)
        ensures v in ValidBefore(d, c)
      {
        if e != c {
          LessFromTotal(e, c, 0);
          LessFromTransitive(v, e, c, 0);
        }
      }
      SubsetSize(ValidBefore(d, e), ValidBefore(d, c));
    }
  }

  /** A code with at least 32 valid codes in front of it. */
  ghost predicate Late(d: set<Rom>, c: Rom)
    requires Codes(d)
  {
    c in d && |ValidBefore(d, c)| >= 32
  }

  /** A list that begins with such a code is not the list of the first codes. */
  lemma LateIsNotFirst(d: set<Rom>, c: Rom, out: seq<Rom>)
    requires Codes(d) && Late(d, c) && |out| > 0 && out[0] == c
    ensures !FirstCodes(d, out)
  {
    hide Crc, CodeBit, LessFrom;
    var v :| v in ValidBefore(d, c);
    LessFromAsymmetric(v, c, 0);
    assert c in out;
    if FirstCodes(d, out) && v in out {
      LessIrreflexive(c);
    }
  }

  lemma LateMeans(d: set<Rom>, c: Rom, len: nat)
    requires Codes(d) && Late(d, c) && len >= 32
    ensures !IndexFits(d, len) && |ValidCodes(d)| >= 32
  {
    hide Crc, Less;
    SubsetSize(ValidBefore(d, c), ValidCodes(d));
  }

  /** What the search has done when the next pass will end at `c`. */
  ghost predicate Progress(d: set<Rom>, c: Rom, buf: seq<Byte>, found: nat, i: nat, len: nat)
    requires Codes(d)
  {
    && c in d && i % CODE_BYTES == 0 && i < 256 && found < 256
    && i + CODE_BYTES <= |buf| && CODE_BYTES * found + CODE_BYTES <= |buf|
    && (IndexFits(d, len) || |buf| >= CODE_BYTES * 256) && CODE_BYTES * len <= |buf|
    && if |ValidBefore(d, c)| <= 31
       then
         && i == CODE_BYTES * found && (found == 0 || found < len)
         && found == |ValidBefore(d, c)| && Found(d, c, Rows(buf, found))
       else len >= 32 && (i == 0 || Late(d, buf[..CODE_BYTES]))
  }

  /** What the search returns. */
  ghost predicate Result(d: set<Rom>, buf: seq<Byte>, ret: int, len: nat)
    requires Codes(d)
  {
    && 0 <= ret && CODE_BYTES * ret <= |buf|
    && (len == 0 ==> ret <= 1 && FirstCodes(d, Rows(buf, ret)))
    && (len > 0 ==>
          (FirstCodes(d, Rows(buf, ret)) && ret == Minimum(len, |ValidCodes(d)|) <==> IndexFits(d, len)))
  }

  /** A pass has stored the code `c` at `i`, and the row after those found was checked. */
  predicate Stored(c: Rom, before: seq<Byte>, after: seq<Byte>, found: nat, i: nat, found': nat, i': nat)
  {
    && |c| == CODE_BYTES && |after| == |before|
    && i + CODE_BYTES <= |after| && CODE_BYTES * found + CODE_BYTES <= |after|
    && after[..i] == before[..i] && after[i..i + CODE_BYTES] == c
    && if Crc(after[CODE_BYTES * found..CODE_BYTES * found + CODE_BYTES]) == 0
       then found' == (found + 1) % 256 && i' == (i + CODE_BYTES) % 256
       else found' == found && i' == i
  }

  /** After a pass that ended at `c`: the valid codes up to and including `c` are in the buffer. */
  ghost predicate UpTo(d: set<Rom>, c: Rom, out: seq<Rom>, after: seq<Byte>, found: nat, i: nat, len: nat)
    requires Codes(d) && |c| == CODE_BYTES
  {
    && found == |out| == |ValidBefore(d, c)| + (if Crc(c) == 0 then 1 else 0)
    && found <= 32 && i == CODE_BYTES * found % 256 && (found <= len || (len == 0 && found <= 1))
    && CODE_BYTES * found <= |after| && CODE_BYTES * len <= |after| && CODE_BYTES <= |after|
    && (IndexFits(d, len) || |after| >= CODE_BYTES * 256)
    && Rows(after, found) == out && FirstCodes(d, out) && found <= |ValidCodes(d)|
  }

  lemma FittingPass(d: set<Rom>, c: Rom, before: seq<Byte>, after: seq<Byte>, found: nat, i: nat, len: nat,
                    found': nat, i': nat)
    requires Codes(d) && Progress(d, c, before, found, i, len) && |ValidBefore(d, c)| <= 31
    requires Stored(c, before, after, found, i, found', i')
    ensures UpTo(d, c, Keep(Rows(before, found), c), after, found', i', len)
  {
    hide Crc, CodeBit, Less, LessFrom, ValidBefore, ValidCodes, Sorted, FirstCodes, Rows, Found, IndexFits;
    RowsKept(before, after, found, c);
    KeepIsFirst(d, c, Rows(before, found));
  }

  lemma UpToEnough(d: set<Rom>, c: Rom, out: seq<Rom>, after: seq<Byte>, found: nat, i: nat, len: nat)
    requires Codes(d) && |c| == CODE_BYTES && UpTo(d, c, out, after, found, i, len) && i >= CODE_BYTES * len
    ensures Result(d, after, found, len)
  {
    hide Crc, ValidBefore, ValidCodes, FirstCodes, Rows, IndexFits;
    if len <= 31 {
      FewFit(d, len);
    }
  }

  lemma UpToCount(d: set<Rom>, c: Rom, out: seq<Rom>, after: seq<Byte>, found: nat, i: nat, len: nat)
    requires Codes(d) && |c| == CODE_BYTES && UpTo(d, c, out, after, found, i, len) && i >= CODE_BYTES * len
    ensures len <= 31 && len <= |ValidBefore(d, c)| + Counted(c)
  {
    hide Crc, ValidBefore, ValidCodes, FirstCodes, Rows, IndexFits;
  }

  lemma UpToLast(d: set<Rom>, c: Rom, out: seq<Rom>, after: seq<Byte>, found: nat, i: nat, len: nat)
    requires Codes(d) && c in d && Found(d, c, out) && |ValidBefore(d, c)| <= 31 && IsLast(d, c, 0)
    requires UpTo(d, c, Keep(out, c), after, found, i, len)
    ensures Result(d, after, found, len)
  {
    hide Crc, CodeBit, Less, LessFrom, IsLast, ValidBefore, ValidCodes, Sorted, FirstCodes, Rows, Found, IndexFits,
         Keep;
    KeepLast(d, c, out);
    LastHasMostBefore(d, c, len);
  }

  lemma UpToNext(d: set<Rom>, c: Rom, e: Rom, out: seq<Rom>, after: seq<Byte>, found: nat, i: nat, len: nat)
    requires Codes(d) && c in d && Found(d, c, out) && Follows(d, c, e, 0)
    requires UpTo(d, c, Keep(out, c), after, found, i, len) && i < CODE_BYTES * len
    ensures Progress(d, e, after, found, i, len)
  {
    hide Crc, CodeBit, Less, LessFrom, Follows, ValidBefore, ValidCodes, Sorted, FirstCodes, Rows, Found, IndexFits,
         Keep;
    NextFound(d, c, e, out);
    if |ValidBefore(d, e)| > 31 {
      LateNow(d, e);
      LateMeans(d, e, len);
    }
  }

  lemma FewFit(d: set<Rom>, len: nat)
    requires Codes(d) && len <= 31
    ensures IndexFits(d, len)
  {
  }

  /** Once the index has overflown the first place holds a late code. */
  lemma OverflownPass(d: set<Rom>, c: Rom, e: Rom, before: seq<Byte>, after: seq<Byte>, found: nat, i: nat, len: nat,
                      found': nat, i': nat)
    requires Codes(d) && Progress(d, c, before, found, i, len) && |ValidBefore(d, c)| > 31
    requires Stored(c, before, after, found, i, found', i')
    ensures Result(d, after, found', len)
    ensures Follows(d, c, e, 0) && i' < CODE_BYTES * len ==> Progress(d, e, after, found', i', len)
  {
    hide Crc, CodeBit, Less, LessFrom, Follows, ValidBefore, ValidCodes, Sorted, FirstCodes, Found, IndexFits, Late,
         Rows, Stored;
    LateNow(d, c);
    FirstRow(c, before, after, found, i, found', i');
    LateMeans(d, c, len);
    LateResult(d, after, found', len);
    if Follows(d, c, e, 0) {
      NextPass(d, c, e);
    }
  }

  lemma LateNow(d: set<Rom>, c: Rom)
    requires Codes(d) && c in d && |ValidBefore(d, c)| > 31
    ensures Late(d, c)
  {
  }

  lemma FirstRow(c: Rom, before: seq<Byte>, after: seq<Byte>, found: nat, i: nat, found': nat, i': nat)
    requires Stored(c, before, after, found, i, found', i') && i % CODE_BYTES == 0 && i < 256 && found < 256
    ensures |after| == |before| && i' % CODE_BYTES == 0 && i' < 256 && found' < 256
    ensures after[..CODE_BYTES] == if i == 0 then c else before[..CODE_BYTES]
  {
  }

  lemma LateResult(d: set<Rom>, buf: seq<Byte>, ret: nat, len: nat)
    requires Codes(d) && |buf| >= CODE_BYTES * 256 && ret < 256 && Late(d, buf[..CODE_BYTES]) && len >= 32
    ensures Result(d, buf, ret, len)
  {
    hide Crc, FirstCodes, ValidCodes, IndexFits, Late;
    LateMeans(d, buf[..CODE_BYTES], len);
    if ret > 0 {
      assert Rows(buf, ret)[0] == buf[..CODE_BYTES];
      LateIsNotFirst(d, buf[..CODE_BYTES], Rows(buf, ret));
    }
  }

  /** A pass that ends at a code which is not deep. */
  lemma PassDone(d: set<Rom>, c: Rom, e: Rom, before: seq<Byte>, after: seq<Byte>, found: nat, i: nat, len: nat,
                 found': nat, i': nat)
    requires Codes(d) && |c| == CODE_BYTES && Progress(d, c, before, found, i, len)
    requires Stored(c, before, after, found, i, found', i')
    requires IsLast(d, c, 0) || Follows(d, c, e, 0)
    ensures IsLast(d, c, 0) ==> Result(d, after, found', len)
    ensures !IsLast(d, c, 0) && Follows(d, c, e, 0) ==>
              if i' < CODE_BYTES * len then Progress(d, e, after, found', i', len) else Result(d, after, found', len)
    ensures i' >= CODE_BYTES * len ==> len <= 31 && len <= |ValidBefore(d, c)| + Counted(c)
  {
    hide Progress, Stored, Result, Follows, IsLast, ValidBefore, Crc, Rows, Keep, UpTo, Found, Counted;
    if |ValidBefore(d, c)| <= 31 {
      FoundSoFar(d, c, before, found, i, len);
      var out := Rows(before, found);
      FittingPass(d, c, before, after, found, i, len, found', i');
      if i' >= CODE_BYTES * len {
        UpToEnough(d, c, Keep(out, c), after, found', i', len);
        UpToCount(d, c, Keep(out, c), after, found', i', len);
      } else if IsLast(d, c, 0) {
        UpToLast(d, c, out, after, found', i', len);
      } else {
        UpToNext(d, c, e, out, after, found', i', len);
      }
    } else {
      OverflownPass(d, c, e, before, after, found, i, len, found', i');
      StillWanted(d, c, before, after, found, i, len, found', i');
    }
  }

  lemma StillWanted(d: set<Rom>, c: Rom, before: seq<Byte>, after: seq<Byte>, found: nat, i: nat, len: nat,
                    found': nat, i': nat)
    requires Codes(d) && Progress(d, c, before, found, i, len) && |ValidBefore(d, c)| > 31
    requires Stored(c, before, after, found, i, found', i')
    ensures i' < CODE_BYTES * len
  {
    hide ValidBefore, Crc;
  }

  lemma FoundSoFar(d: set<Rom>, c: Rom, buf: seq<Byte>, found: nat, i: nat, len: nat)
    requires Codes(d) && Progress(d, c, buf, found, i, len) && |ValidBefore(d, c)| <= 31
    ensures c in d && CODE_BYTES * found <= |buf| && Found(d, c, Rows(buf, found))
  {
    hide ValidBefore, Found;
  }

  lemma ProgressStart(d: set<Rom>, c: Rom, buf: seq<Byte>, len: nat)
    requires Codes(d) && c in d && Found(d, c, []) && |ValidBefore(d, c)| == 0
    requires CODE_BYTES * len <= |buf| && CODE_BYTES <= |buf| && (IndexFits(d, len) || |buf| >= CODE_BYTES * 256)
    ensures Progress(d, c, buf, 0, 0, len)
  {
    hide ValidBefore, Found;
    assert Rows(buf, 0) == [];
  }

  lemma ProgressMeans(d: set<Rom>, c: Rom, buf: seq<Byte>, found: nat, i: nat, len: nat)
    requires Codes(d) && Progress(d, c, buf, found, i, len)
    ensures i % CODE_BYTES == 0 && i < 256 && found < 256
    ensures i + CODE_BYTES <= |buf| && CODE_BYTES * found + CODE_BYTES <= |buf|
  {
  }

  lemma SearchStart(d: set<Rom>)
    requires Codes(d) && d != {}
    ensures var c := End(d, 0, 0, 0);
            c in d && IsFirst(d, c, 0) && Found(d, c, []) && |ValidBefore(d, c)| == 0
  {
    hide CodeBit, LessFrom, Crc, SameBefore;
    AgreeFromTheStart(d);
    PathZero();
    LeftmostIsFirst(d, 0, 0, 0);
    NothingFound(d, End(d, 0, 0, 0));
  }

  lemma PassOutcome(d: set<Rom>, path: Byte)
    requires Codes(d) && d != {}
    ensures var c := End(d, 0, 0, path);
            var next := NextPath(d, 0, 0, path, 0);
            && c in d && End(d, 0, 0, next) in d
            && if Forks(d, c, 0) > 8 then next == path
               else if IsLast(d, c, 0) then next == 0 else next != 0 && Follows(d, c, End(d, 0, 0, next), 0)
  {
    hide CodeBit, LessFrom, Forks, SameBefore, IsLast, Follows, End, NextPath;
    EndIsListening(d, 0, 0, path);
    EndIsListening(d, 0, 0, NextPath(d, 0, 0, path, 0));
    AgreeFromTheStart(d);
    if Forks(d, End(d, 0, 0, path), 0) > 8 {
      DeepPassSticks(d, 0, 0, path, 0);
    } else {
      PassFindsNext(d, 0, 0, path, 0);
    }
  }

  /** The path that is left after `n` passes that start from the given one. */
  ghost function PathAfter(d: set<Rom>, path: Byte, n: nat): Byte
    requires Codes(d) && d != {}
  {
    if n == 0 then path else NextPath(d, 0, 0, PathAfter(d, path, n - 1), 0)
  }

  /** A pass that ends behind more than eight forks is repeated: the search stops there if its path
      is 0, and otherwise every further pass ends at the same code. */
  lemma {:induction false} DeepCodeRepeats(d: set<Rom>, path: Byte, n: nat)
    requires Codes(d) && d != {} && End(d, 0, 0, path) in d && Forks(d, End(d, 0, 0, path), 0) > 8
    ensures PathAfter(d, path, n) == path
  {
    hide End, NextPath, Forks;
    if n > 0 {
      DeepCodeRepeats(d, path, n - 1);
      DeepPassSticks(d, 0, 0, path, 0);
    }
  }

  /** The path and the index after `n` passes, while every code stored is also the one checked. */
  ghost function Passes(d: set<Rom>, path: Byte, i: nat, n: nat): (Byte, nat)
    requires Codes(d) && d != {}
  {
    if n == 0 then (path, i)
    else
      var (p, j) := Passes(d, path, i, n - 1);
      (NextPath(d, 0, 0, p, 0), if Crc(End(d, 0, 0, p)) == 0 then (j + CODE_BYTES) % 256 else j)
  }

  /** The condition for an end is needed: at a code behind more than eight forks which is not the
      first, the loop goes on after every pass, if the code does not check, or more codes are
      wanted than an 8-bit index can count. */
  lemma {:induction false} SearchNeverEnds(d: set<Rom>, path: Byte, i: nat, len: nat, n: nat)
    requires Codes(d) && d != {} && path != 0 && i < 256 && i < CODE_BYTES * len
    requires var c := End(d, 0, 0, path); c in d && Forks(d, c, 0) > 8 && (Crc(c) != 0 || len >= 32)
    ensures var (p, j) := Passes(d, path, i, n); p == path != 0 && j < 256 && j < CODE_BYTES * len
    ensures len < 32 ==> Passes(d, path, i, n).1 == i
  {
    hide End, NextPath, Forks, Crc;
    if n > 0 {
      SearchNeverEnds(d, path, i, len, n - 1);
      DeepPassSticks(d, 0, 0, path, 0);
    }
  }

  // Which code is the first deep one

  lemma OneFirstDeep(d: set<Rom>, c: Rom, x: Rom)
    requires Codes(d) && FirstDeep(d, c) && FirstDeep(d, x)
    ensures c == x
  {
    hide CodeBit, LessFrom, Deep;
    if c != x {
      LessFromTotal(c, x, 0);
    }
  }

  /** The search has seen no deep code, and has found enough or seen all. */
  lemma NothingSticks(d: set<Rom>, c: Rom, len: nat)
    requires Codes(d) && c in d && NoDeepBefore(d, c) && !Deep(d, c)
    requires IsLast(d, c, 0) || (len <= 31 && len <= |ValidBefore(d, c)| + Counted(c))
    ensures forall x :: !Sticks(d, x, len)
  {
    hide CodeBit, LessFrom, Deep, Crc, Counted;
    forall x | FirstDeep(d, x)
      ensures !Sticks(d, x, len)
    {
      LessFromTotal(c, x, 0);
      MoreBefore(d, c, x);
    }
  }

  lemma MoreBefore(d: set<Rom>, c: Rom, x: Rom)
    requires Codes(d) && c in d && x in d && Less(c, x)
    ensures |ValidBefore(d, c)| + Counted(c) <= |ValidBefore(d, x)|
  {
    hide CodeBit, LessFrom, Crc;
    LessIrreflexive(c);
    forall v | v in ValidBefore(d, c)
      ensures v in ValidBefore(d, x)
    {
      LessFromTransitive(v, c, x, 0);
    }
    SubsetSize(ValidBefore(d, c) + (if Crc(c) == 0 then {c} else {}), ValidBefore(d, x));
  }

  lemma NextHasNoDeepBefore(d: set<Rom>, c: Rom, e: Rom)
    requires Codes(d) && c in d && NoDeepBefore(d, c) && !Deep(d, c) && Follows(d, c, e, 0)
    ensures e in d && NoDeepBefore(d, e) && !IsFirst(d, e, 0)
  {
    hide CodeBit, LessFrom, Deep;
    LessFromAsymmetric(c, e, 0);
    LessIrreflexive(e);
    forall x | x in d && Less(x, e)
      ensures !Deep(d, x)
    {
      if x != c {
        LessFromTotal(x, c, 0);
        if Less(c, x) && x != e { LessFromAsymmetric(x, e, 0); }
      }
    }
  }

  lemma FirstHasNothingBefore(d: set<Rom>, c: Rom)
    requires Codes(d) && IsFirst(d, c, 0)
    ensures NoDeepBefore(d, c) && ValidBefore(d, c) == {}
  {
    hide CodeBit, LessFrom, Deep, Crc;
    forall e | e in d
      ensures !Less(e, c)
    {
      if e == c {
        LessIrreflexive(c);
      } else {
        LessFromAsymmetric(c, e, 0);
      }
    }
  }

  // The same code again and again

  function Copies(c: Rom, n: nat): (rows: seq<Rom>)
    ensures |rows| == n
  {
    seq(n, _ => c)
  }

  /** The valid codes in front of `c`, and then `c` at least once. */
  ghost predicate Repeated(d: set<Rom>, c: Rom, out: seq<Rom>, rows: seq<Rom>)
    requires Codes(d) && |c| == CODE_BYTES
  {
    Found(d, c, out) && |out| < |rows| && rows == out + Copies(c, |rows| - |out|)
  }

  /** What the search has done when it counts the same code again and again. */
  ghost predicate Repeating(d: set<Rom>, c: Rom, buf: seq<Byte>, found: nat, i: nat, len: nat)
    requires Codes(d)
  {
    && FirstDeep(d, c) && !IsFirst(d, c, 0) && Crc(c) == 0
    && found < len <= 31 && i == CODE_BYTES * found && CODE_BYTES * len <= |buf|
    && exists out :: Repeated(d, c, out, Rows(buf, found))
  }

  /** What a search returns that sticks at the code `c`. */
  ghost predicate StuckResult(d: set<Rom>, c: Rom, buf: seq<Byte>, ret: int, len: nat)
    requires Codes(d)
  {
    && |c| == CODE_BYTES && 0 <= ret && CODE_BYTES * ret <= |buf|
    && if IsFirst(d, c, 0) then Rows(buf, ret) == Keep([], c)
       else ret == len && exists out :: Repeated(d, c, out, Rows(buf, ret))
  }

  /** What the search returns, whether it sticks at a code or not. */
  ghost predicate Outcome(d: set<Rom>, buf: seq<Byte>, ret: int, len: nat)
    requires Codes(d)
  {
    && 0 <= ret && CODE_BYTES * ret <= |buf|
    && ((forall c :: !Sticks(d, c, len)) ==> Result(d, buf, ret, len))
    && (forall c :: Sticks(d, c, len) ==> StuckResult(d, c, buf, ret, len))
  }

  lemma StuckOutcome(d: set<Rom>, c: Rom, buf: seq<Byte>, ret: int, len: nat)
    requires Codes(d) && Sticks(d, c, len) && StuckResult(d, c, buf, ret, len)
    ensures Outcome(d, buf, ret, len)
  {
    hide FirstDeep, Rows, Repeated, Keep, ValidBefore, Crc, IsFirst;
    forall x | Sticks(d, x, len)
      ensures x == c
    {
      OneFirstDeep(d, c, x);
    }
  }

  /** The first pass that ends at a deep code. */
  lemma DeepPass(d: set<Rom>, c: Rom, before: seq<Byte>, after: seq<Byte>, found: nat, i: nat, len: nat,
                 found': nat, i': nat)
    requires Codes(d) && FirstDeep(d, c) && Progress(d, c, before, found, i, len) && SearchEnds(d, len)
    requires Stored(c, before, after, found, i, found', i')
    ensures if i' >= CODE_BYTES * len || IsFirst(d, c, 0) then Outcome(d, after, found', len)
            else Repeating(d, c, after, found', i', len) && found < found'
  {
    hide FirstDeep, Progress, Stored, Result, IsFirst, ValidBefore, Crc, Rows, Keep, UpTo, Found, Outcome;
    DeepIsEarly(d, c, before, found, i, len);
    FoundSoFar(d, c, before, found, i, len);
    var out := Rows(before, found);
    FittingPass(d, c, before, after, found, i, len, found', i');
    if i' >= CODE_BYTES * len {
      UpToEnough(d, c, Keep(out, c), after, found', i', len);
      UpToCount(d, c, Keep(out, c), after, found', i', len);
      EnoughDoesNotStick(d, c, after, found', len);
    } else {
      UpToStuck(d, c, out, after, found', i', len);
    }
  }

  lemma DeepIsEarly(d: set<Rom>, c: Rom, buf: seq<Byte>, found: nat, i: nat, len: nat)
    requires Codes(d) && FirstDeep(d, c) && Progress(d, c, buf, found, i, len) && SearchEnds(d, len)
    ensures |ValidBefore(d, c)| <= 31
  {
    hide ValidBefore, Deep, IsFirst;
    if IsFirst(d, c, 0) {
      FirstHasNothingBefore(d, c);
    }
  }

  lemma EnoughDoesNotStick(d: set<Rom>, c: Rom, buf: seq<Byte>, ret: nat, len: nat)
    requires Codes(d) && FirstDeep(d, c) && len <= 31 && len <= |ValidBefore(d, c)| + Counted(c)
    requires Result(d, buf, ret, len)
    ensures Outcome(d, buf, ret, len)
  {
    hide FirstDeep, Rows, Repeated, Keep, ValidBefore, Crc, IsFirst, FirstCodes;
    forall x | FirstDeep(d, x)
      ensures !Sticks(d, x, len)
    {
      OneFirstDeep(d, c, x);
    }
  }

  lemma UpToStuck(d: set<Rom>, c: Rom, out: seq<Rom>, after: seq<Byte>, found: nat, i: nat, len: nat)
    requires Codes(d) && FirstDeep(d, c) && SearchEnds(d, len) && Found(d, c, out)
    requires UpTo(d, c, Keep(out, c), after, found, i, len) && i < CODE_BYTES * len
    ensures if IsFirst(d, c, 0) then Outcome(d, after, found, len)
            else Repeating(d, c, after, found, i, len) && |out| < found
  {
    hide Deep, NoDeepBefore, Crc, ValidBefore, ValidCodes, FirstCodes, Rows, IndexFits, Sorted, IsFirst, Outcome;
    assert Sticks(d, c, len);
    if IsFirst(d, c, 0) {
      FirstHasNothingBefore(d, c);
      assert out == [];
      StuckOutcome(d, c, after, found, len);
    } else {
      assert Copies(c, 1) == [c];
      assert Repeated(d, c, out, Rows(after, found));
    }
  }

  /** A further pass at that code. */
  lemma RepeatedPass(d: set<Rom>, c: Rom, before: seq<Byte>, after: seq<Byte>, found: nat, i: nat, len: nat,
                     found': nat, i': nat)
    requires Codes(d) && Repeating(d, c, before, found, i, len) && Stored(c, before, after, found, i, found', i')
    ensures found' == found + 1
    ensures if i' >= CODE_BYTES * len then Outcome(d, after, found', len) else Repeating(d, c, after, found', i', len)
  {
    hide FirstDeep, ValidBefore, Crc, Rows, IsFirst, Outcome, Found;
    RowsKeep(before, after, found, c);
    var out :| Repeated(d, c, out, Rows(before, found));
    var n := found - |out|;
    assert Copies(c, n) + [c] == Copies(c, n + 1);
    assert out + Copies(c, n) + [c] == out + Copies(c, n + 1);
    assert Repeated(d, c, out, Rows(after, found + 1));
    if i' >= CODE_BYTES * len {
      FoundCount(d, c, out);
      StuckOutcome(d, c, after, found', len);
    }
  }

  lemma FoundCount(d: set<Rom>, c: Rom, out: seq<Rom>)
    requires Codes(d) && |c| == CODE_BYTES && Found(d, c, out)
    ensures |out| == |ValidBefore(d, c)|
  {
  }

  /** A list with a code in it twice is not that of the first codes; one that breaks off after the
      first code is, if there are no more. */
  lemma StuckIsWrong(d: set<Rom>, c: Rom, buf: seq<Byte>, ret: int, len: nat)
    requires Codes(d) && Sticks(d, c, len) && SearchEnds(d, len) && StuckResult(d, c, buf, ret, len)
    ensures FirstCodes(d, Rows(buf, ret)) && ret == Minimum(len, |ValidCodes(d)|)
       <==> IsFirst(d, c, 0) && |ValidCodes(d)| == Counted(c)
  {
    hide CodeBit, LessFrom, Less, Deep, NoDeepBefore, Crc, ValidBefore, ValidCodes, IsFirst, Found;
    var rows := Rows(buf, ret);
    if IsFirst(d, c, 0) {
      FirstHasNothingBefore(d, c);
      NothingFound(d, c);
      KeepIsFirst(d, c, []);
    } else {
      var out :| Repeated(d, c, out, rows);
      FoundCount(d, c, out);
      LessIrreflexive(c);
      assert rows[|rows| - 2] == c && rows[|rows| - 1] == c;
    }
  }

  /** If no code lies behind more than eight forks the search always ends, and never sticks. */
  lemma ShallowNeverSticks(d: set<Rom>, len: nat)
    requires Codes(d) && Shallow(d, 0, 0)
    ensures SearchEnds(d, len) && forall c :: !Sticks(d, c, len)
  {
    hide Forks, Crc;
  }

  // The loop

  /** What the loop of the search keeps, once it is known that there is a device. */
  ghost predicate Searching(d: set<Rom>, path: Byte, buf: seq<Byte>, found: nat, i: nat, len: nat)
    requires Codes(d)
  {
    d != {} ==>
      var c := End(d, 0, 0, path);
      && c in d && NoDeepBefore(d, c) && (path == 0 <==> IsFirst(d, c, 0))
      && (Progress(d, c, buf, found, i, len) || Repeating(d, c, buf, found, i, len))
  }

  /** The codes that the search has still to go through. */
  ghost function Left(d: set<Rom>, path: Byte): nat
    requires Codes(d)
  {
    if d == {} then 0
    else
      EndIsListening(d, 0, 0, path);
      |Remaining(d, End(d, 0, 0, path))|
  }

  lemma SearchBegins(d: set<Rom>, buf: seq<Byte>, len: nat)
    requires Codes(d) && CODE_BYTES * len <= |buf| && CODE_BYTES <= |buf|
    requires IndexFits(d, len) || |buf| >= CODE_BYTES * 256
    ensures Searching(d, 0, buf, 0, 0, len)
  {
    hide Found, ValidBefore, IndexFits, End, Progress, Repeating, IsFirst, NoDeepBefore;
    if d != {} {
      SearchStart(d);
      FirstHasNothingBefore(d, End(d, 0, 0, 0));
      ProgressStart(d, End(d, 0, 0, 0), buf, len);
    }
  }

  lemma SearchFits(d: set<Rom>, path: Byte, buf: seq<Byte>, found: nat, i: nat, len: nat)
    requires Codes(d) && d != {} && Searching(d, path, buf, found, i, len)
    ensures i < 249 && found < 256 && i + CODE_BYTES <= |buf| && CODE_BYTES * found + CODE_BYTES <= |buf|
  {
    hide End, Progress, FirstDeep, NoDeepBefore, IsFirst, Crc, Repeated;
    var c := End(d, 0, 0, path);
    if Progress(d, c, buf, found, i, len) {
      ProgressMeans(d, c, buf, found, i, len);
    }
  }

  /** What is still wanted, as long as the index does not overflow. */
  function Wanted(found: nat, len: nat): nat { if found < len then len - found else 0 }

  /** One pass on. */
  lemma SearchGoesOn(d: set<Rom>, path: Byte, before: seq<Byte>, after: seq<Byte>, found: nat, i: nat, len: nat,
                     found': nat, i': nat)
    requires Codes(d) && d != {} && Searching(d, path, before, found, i, len) && SearchEnds(d, len)
    requires Stored(End(d, 0, 0, path), before, after, found, i, found', i')
    ensures var next := NextPath(d, 0, 0, path, 0);
            if next == 0 || i' >= CODE_BYTES * len then Outcome(d, after, found', len)
            else
              && Searching(d, next, after, found', i', len)
              && (Left(d, next) < Left(d, path)
                  || (Left(d, next) == Left(d, path) && Wanted(found', len) < Wanted(found, len)))
  {
    hide End, NextPath, Stored, Result, Progress, Repeating, Forks, IsLast, IsFirst, Follows, SearchEnds, Remaining,
         Outcome, NoDeepBefore, ValidBefore, Crc;
    var next := NextPath(d, 0, 0, path, 0);
    var c, e := End(d, 0, 0, path), End(d, 0, 0, next);
    PassOutcome(d, path);
    if !Deep(d, c) {
      NotRepeating(d, c, before, found, i, len);
      PassDone(d, c, e, before, after, found, i, len, found', i');
      if IsLast(d, c, 0) || i' >= CODE_BYTES * len {
        NothingSticks(d, c, len);
        PlainOutcome(d, after, found', len);
      } else {
        NextPass(d, c, e);
        NextHasNoDeepBefore(d, c, e);
      }
    } else if Progress(d, c, before, found, i, len) {
      DeepPass(d, c, before, after, found, i, len, found', i');
      RepeatingMeans(d, c, after, found', i', len);
    } else {
      RepeatingMeans(d, c, before, found, i, len);
      RepeatedPass(d, c, before, after, found, i, len, found', i');
    }
  }

  lemma NotRepeating(d: set<Rom>, c: Rom, buf: seq<Byte>, found: nat, i: nat, len: nat)
    requires Codes(d) && |c| == CODE_BYTES && !Deep(d, c)
    ensures !Repeating(d, c, buf, found, i, len)
  {
  }

  lemma RepeatingMeans(d: set<Rom>, c: Rom, buf: seq<Byte>, found: nat, i: nat, len: nat)
    requires Codes(d)
    ensures Repeating(d, c, buf, found, i, len) ==> c in d && !IsFirst(d, c, 0) && found < len
  {
    hide IsFirst, Crc, Deep, Repeated;
  }

  lemma PlainOutcome(d: set<Rom>, buf: seq<Byte>, ret: nat, len: nat)
    requires Codes(d) && Result(d, buf, ret, len) && forall c :: !Sticks(d, c, len)
    ensures Outcome(d, buf, ret, len)
  {
    hide Sticks, FirstCodes, Rows, IndexFits;
  }

  /** The search finds the first codes that check, in order, each once, up to the number asked
      for, exactly when the buffer index fits, unless it sticks at a code behind more than eight
      forks before it has found enough. If that is the very first code, it returns after one
      pass; otherwise, if the code checks, it fills the list with it. (If it does not check, or
      more than 31 codes are wanted, there is no end.) Where the index does not fit, codes are
      checked beyond the 32 places that are written, and the memory there is part of `rombuf`. */
  method Search(bus: Bus, rombuf: array<Byte>, len: nat) returns (ret: int)
    requires bus.Valid() && SearchEnds(bus.devices, len)
    requires len < 256 && CODE_BYTES * len <= rombuf.Length && CODE_BYTES <= rombuf.Length
    requires IndexFits(bus.devices, len) || rombuf.Length >= CODE_BYTES * 256
    modifies bus, rombuf
    ensures bus.shorted || bus.devices == {} ==>
              ret == (if bus.shorted then -ETIMEDOUT else -ENODEV) && rombuf[..] == old(rombuf[..])
    ensures bus.devices != {} && !bus.shorted ==> 0 <= ret && CODE_BYTES * ret <= rombuf.Length
    ensures bus.devices != {} && !bus.shorted && (forall c :: !Sticks(bus.devices, c, len)) ==>
              if len == 0 then ret <= 1 && FirstCodes(bus.devices, Rows(rombuf[..], ret))
              else (&& FirstCodes(bus.devices, Rows(rombuf[..], ret))
                    && ret == Minimum(len, |ValidCodes(bus.devices)|)
                    <==> IndexFits(bus.devices, len))
    ensures bus.devices != {} && !bus.shorted ==>
              forall c :: Sticks(bus.devices, c, len) ==> StuckResult(bus.devices, c, rombuf[..], ret, len)
  {
    hide Crc, NextPath, End, FirstCodes, ValidCodes, Rows, IndexFits, Searching, Result, Left, SearchEnds, Sticks,
         StuckResult, Outcome, Wanted;
    var path: Byte, found: nat, i: nat := 0, 0, 0;
    ghost var d := bus.devices;
    SearchBegins(d, rombuf[..], len);
    while true
      invariant bus.Valid() && Searching(d, path, rombuf[..], found, i, len)
      invariant bus.shorted || d == {} ==> rombuf[..] == old(rombuf[..])
      decreases Left(d, path), Wanted(found, len)
    {
      ret := bus.Reset();
      if ret < 0 {
        return;
      }
      SearchFits(d, path, rombuf[..], found, i, len);
      ghost var before, path0, found0, i0 := rombuf[..], path, found, i;
      var collision;
      collision, path, found, i := FindOne(bus, rombuf, path, found, i);
      if collision {
        return -EIO;
      }
      SearchGoesOn(d, path0, before, rombuf[..], found0, i0, len, found, i);
      if path == 0 || !(i < CODE_BYTES * len) {
        OutcomeMeans(d, rombuf[..], found, len);
        return found;
      }
    }
  }

  lemma OutcomeMeans(d: set<Rom>, buf: seq<Byte>, ret: int, len: nat)
    requires Codes(d) && Outcome(d, buf, ret, len)
    ensures 0 <= ret && CODE_BYTES * ret <= |buf|
    ensures (forall c :: !Sticks(d, c, len)) ==>
              if len == 0 then ret <= 1 && FirstCodes(d, Rows(buf, ret))
              else (FirstCodes(d, Rows(buf, ret)) && ret == Minimum(len, |ValidCodes(d)|) <==> IndexFits(d, len))
    ensures forall c :: Sticks(d, c, len) ==> StuckResult(d, c, buf, ret, len)
  {
    hide Sticks, StuckResult, Rows, FirstCodes, ValidCodes, IndexFits;
  }

  /** The part of the search loop after the reset. */
  method FindOne(bus: Bus, rombuf: array<Byte>, path: Byte, found: nat, i: nat)
    returns (collision: bool, path': Byte, found': nat, i': nat)
    requires bus.Valid() && bus.devices != {} && i < 249 && found < 256
    requires i + CODE_BYTES <= rombuf.Length && CODE_BYTES * found + CODE_BYTES <= rombuf.Length
    modifies bus, rombuf
    ensures bus.Valid() && !collision && path' == NextPath(bus.devices, 0, 0, path, 0)
    ensures Stored(End(bus.devices, 0, 0, path), old(rombuf[..]), rombuf[..], found, i, found', i')
  {
    hide Crc, NextPath, End;
    found' := found;
    EndIsListening(bus.devices, 0, 0, path);
    bus.WriteByte(SEARCH_ROM);
    collision, path', i' := SearchPass(bus, rombuf, i, path);
    if collision {
      return;
    }
    var crc := CrcCheck(rombuf, CODE_BYTES * found, CODE_BYTES);
    if crc == 0 {
      found' := (found + 1) % 256;
    } else {
      i' := (i' + 256 - CODE_BYTES) % 256;
    }
  }
}
