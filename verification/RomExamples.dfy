/** Devices on a 1-Wire bus with which the search (pxbee/drivers/1-wire/one_wire.c) does not do
    what it should: one too many for its buffer index, and one fork too many for its path. All
    their codes check. */
module RomExamples {
  import opened Bits
  import opened Crc8
  import opened RomTrie
  import opened RomSearch

  /** The code made of seven bytes and their check value. */
  function Sealed(p: seq<Byte>): (c: Rom)
    requires |p| == CODE_BYTES - 1
    ensures |c| == CODE_BYTES && c[..7] == p
  {
    p + [Crc(p)]
  }

  lemma SealedChecks(p: seq<Byte>)
    requires |p| == CODE_BYTES - 1
    ensures Crc(Sealed(p)) == 0
  {
    hide Crc;
    SealedBufferChecks(p);
  }

  // Codes that differ in their first byte

  /** A code numbered in its first byte. */
  function Numbered(x: Byte): (c: Rom)
    ensures |c| == CODE_BYTES && c[0] == x && Crc(c) == 0
  {
    SealedChecks([x, 0, 0, 0, 0, 0, 0]);
    Sealed([x, 0, 0, 0, 0, 0, 0])
  }

  /** The devices with the numbers below `n`. */
  function Devices(n: Byte): (d: set<Rom>)
    ensures Codes(d)
  {
    if n == 0 then {} else Devices(n - 1) + {Numbered(n - 1)}
  }

  lemma DeviceNumbers(n: Byte)
    ensures forall c :: c in Devices(n) ==> c[0] < n && c == Numbered(c[0])
  {
    hide Numbered, Devices;
    forall c | c in Devices(n)
      ensures c[0] < n && c == Numbered(c[0])
    {
      DeviceNumber(n, c);
    }
  }

  lemma {:induction false} DeviceNumber(n: Byte, c: Rom)
    requires c in Devices(n)
    ensures |c| == CODE_BYTES && c[0] < n && c == Numbered(c[0])
  {
    hide Numbered;
    Below(c[0], n);
    if c in Devices(n - 1) {
      DeviceNumber(n - 1, c);
    }
  }

  lemma Below(x: Byte, n: Byte)
    ensures n != 0 ==> n - 1 < n && (x < n - 1 ==> x < n)
  {
  }

  lemma OneMore(n: Byte)
    requires n < 255
    ensures |Devices(n + 1)| == |Devices(n)| + 1
  {
    hide Numbered;
    DeviceNumbers(n);
    assert n + 1 - 1 == n && n + 1 != 0;
  }

  lemma FourMore(n: Byte)
    requires n < 252
    ensures |Devices(n + 4)| == |Devices(n)| + 4
  {
    hide Devices;
    OneMore(n);
    OneMore(n + 1);
    OneMore(n + 2);
    OneMore(n + 3);
    assert n + 1 + 1 == n + 2 && n + 2 + 1 == n + 3 && n + 3 + 1 == n + 4;
  }

  lemma CountDevices()
    ensures |Devices(32)| == 32 && |Devices(33)| == 33
  {
    hide Devices;
    NoDevices();
    FourMore(0);
    FourMore(4);
    FourMore(8);
    FourMore(12);
    FourMore(16);
    FourMore(20);
    FourMore(24);
    FourMore(28);
    OneMore(32);
  }

  lemma NoDevices()
    ensures |Devices(0)| == 0
  {
  }

  predicate FirstByteTells(a: set<Rom>)
    requires Codes(a)
  {
    forall c, e :: c in a && e in a && c[0] == e[0] ==> c == e
  }

  /** If the first byte tells the devices apart no code lies behind more than eight forks. */
  lemma {:induction false} FewForks(a: set<Rom>, c: Rom, j: nat)
    requires Codes(a) && c in a && j <= 8 && Agree(a, j) && FirstByteTells(a)
    ensures Forks(a, c, j) <= 8 - j
    decreases 8 - j
  {
    hide CodeBit, Agree;
    if j == 8 {
      forall e | e in a
        ensures e == c
      {
        SameFirstByte(a, c, e);
      }
      OnlyOne(a, c, 8);
    } else {
      AgreeSide(a, j, CodeBit(c, j));
      FewForks(Side(a, j, CodeBit(c, j)), c, j + 1);
    }
  }

  lemma SameFirstByte(a: set<Rom>, c: Rom, e: Rom)
    requires Codes(a) && c in a && e in a && Agree(a, 8)
    ensures c[0] == e[0]
  {
    forall s | 0 <= s < 8
      ensures (c[0] & Bit(s) != 0) == (e[0] & Bit(s) != 0)
    {
      assert CodeBit(c, s) == CodeBit(e, s);
    }
    SameByte(c[0], e[0]);
  }

  lemma {:induction false} OnlyOne(a: set<Rom>, c: Rom, j: nat)
    requires Codes(a) && c in a && j <= CODE_BITS && forall e :: e in a ==> e == c
    ensures Forks(a, c, j) == 0
    decreases CODE_BITS - j
  {
    hide CodeBit;
    if j < CODE_BITS {
      OnlyOne(Side(a, j, CodeBit(c, j)), c, j + 1);
    }
  }

  lemma DevicesAreShallow(n: Byte)
    ensures Shallow(Devices(n), 0, 0)
  {
    hide Forks, Agree, Crc, Numbered;
    var d := Devices(n);
    DeviceNumbers(n);
    assert FirstByteTells(d);
    AgreeFromTheStart(d);
    forall c | c in d
      ensures Forks(d, c, 0) <= 8
    {
      FewForks(d, c, 0);
    }
  }

  // The buffer index

  lemma {:induction false} SomeCodeIsLast(d: set<Rom>) returns (last: Rom)
    requires Codes(d) && d != {}
    ensures last in d && IsLast(d, last, 0)
    decreases |d|
  {
    hide CodeBit, LessFrom;
    last :| last in d;
    LessIrreflexive(last);
    if e :| e in d && Less(last, e) {
      var rest := d - {last};
      var r := SomeCodeIsLast(rest);
      if Less(r, last) {
        LessFromTransitive(r, last, e, 0);
      }
      last := r;
    }
  }

  /** Thirty-two devices are found whatever their codes; with thirty-three that can all be told
      apart by their first byte, and all of whose codes check, the index overflows. */
  lemma ThirtyThreeDevicesAreTooMany(len: nat)
    requires 32 <= len < 256
    ensures |Devices(32)| == 32 && IndexFits(Devices(32), len)
    ensures Shallow(Devices(33), 0, 0) && |ValidCodes(Devices(33))| == 33 && !IndexFits(Devices(33), len)
  {
    hide Crc, Devices, Shallow, Less, ValidBefore;
    CountDevices();
    forall c | c in Devices(32)
      ensures |ValidBefore(Devices(32), c)| <= 31
    {
      OthersBefore(Devices(32), c);
    }
    DevicesAreShallow(33);
    DevicesCheck(33);
    var d := Devices(33);
    var last := SomeCodeIsLast(d);
    AllBeforeLast(d, last);
    assert ValidCodes(d) == d;
  }

  lemma DevicesCheck(n: Byte)
    ensures forall c :: c in Devices(n) ==> Crc(c) == 0
  {
    hide Crc, Numbered;
    DeviceNumbers(n);
  }

  lemma OthersBefore(d: set<Rom>, c: Rom)
    requires Codes(d) && c in d
    ensures |ValidBefore(d, c)| <= |d| - 1
  {
    hide Crc, Less;
    LessIrreflexive(c);
    SubsetSize(ValidBefore(d, c), d - {c});
  }

  lemma AllBeforeLast(d: set<Rom>, last: Rom)
    requires Codes(d) && last in d && IsLast(d, last, 0) && forall c :: c in d ==> Crc(c) == 0
    ensures ValidBefore(d, last) == d - {last}
  {
    hide CodeBit, LessFrom, Crc;
    LessIrreflexive(last);
    forall c | c in d && c != last
      ensures Less(c, last)
    {
      LessFromTotal(c, last, 0);
    }
  }

  // The path

  /** A code with bit `i` set and the bits up to bit 8 otherwise clear; for 9 they are all clear. */
  function OneBit(i: nat): (c: Rom)
    requires i <= 9
    ensures |c| == CODE_BYTES
  {
    Sealed([if i < 8 then Bit(i) else 0, if i == 8 then 1 else 0, 0, 0, 0, 0, 0])
  }

  lemma OneBitMeans(i: nat, j: nat)
    requires i <= 9 && j <= 8
    ensures CodeBit(OneBit(i), j) == (i == j) && Crc(OneBit(i)) == 0
  {
    hide Crc;
    SealedChecks([if i < 8 then Bit(i) else 0, if i == 8 then 1 else 0, 0, 0, 0, 0, 0]);
    if i < 8 && j < 8 {
      TwoBits(i, j);
    }
  }

  /** The codes with a bit set at `j` or later, and the one without. */
  function Comb(j: nat): (d: set<Rom>)
    requires j <= 9
    decreases 9 - j
  {
    if j == 9 then {OneBit(9)} else Comb(j + 1) + {OneBit(j)}
  }

  lemma {:induction false} CombFacts(j: nat)
    requires j <= 9
    ensures Codes(Comb(j)) && OneBit(9) in Comb(j)
    ensures forall c :: c in Comb(j) ==> Crc(c) == 0 && exists i :: j <= i <= 9 && c == OneBit(i)
    decreases 9 - j
  {
    hide Crc, OneBit, CodeBit;
    OneBitMeans(j, 0);
    if j < 9 {
      CombFacts(j + 1);
      forall c | c in Comb(j)
        ensures exists i :: j <= i <= 9 && c == OneBit(i)
      {
        if c in Comb(j + 1) {
          var i :| j + 1 <= i <= 9 && c == OneBit(i);
          assert j <= i <= 9 && c == OneBit(i);
        } else {
          assert j <= j <= 9 && c == OneBit(j);
        }
      }
    }
  }

  lemma CombForks(j: nat)
    requires j < 9
    ensures Codes(Comb(j)) && Forked(Comb(j), j) && Side(Comb(j), j, false) == Comb(j + 1)
  {
    hide Crc, OneBit, CodeBit;
    CombFacts(j);
    CombFacts(j + 1);
    OneBitMeans(j, j);
    OneBitMeans(9, j);
    assert OneBit(j) in Side(Comb(j), j, true) && OneBit(9) in Side(Comb(j), j, false);
    forall c | c in Comb(j + 1)
      ensures !CodeBit(c, j)
    {
      var i :| j + 1 <= i <= 9 && c == OneBit(i);
      OneBitMeans(i, j);
    }
  }

  lemma {:induction false} CombIsDeep(j: nat)
    requires j <= 9
    ensures Codes(Comb(j)) && OneBit(9) in Comb(j) && Forks(Comb(j), OneBit(9), j) >= 9 - j
    decreases 9 - j
  {
    hide Crc, OneBit, CodeBit, Comb, Forked;
    CombFacts(j);
    if j < 9 {
      CombForks(j);
      OneBitMeans(9, j);
      CombIsDeep(j + 1);
    }
  }

  lemma {:induction false} CombSize(j: nat)
    requires j <= 9
    ensures |Comb(j)| == 10 - j
    decreases 9 - j
  {
    hide Crc, OneBit, CodeBit;
    if j < 9 {
      CombSize(j + 1);
      CombForks(j);
      OneBitMeans(j, j);
      assert OneBit(j) !in Side(Comb(j), j, false);
    }
  }

  /** The code with no bit set comes before all others. */
  lemma {:induction false} NoBitIsLess(i: nat, j: nat)
    requires j <= i < 9
    ensures LessFrom(OneBit(9), OneBit(i), j)
    decreases i - j
  {
    hide Crc, OneBit, CodeBit;
    OneBitMeans(9, j);
    OneBitMeans(i, j);
    if j < i {
      NoBitIsLess(i, j + 1);
    }
  }

  lemma NoBitIsFirst()
    ensures Codes(Comb(0)) && IsFirst(Comb(0), OneBit(9), 0)
  {
    hide Crc, OneBit, CodeBit, Comb, LessFrom;
    CombFacts(0);
    forall e | e in Comb(0) && e != OneBit(9)
      ensures LessFrom(OneBit(9), e, 0)
    {
      var i :| 0 <= i <= 9 && e == OneBit(i);
      NoBitIsLess(i, 0);
    }
  }

  /** Devices whose codes check and of which some can never be found. */
  ghost predicate SomeHidden(d: set<Rom>) {
    && Codes(d) && d != {} && (forall c :: c in d ==> Crc(c) == 0)
    && exists c :: c in d && Unreached(d, 0, 0, c)
  }

  /** Ten devices like that; one of them lies behind nine forks. */
  lemma TenDevicesCanBeTooMany()
    ensures |Comb(0)| == 10 && SomeHidden(Comb(0))
  {
    hide Crc, OneBit, Comb, Unreached, Forks;
    CombFacts(0);
    CombIsDeep(0);
    CombSize(0);
    NinthForkHidesACode(Comb(0), 0, 0, OneBit(9));
  }

  /** The search sticks at `c` although this is the very first code. */
  ghost predicate StopsAtFirst(d: set<Rom>, c: Rom, len: nat) {
    Codes(d) && SearchEnds(d, len) && Sticks(d, c, len) && IsFirst(d, c, 0) && Keep([], c) == [c]
  }

  /** If more than one of the ten is wanted, the search stops after the first. */
  lemma OneOfTenIsFound(len: nat)
    requires len > 1
    ensures StopsAtFirst(Comb(0), OneBit(9), len)
  {
    hide Crc, OneBit, Comb, Unreached, Forks, Less, IsFirst, ValidBefore;
    var d, c := Comb(0), OneBit(9);
    CombFacts(0);
    CombIsDeep(0);
    NoBitIsFirst();
    FirstHasNothingBefore(d, c);
    forall x | FirstDeep(d, x)
      ensures x == c
    {
      OneFirstDeep(d, c, x);
    }
  }
}
