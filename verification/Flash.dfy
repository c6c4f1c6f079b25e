/** The two flash pages that hold the virtual EEPROM, seen as the byte-program and
    page-erase commands see them (pxbee/cpu/flash.c, 32 KB variant).

    Addresses are relative to the first page. A program command can only clear bits
    (`old & new`); an erase command sets a whole page to 0xFF. The device keeps the list of
    commands it has executed, so that losing power between two commands is the same thing
    as executing only a prefix of that list. */
module Flash {
  import opened Bits

  const PAGE_SIZE: nat := 512
  const FLASH_SIZE: nat := 2 * PAGE_SIZE
  const ERASED: Byte := 0xFF

  datatype Command = Program(addr: nat, value: Byte) | ErasePage(page: nat)

  /** The effect of one command on the contents of the flash. */
  function Step(m: seq<Byte>, c: Command): (r: seq<Byte>)
    ensures |r| == |m|
  {
    match c
    case Program(addr, value) =>
      if addr < |m| then m[addr := m[addr] & value] else m
    case ErasePage(page) =>
      seq(|m|, i requires 0 <= i < |m| => if page * PAGE_SIZE <= i < (page + 1) * PAGE_SIZE then ERASED else m[i])
  }

  /** The effect of a list of commands, executed from left to right. */
  function Run(m: seq<Byte>, cs: seq<Command>): (r: seq<Byte>)
    ensures |r| == |m|
  {
    if cs == [] then m else Step(Run(m, cs[..|cs| - 1]), cs[|cs| - 1])
  }

  lemma RunNone(m: seq<Byte>)
    ensures Run(m, []) == m
  {
  }

  lemma RunSnoc(m: seq<Byte>, cs: seq<Command>, c: Command)
    ensures Run(m, cs + [c]) == Step(Run(m, cs), c)
  {
    assert (cs + [c])[..|cs|] == cs;
  }

  lemma {:induction false} RunConcat(m: seq<Byte>, a: seq<Command>, b: seq<Command>)
    ensures Run(m, a + b) == Run(Run(m, a), b)
  {
    if b == [] {
      assert a + b == a;
    } else {
      var n := |b| - 1;
      RunConcat(m, a, b[..n]);
      assert (a + b)[..|a + b| - 1] == a + b[..n];
    }
  }

  /** What has been executed when power is lost after `k` commands. */
  function Cut(cs: seq<Command>, k: nat): (r: seq<Command>)
    ensures r <= cs
  {
    if k <= |cs| then cs[..k] else cs
  }

  /** The commands that program the bytes of `data` one after the other from `addr`. */
  function Programs(addr: nat, data: seq<Byte>): (cs: seq<Command>)
    ensures |cs| == |data|
  {
    seq(|data|, i requires 0 <= i < |data| => Program(addr + i, data[i]))
  }

  lemma ProgramsPrefix(addr: nat, data: seq<Byte>, k: nat)
    requires k <= |data|
    ensures Programs(addr, data)[..k] == Programs(addr, data[..k])
  {
  }

  lemma ProgramsSnoc(addr: nat, data: seq<Byte>, k: nat)
    requires k < |data|
    ensures Programs(addr, data[..k + 1]) == Programs(addr, data[..k]) + [Program(addr + k, data[k])]
  {
  }

  /** `m` with the bits of `data` cleared into the range that starts at `addr`. */
  function Overlay(m: seq<Byte>, addr: nat, data: seq<Byte>): (r: seq<Byte>)
    requires addr + |data| <= |m|
    ensures |r| == |m|
  {
    seq(|m|, i requires 0 <= i < |m| => if addr <= i < addr + |data| then m[i] & data[i - addr] else m[i])
  }

  lemma OverlaySnoc(m: seq<Byte>, addr: nat, data: seq<Byte>)
    requires 0 < |data| && addr + |data| <= |m|
    ensures var n := |data| - 1;
            Overlay(m, addr, data) == Step(Overlay(m, addr, data[..n]), Program(addr + n, data[n]))
  {
    var n := |data| - 1;
    var l, r := Overlay(m, addr, data), Step(Overlay(m, addr, data[..n]), Program(addr + n, data[n]));
    forall i | 0 <= i < |m|
      ensures l[i] == r[i]
    {
    }
  }

  /** Programming a range clears bits inside the range and touches nothing else. */
  lemma {:induction false} RunPrograms(m: seq<Byte>, addr: nat, data: seq<Byte>)
    requires addr + |data| <= |m|
    ensures Run(m, Programs(addr, data)) == Overlay(m, addr, data)
  {
    if data == [] {
      assert Overlay(m, addr, data) == m;
    } else {
      var n := |data| - 1;
      RunPrograms(m, addr, data[..n]);
      ProgramsSnoc(addr, data, n);
      assert data[..n + 1] == data;
      RunSnoc(m, Programs(addr, data[..n]), Program(addr + n, data[n]));
      OverlaySnoc(m, addr, data);
    }
  }

  class FlashDevice {
    const cells: array<Byte>
    ghost var log: seq<Command>

    ghost predicate Valid()
      reads this
    {
      cells.Length == FLASH_SIZE
    }

    constructor (initial: seq<Byte>)
      requires |initial| == FLASH_SIZE
      ensures Valid() && cells[..] == initial && log == [] && fresh(cells)
    {
      cells := new Byte[FLASH_SIZE](i requires 0 <= i < FLASH_SIZE => initial[i]);
      log := [];
      new;
      assert cells[..] == initial;
    }

    /** One byte-program command; the number of bytes written is returned. */
    method ProgramByte(addr: nat, value: Byte) returns (ret: int)
      requires Valid() && addr < FLASH_SIZE
      modifies this`log, cells
      ensures cells[..] == Step(old(cells[..]), Program(addr, value))
      ensures log == old(log) + [Program(addr, value)] && ret == 1
    {
      ret := 1;
      cells[addr] := cells[addr] & value;
      log := log + [Program(addr, value)];
    }

    /** One page-erase command. */
    method ErasePageAt(page: nat) returns (ret: int)
      requires Valid() && page < 2
      modifies this`log, cells
      ensures cells[..] == Step(old(cells[..]), ErasePage(page))
      ensures log == old(log) + [ErasePage(page)] && ret == 0
    {
      ret := 0;
      forall i | page * PAGE_SIZE <= i < (page + 1) * PAGE_SIZE {
        cells[i] := ERASED;
      }
      log := log + [ErasePage(page)];
    }

    /** Programs a whole buffer and returns the number of bytes written. */
    method ProgramBuffer(addr: nat, buf: seq<Byte>) returns (written: nat)
      requires Valid() && addr + |buf| <= FLASH_SIZE
      modifies this`log, cells
      ensures cells[..] == Run(old(cells[..]), Programs(addr, buf))
      ensures log == old(log) + Programs(addr, buf)
      ensures written == |buf|
    {
      written := 0;
      while written < |buf|
        invariant written <= |buf|
        invariant cells[..] == Run(old(cells[..]), Programs(addr, buf[..written]))
        invariant log == old(log) + Programs(addr, buf[..written])
      {
        var _ := ProgramByte(addr + written, buf[written]);
        ProgramsSnoc(addr, buf, written);
        RunSnoc(old(cells[..]), Programs(addr, buf[..written]), Program(addr + written, buf[written]));
        written := written + 1;
      }
      assert buf[..written] == buf;
    }
  }

  /** What the two commands do to a byte: 0xF0 programmed over 0x3C, and any byte erased. */
  lemma CommandsOnBytes(m: seq<Byte>)
    requires |m| == FLASH_SIZE && m[700] == 0x3C
    ensures Step(m, Program(700, 0xF0)) == m[700 := 0x30]
    ensures Step(m, ErasePage(1)) == m[..512] + seq(512, _ => 0xFF)
  {
    assert 0x3C & 0xF0 == 0x30 as Byte;
  }
}
