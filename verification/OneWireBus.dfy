/** A 1-Wire bus with its devices, as far as the ROM search uses it
    (pxbee/drivers/1-wire/one_wire.c): reset and presence, the search command, wired-AND reads
    and the bit that silences the devices that disagree. */
module OneWireBus {
  import opened Bits
  import opened RomTrie
  import opened Words

  const SEARCH_ROM: Byte := 0xF0

  class Bus {
    const devices: set<Rom>
    /** The line is held low all the time. */
    const shorted: bool
    /** The devices still taking part, and the bit of the code they are at. */
    var active: set<Rom>
    var index: nat
    /** 0: the bit is read next, 1: its complement, 2: the master's choice is written next. */
    var phase: nat
    var searching: bool

    ghost predicate Valid()
      reads this
    {
      && Codes(devices) && active <= devices && Codes(active)
      && index <= CODE_BITS && phase < 3
    }

    constructor (devices: set<Rom>, shorted: bool)
      requires Codes(devices)
      ensures Valid() && this.devices == devices && this.shorted == shorted
    {
      this.devices, this.shorted := devices, shorted;
      active := {};
      index, phase, searching := 0, 0, false;
    }

    /** Reset: the line is sampled in the presence slot, where any device pulls it low, and after
        it, when it must be high again. */
    method Reset() returns (ret: int)
      requires Valid()
      modifies this
      ensures Valid() && !searching
      ensures ret == if shorted then -ETIMEDOUT else if devices == {} then -ENODEV else 0
    {
      searching := false;
      var high := !shorted && devices == {};
      if high {
        return -ENODEV;
      }
      high := !shorted;
      if !high {
        return -ETIMEDOUT;
      }
      ret := 0;
    }

    method WriteByte(b: Byte)
      requires Valid()
      modifies this
      ensures Valid() && searching == (b == SEARCH_ROM)
      ensures searching ==> active == devices && index == 0 && phase == 0
    {
      searching := b == SEARCH_ROM;
      if searching {
        active, index, phase := devices, 0, 0;
      }
    }

    /** All active devices drive the line at once; it is high only if none pulls it low. */
    method ReadBit() returns (bit: bool)
      requires Valid() && searching && index < CODE_BITS && phase < 2
      modifies this
      ensures Valid() && searching && active == old(active) && index == old(index) && phase == old(phase) + 1
      ensures bit == if old(phase) == 0 then forall c :: c in active ==> CodeBit(c, index)
                                        else forall c :: c in active ==> !CodeBit(c, index)
    {
      bit := if phase == 0 then forall c :: c in active ==> CodeBit(c, index)
                           else forall c :: c in active ==> !CodeBit(c, index);
      phase := phase + 1;
    }

    /** Devices whose bit differs drop out until the next reset. */
    method WriteBit(bit: bool)
      requires Valid() && searching && index < CODE_BITS && phase == 2
      modifies this
      ensures Valid() && searching && phase == 0 && index == old(index) + 1
      ensures active == Side(old(active), old(index), bit)
    {
      active := set c | c in active && CodeBit(c, index) == bit;
      index, phase := index + 1, 0;
    }
  }

  /** The two reads tell the master which bit values occur among the active devices. */
  lemma ReadsTellForks(a: set<Rom>, j: nat)
    requires Codes(a) && a != {} && j < CODE_BITS
    ensures var bit := forall c :: c in a ==> CodeBit(c, j);
            var chk := forall c :: c in a ==> !CodeBit(c, j);
            && !(bit && chk)
            && Forked(a, j) == (!bit && !chk)
            && (!Forked(a, j) ==> bit == (Side(a, j, true) != {}))
  {
    hide CodeBit;
    var c :| c in a;
    if d :| d in a && !CodeBit(d, j) {
      assert d in Side(a, j, false);
    }
    if d :| d in a && CodeBit(d, j) {
      assert d in Side(a, j, true);
    }
  }

  /** The ROM search command of the 1-Wire protocol. */
  lemma SearchCommand()
    ensures SEARCH_ROM == 0xF0
  {
  }
}
