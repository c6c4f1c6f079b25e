/** The SPI EEPROM driver (pxbee/drivers/eeprom/25xxxx.c) and the device it talks to: a memory
    of whole pages whose writes wrap around within a page, need the write-enable latch and keep
    the device busy for a while, and whose reads roll over at the end of the memory. */
module SpiEeprom {
  import opened Arithmetic
  import opened Bits
  import opened Words

  const WRITE_CHUNK_TOUT: nat := 100

  function Power256(n: nat): nat { if n == 0 then 1 else 256 * Power256(n - 1) }

  /** The address bytes of a command, for devices with one, two or three of them. */
  function AddressBytes(addr: nat, n: nat): seq<nat>
    requires 1 <= n <= 3
  {
    if n == 1 then [addr % 256]
    else if n == 2 then [addr / 256 % 256, addr % 256]
    else [addr / 65536 % 256, addr / 256 % 256, addr % 256]
  }

  /** The address as the device puts it together. */
  function Decode(bytes: seq<nat>): nat {
    if bytes == [] then 0 else 256 * Decode(bytes[..|bytes| - 1]) + bytes[|bytes| - 1]
  }

  lemma SplitLowByte(x: nat)
    ensures x % 65536 == 256 * (x / 256 % 256) + x % 256
    ensures x / 65536 == x / 256 / 256
    ensures x % 0x100_0000 == 256 * (x / 256 % 65536) + x % 256
  {
    var q, b := x / 256, x % 256;
    DivisionIsUnique(x, 65536, q / 256, 256 * (q % 256) + b);
    DivisionIsUnique(x, 0x100_0000, q / 65536, 256 * (q % 65536) + b);
  }

  lemma DecodeSnoc(bytes: seq<nat>, b: nat)
    ensures Decode(bytes + [b]) == 256 * Decode(bytes) + b
  {
    assert (bytes + [b])[..|bytes|] == bytes;
  }

  lemma AddressArrives(addr: nat, n: nat)
    requires 1 <= n <= 3
    ensures Decode(AddressBytes(addr, n)) == addr % Power256(n)
  {
    hide Decode;
    assert Power256(1) == 256 && Power256(2) == 65536 && Power256(3) == 0x100_0000 by {
      assert Power256(3) == 256 * Power256(2) && Power256(2) == 256 * Power256(1) && Power256(1) == 256 * Power256(0);
    }
    var b0, b1, b2 := addr % 256, addr / 256 % 256, addr / 65536 % 256;
    assert Decode([]) == 0 by { DecodeNone(); }
    SplitLowByte(addr);
    if n == 1 {
      DecodeSnoc([], b0);
      assert [] + [b0] == [b0];
    } else if n == 2 {
      DecodeSnoc([], b1);
      assert [] + [b1] == [b1];
      DecodeSnoc([b1], b0);
      assert [b1] + [b0] == [b1, b0] == AddressBytes(addr, n);
    } else {
      SplitLowByte(addr / 256);
      DecodeSnoc([], b2);
      assert [] + [b2] == [b2];
      DecodeSnoc([b2], b1);
      DecodeSnoc([b2, b1], b0);
      assert [b2] + [b1] == [b2, b1] && [b2, b1] + [b0] == [b2, b1, b0] == AddressBytes(addr, n);
      assert addr % 0x100_0000 == 256 * (256 * b2 + b1) + b0;
    }
  }

  lemma DecodeNone()
    ensures Decode([]) == 0
  {
  }

  // Memory

  /** The memory after the bytes of `data` are written from `addr` on, addresses being taken
      modulo the size of the memory. */
  function Put(m: seq<Byte>, addr: nat, data: seq<Byte>): (r: seq<Byte>)
    requires m != []
    ensures |r| == |m|
    decreases |data|
  {
    if data == [] then m else Put(m[addr % |m| := data[0]], addr + 1, data[1..])
  }

  function Fetch(m: seq<Byte>, addr: nat, n: nat): (d: seq<Byte>)
    requires m != []
    ensures |d| == n
  {
    seq(n, i requires 0 <= i < n => m[(addr + i) % |m|])
  }

  predicate Paged(m: seq<Byte>, pageSize: nat)
    requires 0 < pageSize
  {
    m != [] && |m| % pageSize == 0
  }

  /** What the device does with a write into the page that starts at `base`: the offset wraps
      within the page. */
  function PutInPage(m: seq<Byte>, base: nat, pageSize: nat, off: nat, data: seq<Byte>): (r: seq<Byte>)
    requires 0 < pageSize && base + pageSize <= |m| && off < pageSize
    ensures |r| == |m|
    decreases |data|
  {
    if data == [] then m
    else PutInPage(m[base + off := data[0]], base, pageSize, (off + 1) % pageSize, data[1..])
  }

  /** The start of the page of size `p` that address `a` is in. */
  function PageBase(a: nat, p: nat): (b: nat)
    requires 0 < p
    ensures b <= a < b + p && a == b + a % p
  {
    a - a % p
  }

  /** A write command at address `a` of a memory of whole pages. */
  function StoreAt(m: seq<Byte>, pageSize: nat, a: nat, data: seq<Byte>): (r: seq<Byte>)
    requires 0 < pageSize && Paged(m, pageSize) && a < |m|
    ensures |r| == |m|
  {
    PageEnd(a, |m|, pageSize);
    PutInPage(m, PageBase(a, pageSize), pageSize, a % pageSize, data)
  }

  lemma {:induction false} PutConcat(m: seq<Byte>, addr: nat, a: seq<Byte>, b: seq<Byte>)
    requires m != []
    ensures Put(m, addr, a + b) == Put(Put(m, addr, a), addr + |a|, b)
    decreases |a|
  {
    if a == [] {
      assert a + b == b;
    } else {
      assert (a + b)[1..] == a[1..] + b;
      PutConcat(m[addr % |m| := a[0]], addr + 1, a[1..], b);
    }
  }

  lemma {:induction false} PutModulo(m: seq<Byte>, a: nat, b: nat, data: seq<Byte>)
    requires m != [] && a % |m| == b % |m|
    ensures Put(m, a, data) == Put(m, b, data)
    decreases |data|
  {
    if data != [] {
      SumRemainder(a, 1, |m|);
      SumRemainder(b, 1, |m|);
      PutModulo(m[a % |m| := data[0]], a + 1, b + 1, data[1..]);
    }
  }

  /** As long as a write does not reach the end of its page the page does not matter. */
  lemma {:induction false} InsideAPage(m: seq<Byte>, base: nat, pageSize: nat, off: nat, data: seq<Byte>)
    requires 0 < pageSize && base + pageSize <= |m| && off < pageSize && off + |data| <= pageSize
    ensures PutInPage(m, base, pageSize, off, data) == Put(m, base + off, data)
    decreases |data|
  {
    if data != [] {
      DivisionIsUnique(base + off, |m|, 0, base + off);
      if |data| == 1 {
        assert data[1..] == [];
      } else {
        DivisionIsUnique(off + 1, pageSize, 0, off + 1);
        InsideAPage(m[base + off := data[0]], base, pageSize, off + 1, data[1..]);
      }
    }
  }

  /** What the device stores for a chunk that ends at or before its page boundary. */
  lemma ChunkIsPut(m: seq<Byte>, pageSize: nat, addr: nat, data: seq<Byte>)
    requires 0 < pageSize && Paged(m, pageSize) && addr % pageSize + |data| <= pageSize
    ensures StoreAt(m, pageSize, addr % |m|, data) == Put(m, addr, data)
  {
    hide Put, PutInPage;
    var a := addr % |m|;
    NestedRemainder(addr, |m|, pageSize);
    PageEnd(a, |m|, pageSize);
    InsideAPage(m, PageBase(a, pageSize), pageSize, a % pageSize, data);
    DivisionIsUnique(a, |m|, 0, a);
    PutModulo(m, a, addr, data);
  }

  lemma PutInPageStep(m: seq<Byte>, base: nat, pageSize: nat, off: nat, data: seq<Byte>)
    requires 0 < pageSize && base + pageSize <= |m| && off < pageSize && data != []
    ensures PutInPage(m, base, pageSize, off, data)
         == PutInPage(m[base + off := data[0]], base, pageSize, (off + 1) % pageSize, data[1..])
  {
  }

  lemma PutInPageNone(m: seq<Byte>, base: nat, pageSize: nat, off: nat)
    requires 0 < pageSize && base + pageSize <= |m| && off < pageSize
    ensures PutInPage(m, base, pageSize, off, []) == m
  {
  }

  class Device {
    const mem: array<Byte>
    const pageSize: nat
    const addrBytes: nat
    /** How many status reads after a write still show it in progress. */
    const latency: nat
    var writeEnabled: bool
    var busy: nat
    /** Some write command has run past the end of its page. */
    ghost var crossed: bool

    ghost predicate Valid()
      reads this, mem
    {
      && 0 < pageSize <= 0x7FFF && Paged(mem[..], pageSize) && 1 <= addrBytes <= 3
      && Power256(addrBytes) % mem.Length == 0 && busy <= latency && (busy > 0 ==> writeEnabled)
    }

    constructor (mem: array<Byte>, pageSize: nat, addrBytes: nat, latency: nat)
      requires 0 < pageSize <= 0x7FFF && Paged(mem[..], pageSize) && 1 <= addrBytes <= 3
      requires Power256(addrBytes) % mem.Length == 0
      ensures Valid() && this.mem == mem && this.pageSize == pageSize && this.latency == latency
      ensures !writeEnabled && busy == 0 && !crossed
    {
      this.mem, this.pageSize, this.addrBytes, this.latency := mem, pageSize, addrBytes, latency;
      writeEnabled, busy, crossed := false, 0, false;
    }

    method WriteEnable()
      requires Valid()
      modifies this
      ensures Valid() && busy == old(busy) && crossed == old(crossed)
      ensures writeEnabled == (old(writeEnabled) || busy == 0)
    {
      if busy == 0 {
        writeEnabled := true;
      }
    }

    /** The two status bits. When a write completes the latch is reset. */
    method ReadStatus() returns (wip: bool, wel: bool)
      requires Valid()
      modifies this
      ensures Valid() && wip == (old(busy) > 0) && wel == old(writeEnabled)
      ensures busy == (if old(busy) > 0 then old(busy) - 1 else 0)
      ensures writeEnabled == (old(writeEnabled) && old(busy) != 1) && crossed == old(crossed)
    {
      wip, wel := busy > 0, writeEnabled;
      if busy > 0 {
        busy := busy - 1;
        if busy == 0 {
          writeEnabled := false;
        }
      }
    }

    /** A write command; it is ignored while the latch is not set or a write is in progress. */
    method WriteCommand(address: seq<nat>, data: seq<Byte>)
      requires Valid()
      modifies this, mem
      ensures Valid()
      ensures !(old(writeEnabled) && old(busy) == 0) ==>
                && mem[..] == old(mem[..]) && busy == old(busy)
                && writeEnabled == old(writeEnabled) && crossed == old(crossed)
      ensures old(writeEnabled) && old(busy) == 0 ==>
                && mem[..] == StoreAt(old(mem[..]), pageSize, Decode(address) % mem.Length, data)
                && busy == latency && writeEnabled == (latency != 0)
                && crossed == (old(crossed) || Decode(address) % mem.Length % pageSize + |data| > pageSize)
    {
      if writeEnabled && busy == 0 {
        var a := Decode(address) % mem.Length;
        PageEnd(a, mem.Length, pageSize);
        StoreInPage(PageBase(a, pageSize), a % pageSize, data);
        busy := latency;
        writeEnabled := latency != 0;
        crossed := crossed || a % pageSize + |data| > pageSize;
      }
    }

    /** Stores the bytes of a write command in one page. */
    method StoreInPage(base: nat, start: nat, data: seq<Byte>)
      requires 0 < pageSize && base + pageSize <= mem.Length && start < pageSize
      modifies mem
      ensures mem[..] == PutInPage(old(mem[..]), base, pageSize, start, data)
    {
      hide PutInPage;
      var i: nat, off: nat := 0, start;
      assert data[0..] == data;
      while i < |data|
        invariant i <= |data| && off < pageSize
        invariant PutInPage(old(mem[..]), base, pageSize, start, data)
               == PutInPage(mem[..], base, pageSize, off, data[i..])
      {
        ghost var was := mem[..];
        PutInPageStep(was, base, pageSize, off, data[i..]);
        mem[base + off] := data[i];
        assert mem[..] == was[base + off := data[i]];
        assert data[i..][1..] == data[i + 1..];
        off := (off + 1) % pageSize;
        i := i + 1;
      }
      PutInPageNone(mem[..], base, pageSize, off);
      assert data[|data|..] == [];
    }

    /** A read command delivers as many bytes as are clocked out. */
    method ReadCommand(address: seq<nat>, n: nat) returns (data: seq<Byte>)
      requires Valid()
      ensures busy == 0 ==> data == Fetch(mem[..], Decode(address), n)
    {
      data := [];
      var a := Decode(address);
      while |data| < n
        invariant |data| <= n
        invariant forall i :: 0 <= i < |data| ==> data[i] == mem[(a + i) % mem.Length]
      {
        data := data + [mem[(a + |data|) % mem.Length]];
      }
    }
  }

  /** How long a device is still busy after the 100 polls of a timeout. */
  function StillBusy(busy: nat): nat { if busy > 100 then busy - 100 else 0 }

  /** The status is polled at most 100 times; the hundredth poll is one too many, even when it
      finds the device ready. */
  method WaitReady(dev: Device) returns (timeout: nat)
    requires dev.Valid()
    modifies dev
    ensures dev.Valid()
    ensures timeout < WRITE_CHUNK_TOUT <==> old(dev.busy) <= 98
    ensures timeout < WRITE_CHUNK_TOUT ==>
              dev.busy == 0 && dev.writeEnabled == (old(dev.writeEnabled) && old(dev.busy) == 0)
    ensures timeout >= WRITE_CHUNK_TOUT ==> dev.busy == StillBusy(old(dev.busy))
    ensures dev.crossed == old(dev.crossed)
  {
    timeout := 0;
    while true
      invariant timeout <= WRITE_CHUNK_TOUT && dev.Valid() && dev.crossed == old(dev.crossed)
      invariant timeout <= old(dev.busy) && dev.busy == old(dev.busy) - timeout
      invariant dev.writeEnabled == (old(dev.writeEnabled) && (old(dev.busy) == 0 || dev.busy > 0))
      decreases WRITE_CHUNK_TOUT - timeout
    {
      var go := timeout < WRITE_CHUNK_TOUT;
      timeout := timeout + 1;
      if !go {
        break;
      }
      var wip, _ := dev.ReadStatus();
      if !wip {
        break;
      }
    }
  }

  /** How many bytes from `at` on share its page. */
  function Room(dev: Device, at: nat): nat
    requires dev.pageSize > 0
  {
    dev.pageSize - at % dev.pageSize
  }

  /** One turn of the loop of `eeprom_spi_write`: as much as still fits the page. A device that is
      busy ignores it, and reports success all the same. */
  method WriteChunk(dev: Device, data: seq<Byte>, at: nat) returns (ok: bool, chunk: nat)
    requires dev.Valid() && 0 < |data| <= 0x7FFF && at < WORD32
    modifies dev, dev.mem
    ensures dev.Valid() && dev.crossed == old(dev.crossed)
    ensures chunk == Minimum(|data|, Room(dev, at))
    ensures old(dev.busy) == 0 ==>
              dev.mem[..] == Put(old(dev.mem[..]), at, data[..chunk]) && ok == (dev.latency <= 98)
    ensures old(dev.busy) > 0 ==> dev.mem[..] == old(dev.mem[..]) && ok == (old(dev.busy) <= 99)
    ensures ok ==> dev.busy == 0 && !dev.writeEnabled
    ensures !ok ==> dev.busy == StillBusy(if old(dev.busy) == 0 then dev.latency else old(dev.busy) - 1)
  {
    hide Put, StoreAt, Decode, AddressBytes;
    var curPageSize := dev.pageSize - at % dev.pageSize;
    chunk := |data|;
    if chunk > curPageSize {
      chunk := curPageSize;
    }
    dev.WriteEnable();
    var _, wel := dev.ReadStatus();
    if !wel {
      return false, chunk;
    }
    ghost var before := dev.mem[..];
    dev.WriteCommand(AddressBytes(at, dev.addrBytes), data[..chunk]);
    ChunkArrives(before, dev.pageSize, dev.addrBytes, at, data[..chunk]);
    var timeout := WaitReady(dev);
    ok := timeout < WRITE_CHUNK_TOUT;
  }

  /** The same turn, seen as part of the whole write. */
  method WriteTurn(dev: Device, data: seq<Byte>, len: nat, written: nat, at: nat, ghost m: seq<Byte>, ghost addr: nat,
                   ghost lost: nat)
    returns (ok: bool, chunk: nat)
    requires dev.Valid() && written < len <= 0x7FFF && len <= |data| && at == (addr + written) % WORD32
    requires |m| == dev.mem.Length && m != []
    requires dev.busy == 0 ==> lost <= written && dev.mem[..] == Put(m, addr + lost, data[lost..written])
    modifies dev, dev.mem
    ensures dev.Valid() && dev.crossed == old(dev.crossed)
    ensures chunk == Minimum(len - written, Room(dev, addr + written)) && written + chunk <= len
    ensures old(dev.busy) == 0 ==>
              dev.mem[..] == Put(m, addr + lost, data[lost..written + chunk]) && ok == (dev.latency <= 98)
    ensures old(dev.busy) > 0 ==> dev.mem[..] == old(dev.mem[..]) && ok == (old(dev.busy) <= 99)
    ensures ok ==> dev.busy == 0 && !dev.writeEnabled
    ensures !ok ==> dev.busy == StillBusy(if old(dev.busy) == 0 then dev.latency else old(dev.busy) - 1)
  {
    hide Put, Room, Minimum, Power256, StillBusy;
    ghost var before, busy := dev.mem[..], dev.busy;
    AddressWraps(before, dev.addrBytes, dev.pageSize, addr + written);
    SameRoom(dev, at, addr + written);
    Lost(dev, at, len - written);
    ok, chunk := WriteChunk(dev, data[written..len], at);
    if busy == 0 {
      assert data[written..len][..chunk] == data[written..][..chunk];
      ChunkJoins(m, before, data, addr, lost, written, at, chunk);
    }
  }

  /** `eeprom_spi_write`. The first chunk is lost if the device is still busy with an earlier
      write; everything else arrives if the device is not too slow. */
  method Write(dev: Device, data: seq<Byte>, addr: nat, len: nat) returns (ret: int)
    requires dev.Valid() && len <= 0x7FFF && len <= |data| && addr < WORD32
    modifies dev, dev.mem
    ensures dev.Valid() && dev.crossed == old(dev.crossed)
    ensures len == 0 ==> ret == (if old(dev.writeEnabled) then -EIO else 0) && dev.mem[..] == old(dev.mem[..])
    ensures len > 0 && old(dev.busy) > 99 ==>
              ret == -EIO && dev.mem[..] == old(dev.mem[..]) && dev.busy == StillBusy(old(dev.busy) - 1)
    ensures len > 0 && old(dev.busy) <= 99 ==>
              var lost := if old(dev.busy) == 0 then 0 else Minimum(len, Room(dev, addr));
              if dev.latency <= 98 || lost == len then
                && ret == len && !dev.writeEnabled && dev.busy == 0
                && dev.mem[..] == Put(old(dev.mem[..]), addr + lost, data[lost..len])
              else
                && ret == -EIO && dev.busy == StillBusy(dev.latency)
                && dev.mem[..] == Put(old(dev.mem[..]), addr + lost,
                                      data[lost..lost + Minimum(len - lost, Room(dev, addr + lost))])
  {
    hide Put, Room, Minimum, Power256, StillBusy;
    var written, at := 0, addr;
    ghost var m := dev.mem[..];
    ghost var lost := if dev.busy == 0 then 0 else Minimum(len, Room(dev, addr));
    Lost(dev, addr, len);
    PutNone(m, addr + lost);
    while written < len
      invariant written <= len && at == (addr + written) % WORD32 && dev.Valid() && dev.crossed == old(dev.crossed)
      invariant if written == 0 then
                  dev.busy == old(dev.busy) && dev.writeEnabled == old(dev.writeEnabled) && dev.mem[..] == m
                else
                  && dev.busy == 0 && !dev.writeEnabled && lost <= written && old(dev.busy) <= 99
                  && (dev.latency <= 98 || lost == written)
                  && dev.mem[..] == Put(m, addr + lost, data[lost..written])
    {
      Lost(dev, addr + written, len - written);
      assert data[lost..lost] == [];
      var ok, chunk := WriteTurn(dev, data, len, written, at, m, addr, lost);
      if !ok {
        return -EIO;
      }
      SumRemainder(addr + written, chunk, WORD32);
      written := written + chunk;
      at := (at + chunk) % WORD32;
    }
    var _, wel := dev.ReadStatus();
    if wel {
      return -EIO;
    }
    return written;
  }

  /** A caller that writes again after a timeout. The device is then still busy if it needs more than
      100 polls; with up to 199 the second write reports success and is lost, however different
      its data. */
  method WriteTwice(dev: Device, data: seq<Byte>, other: seq<Byte>, addr: nat, len: nat)
    returns (first: int, second: int)
    requires dev.Valid() && dev.busy == 0 && 100 < dev.latency && addr < WORD32
    requires 0 < len <= 0x7FFF && len <= |data| && len <= |other| && len <= Room(dev, addr)
    modifies dev, dev.mem
    ensures first == -EIO && second == (if dev.latency <= 199 then len else -EIO)
    ensures dev.mem[..] == Put(old(dev.mem[..]), addr, data[..len])
  {
    hide Put;
    assert data[0..len] == data[..len] && other[len..len] == [];
    first := Write(dev, data, addr, len);
    PutNone(dev.mem[..], addr + len);
    second := Write(dev, other, addr, len);
  }

  lemma Lost(dev: Device, at: nat, n: nat)
    requires dev.pageSize > 0
    ensures 0 <= Minimum(n, Room(dev, at)) <= n && (n > 0 ==> Minimum(n, Room(dev, at)) > 0)
  {
  }

  lemma SameRoom(dev: Device, at: nat, x: nat)
    requires dev.pageSize > 0 && at % dev.pageSize == x % dev.pageSize
    ensures Room(dev, at) == Room(dev, x)
  {
  }

  lemma PutNone(m: seq<Byte>, addr: nat)
    requires m != []
    ensures Put(m, addr, []) == m
  {
  }

  /** The 32-bit address may wrap: pages and memories divide it. */
  lemma AddressWraps(m: seq<Byte>, addrBytes: nat, pageSize: nat, x: nat)
    requires 0 < pageSize && Paged(m, pageSize) && 1 <= addrBytes <= 3 && Power256(addrBytes) % |m| == 0
    ensures x % WORD32 % |m| == x % |m| && x % WORD32 % pageSize == x % pageSize
  {
    PowersDivide(addrBytes);
    NestedRemainder(WORD32, Power256(addrBytes), |m|);
    DivisionIsUnique(0, |m|, 0, 0);
    NestedRemainder(x, WORD32, |m|);
    NestedRemainder(WORD32, |m|, pageSize);
    DivisionIsUnique(0, pageSize, 0, 0);
    NestedRemainder(x, WORD32, pageSize);
  }

  lemma PowersDivide(n: nat)
    requires 1 <= n <= 3
    ensures Power256(n) > 0 && WORD32 % Power256(n) == 0
  {
    assert Power256(3) == 256 * Power256(2) && Power256(2) == 256 * Power256(1) && Power256(1) == 256 * Power256(0);
  }

  /** A chunk that arrives continues what has arrived before. */
  lemma ChunkJoins(m: seq<Byte>, before: seq<Byte>, data: seq<Byte>, addr: nat, lost: nat, written: nat,
                   at: nat, chunk: nat)
    requires m != [] && |before| == |m| && lost <= written && written + chunk <= |data|
    requires before == Put(m, addr + lost, data[lost..written]) && at % |m| == (addr + written) % |m|
    ensures Put(before, at, data[written..][..chunk]) == Put(m, addr + lost, data[lost..written + chunk])
  {
    hide Put;
    var done, more := data[lost..written], data[written..][..chunk];
    PutModulo(before, at, addr + written, more);
    PutConcat(m, addr + lost, done, more);
    assert done + more == data[lost..written + chunk];
  }

  lemma ChunkArrives(m: seq<Byte>, pageSize: nat, addrBytes: nat, addr: nat, data: seq<Byte>)
    requires 0 < pageSize && Paged(m, pageSize) && 1 <= addrBytes <= 3 && Power256(addrBytes) % |m| == 0
    requires addr % pageSize + |data| <= pageSize
    ensures var a := Decode(AddressBytes(addr, addrBytes)) % |m|;
            StoreAt(m, pageSize, a, data) == Put(m, addr, data) && a % pageSize + |data| <= pageSize
  {
    hide Decode, AddressBytes, StoreAt, Put;
    AddressArrives(addr, addrBytes);
    NestedRemainder(addr, Power256(addrBytes), |m|);
    NestedRemainder(addr, |m|, pageSize);
    ChunkIsPut(m, pageSize, addr, data);
  }

  /** `eeprom_spi_read`. */
  method Read(dev: Device, addr: nat, len: nat) returns (ret: int, data: seq<Byte>)
    requires dev.Valid() && len <= 0x7FFF && addr < WORD32
    modifies dev
    ensures dev.Valid() && dev.mem[..] == old(dev.mem[..])
    ensures len > 0 && old(dev.busy) > 98 ==> ret == -EIO
    ensures len == 0 || old(dev.busy) <= 98 ==> ret == len && data == Fetch(dev.mem[..], addr, len)
  {
    var read, at := 0, addr;
    data := [];
    while read < len
      invariant read <= len && at == (addr + read) % WORD32 && dev.Valid()
      invariant data == Fetch(dev.mem[..], addr, read)
      invariant read > 0 ==> dev.busy == 0 && old(dev.busy) <= 98
      invariant read == 0 ==> dev.busy == old(dev.busy)
    {
      var chunk := len - read;
      if chunk > dev.pageSize {
        chunk := dev.pageSize;
      }
      var timeout := WaitReady(dev);
      if timeout >= WRITE_CHUNK_TOUT {
        return -EIO, data;
      }
      var got := dev.ReadCommand(AddressBytes(at, dev.addrBytes), chunk);
      AddressWraps(dev.mem[..], dev.addrBytes, dev.pageSize, addr + read);
      FetchArrives(dev.mem[..], dev.addrBytes, addr, read, at, chunk);
      SumRemainder(addr + read, chunk, WORD32);
      data := data + got;
      read := read + chunk;
      at := (at + chunk) % WORD32;
    }
    return read, data;
  }

  lemma FetchArrives(m: seq<Byte>, addrBytes: nat, addr: nat, read: nat, at: nat, chunk: nat)
    requires m != [] && 1 <= addrBytes <= 3 && Power256(addrBytes) % |m| == 0 && at % |m| == (addr + read) % |m|
    ensures Fetch(m, addr, read) + Fetch(m, Decode(AddressBytes(at, addrBytes)), chunk) == Fetch(m, addr, read + chunk)
  {
    hide Decode, AddressBytes;
    AddressArrives(at, addrBytes);
    var d := Decode(AddressBytes(at, addrBytes));
    NestedRemainder(at, Power256(addrBytes), |m|);
    forall i | 0 <= i < chunk
      ensures Fetch(m, d, chunk)[i] == Fetch(m, addr, read + chunk)[read + i]
    {
      SumRemainder(d, i, |m|);
      SumRemainder(at, i, |m|);
      SumRemainder(addr + read, i, |m|);
    }
    assert Fetch(m, addr, read) == Fetch(m, addr, read + chunk)[..read];
  }

  /** Writing within the memory is the flat splice of the data. */
  lemma {:induction false} PutIsSplice(m: seq<Byte>, addr: nat, data: seq<Byte>)
    requires m != [] && addr + |data| <= |m|
    ensures Put(m, addr, data) == m[..addr] + data + m[addr + |data|..]
    decreases |data|
  {
    if data != [] {
      DivisionIsUnique(addr, |m|, 0, addr);
      PutIsSplice(m[addr := data[0]], addr + 1, data[1..]);
    }
  }

  /** Where the `i`-th byte of an access at `addr` lies in a memory of `n` bytes. */
  function Place(addr: nat, i: nat, n: nat): nat
    requires n > 0
  {
    (addr + i) % n
  }

  lemma {:induction false} PutElsewhere(m: seq<Byte>, addr: nat, data: seq<Byte>, k: nat)
    requires m != [] && k < |m| && forall i :: 0 <= i < |data| ==> Place(addr, i, |m|) != k
    ensures Put(m, addr, data)[k] == m[k]
    decreases |data|
  {
    if data != [] {
      assert addr % |m| == Place(addr, 0, |m|);
      var next := addr + 1;
      forall i | 0 <= i < |data| - 1
        ensures Place(next, i, |m|) != k
      {
        assert Place(next, i, |m|) == Place(addr, i + 1, |m|);
      }
      var m1 := m[addr % |m| := data[0]];
      hide Place;
      PutElsewhere(m1, next, data[1..], k);
    }
  }

  /** Reading gives back what was written, even around the end of the memory, as long as the
      data fits the memory. */
  lemma {:induction false} FetchInvertsPut(m: seq<Byte>, addr: nat, data: seq<Byte>)
    requires m != [] && |data| <= |m|
    ensures Fetch(Put(m, addr, data), addr, |data|) == data
    decreases |data|
  {
    if data != [] {
      var n := |m|;
      var first := addr % n;
      var m1 := m[first := data[0]];
      var r := Put(m1, addr + 1, data[1..]);
      FetchInvertsPut(m1, addr + 1, data[1..]);
      var next := addr + 1;
      forall i | 0 <= i < |data| - 1
        ensures Place(next, i, n) != first
      {
        Distinct(addr, i + 1, n);
      }
      PutElsewhere(m1, next, data[1..], first);
      FetchShift(r, addr, data);
    }
  }

  lemma FetchShift(r: seq<Byte>, addr: nat, data: seq<Byte>)
    requires r != [] && data != [] && r[addr % |r|] == data[0]
    requires Fetch(r, addr + 1, |data| - 1) == data[1..]
    ensures Fetch(r, addr, |data|) == data
  {
    forall i | 0 <= i < |data|
      ensures Fetch(r, addr, |data|)[i] == data[i]
    {
      if i > 0 {
        assert data[1..][i - 1] == Fetch(r, addr + 1, |data| - 1)[i - 1] == r[(addr + 1 + (i - 1)) % |r|];
        assert addr + 1 + (i - 1) == addr + i;
      }
    }
  }

  lemma Distinct(addr: nat, i: nat, n: nat)
    requires 0 < i < n
    ensures (addr + i) % n != addr % n
  {
    var q, r := addr / n, addr % n;
    if r + i < n {
      DivisionIsUnique(addr + i, n, q, r + i);
    } else {
      assert addr + i == n * (q + 1) + (r + i - n) by { assert n * (q + 1) == n * q + n; }
      DivisionIsUnique(addr + i, n, q + 1, r + i - n);
    }
  }

  /** Address bytes go out with the highest first. */
  lemma AddressInBytes()
    ensures AddressBytes(0x012345, 3) == [0x01, 0x23, 0x45]
    ensures AddressBytes(0x012345, 2) == [0x23, 0x45] && AddressBytes(0x012345, 1) == [0x45]
  {
  }

  /** The device does wrap within a page: of two bytes written to its last place the second goes to
      its first. */
  lemma PageWraps(m: seq<Byte>, base: nat, pageSize: nat, a: Byte, b: Byte)
    requires 2 <= pageSize && base + pageSize <= |m|
    ensures PutInPage(m, base, pageSize, pageSize - 1, [a, b]) == m[base + pageSize - 1 := a][base := b]
  {
    var one := m[base + pageSize - 1 := a];
    assert [a, b][1..] == [b] && [b][1..] == [];
    DivisionIsUnique(pageSize, pageSize, 1, 0);
    DivisionIsUnique(1, pageSize, 0, 1);
    PutInPageStep(m, base, pageSize, pageSize - 1, [a, b]);
    PutInPageStep(one, base, pageSize, 0, [b]);
    PutInPageNone(one[base := b], base, pageSize, 1);
  }
}
