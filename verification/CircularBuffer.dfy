/** The ring buffer of pxbee/misc/cbuffer.c. One slot always stays free, so that an empty and a
    full buffer can be told apart. */
module CircularBuffer {
  import opened Bits
  import opened Words

  /** Head is where the next byte goes, tail is the oldest byte. */
  datatype Ring = Ring(head: nat, tail: nat, buf: seq<Byte>)

  predicate Wellformed(r: Ring) {
    && 0 < |r.buf| < 256 && r.head < |r.buf| && r.tail < |r.buf|
  }

  function Distance(head: nat, tail: nat, blen: nat): (n: nat)
    requires blen > 0 && tail <= blen
    ensures n < blen
  {
    (blen + head - tail) % blen
  }

  function DataInBuf(r: Ring): (n: nat)
    requires Wellformed(r)
  {
    Distance(r.head, r.tail, |r.buf|)
  }

  function SpaceInBuf(r: Ring): int
    requires Wellformed(r)
  {
    |r.buf| - DataInBuf(r) - 1
  }

  /** The bytes in the buffer, oldest first. */
  function Contents(r: Ring): (c: seq<Byte>)
    requires Wellformed(r)
    ensures |c| == DataInBuf(r)
  {
    seq(DataInBuf(r), i requires 0 <= i < DataInBuf(r) => r.buf[(r.tail + i) % |r.buf|])
  }

  function Append(r: Ring, b: Byte): (n: Ring)
    requires Wellformed(r)
    ensures Wellformed(n) && |n.buf| == |r.buf| && n.tail == r.tail
  {
    var nhead := (r.head + 1) % |r.buf|;
    if nhead != r.tail then Ring(nhead, r.tail, r.buf[r.head := b]) else r
  }

  function Oldest(r: Ring): Byte
    requires Wellformed(r)
  {
    r.buf[r.tail]
  }

  function Advance(r: Ring): (n: Ring)
    requires Wellformed(r)
    ensures Wellformed(n) && n.buf == r.buf && n.head == r.head
  {
    r.(tail := (r.tail + 1) % |r.buf|)
  }

  lemma DistanceMeans(head: nat, tail: nat, blen: nat)
    requires head < blen && tail < blen
    ensures Distance(head, tail, blen) == if head >= tail then head - tail else blen + head - tail
  {
    if head >= tail {
      Wrap(blen + head - tail, blen);
    } else {
      Wrap(blen + head - tail, blen);
    }
  }

  lemma Wrap(x: nat, n: nat)
    requires 0 < n && x < 2 * n
    ensures x % n == if x < n then x else x - n
  {
    if x < n {
    } else {
      assert x == n + (x - n);
    }
  }

  lemma Slot(r: Ring, i: nat)
    requires Wellformed(r) && i < |r.buf|
    ensures (r.tail + i) % |r.buf| == if r.tail + i < |r.buf| then r.tail + i else r.tail + i - |r.buf|
  {
    Wrap(r.tail + i, |r.buf|);
  }

  /** The three ways in which the code asks about fullness agree. */
  lemma FullAndEmpty(r: Ring)
    requires Wellformed(r)
    ensures r.head == r.tail <==> Contents(r) == []
    ensures (r.head + 1) % |r.buf| == r.tail <==> |Contents(r)| == |r.buf| - 1
    ensures SpaceInBuf(r) == |r.buf| - 1 - |Contents(r)| && SpaceInBuf(r) >= 0
  {
    DistanceMeans(r.head, r.tail, |r.buf|);
    Wrap(r.head + 1, |r.buf|);
  }

  /** Appending adds the byte at the end, or changes nothing when the buffer is full. */
  lemma AppendContents(r: Ring, b: Byte)
    requires Wellformed(r)
    ensures Contents(Append(r, b)) == if |Contents(r)| < |r.buf| - 1 then Contents(r) + [b] else Contents(r)
  {
    FullAndEmpty(r);
    var n := Append(r, b);
    DistanceMeans(r.head, r.tail, |r.buf|);
    Wrap(r.head + 1, |r.buf|);
    if n != r {
      DistanceMeans(n.head, n.tail, |r.buf|);
      var c := Contents(r) + [b];
      forall i | 0 <= i < |c|
        ensures Contents(n)[i] == c[i]
      {
        Slot(r, i);
      }
    }
  }

  /** Advancing the tail of a buffer that is not empty removes the oldest byte. */
  lemma AdvanceContents(r: Ring)
    requires Wellformed(r) && Contents(r) != []
    ensures Oldest(r) == Contents(r)[0] && Contents(Advance(r)) == Contents(r)[1..]
  {
    var n := Advance(r);
    FullAndEmpty(r);
    Slot(r, 0);
    Wrap(r.tail + 1, |r.buf|);
    DistanceMeans(r.head, r.tail, |r.buf|);
    DistanceMeans(n.head, n.tail, |r.buf|);
    var c := Contents(r);
    forall i | 0 <= i < |c| - 1
      ensures Contents(n)[i] == c[1..][i]
    {
      Slot(r, i + 1);
      Slot(n, i);
    }
  }

  class CBuf {
    var head: nat
    var tail: nat
    var blen: nat
    var buf: array<Byte>

    ghost predicate Valid()
      reads this, buf
    {
      buf.Length == blen && Wellformed(View())
    }

    ghost function View(): Ring
      reads this, buf
    {
      Ring(head, tail, buf[..])
    }

    constructor (buffer: array<Byte>, buflen: nat)
      requires 0 < buflen < 256 && buffer.Length == buflen
      ensures Valid() && buf == buffer && Contents(View()) == []
    {
      head, tail := 0, 0;
      buf := buffer;
      blen := buflen;
    }

    method CountData() returns (n: nat)
      requires Valid()
      ensures n == |Contents(View())|
    {
      n := (blen + head - tail) % blen;
    }

    method CountSpace() returns (n: int)
      requires Valid()
      ensures n == blen - 1 - |Contents(View())| && n >= 0
    {
      FullAndEmpty(View());
      var d := CountData();
      n := blen - d - 1;
    }

    method IsEmpty() returns (empty: bool)
      requires Valid()
      ensures empty <==> Contents(View()) == []
    {
      FullAndEmpty(View());
      empty := head == tail;
    }

    method IsFull() returns (full: bool)
      requires Valid()
      ensures full <==> |Contents(View())| == blen - 1
    {
      FullAndEmpty(View());
      full := (head + 1) % blen == tail;
    }

    method Flush()
      requires Valid()
      modifies this`head
      ensures Valid() && Contents(View()) == [] && tail == old(tail)
    {
      head := tail;
      FullAndEmpty(View());
    }

    method AppendByte(data: Byte)
      requires Valid()
      modifies this`head, buf
      ensures Valid() && View() == Append(old(View()), data)
      ensures Contents(View()) == if |old(Contents(View()))| < blen - 1 then old(Contents(View())) + [data]
                                  else old(Contents(View()))
    {
      AppendContents(View(), data);
      ghost var before := View();
      var nhead := (head + 1) % blen;
      if nhead != tail {
        buf[head] := data;
        head := nhead;
      }
      assert View() == Append(before, data);
    }

    method Get() returns (ret: int)
      requires Valid()
      modifies this`tail
      ensures Valid()
      ensures old(Contents(View())) == [] ==> ret == -ENOENT && View() == old(View())
      ensures old(Contents(View())) != [] ==>
                ret == old(Contents(View()))[0] as int && Contents(View()) == old(Contents(View()))[1..]
    {
      var empty := IsEmpty();
      if empty {
        return -ENOENT;
      }
      var data := GetNoCheck();
      ret := data as int;
    }

    method GetNoCheck() returns (data: Byte)
      requires Valid() && Contents(View()) != []
      modifies this`tail
      ensures Valid() && View() == Advance(old(View())) && data == Oldest(old(View()))
      ensures data == old(Contents(View()))[0] && Contents(View()) == old(Contents(View()))[1..]
    {
      AdvanceContents(View());
      data := buf[tail];
      tail := (tail + 1) % blen;
    }
  }
}
