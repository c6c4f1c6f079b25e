/** The receive path of the serial port (pxbee/drivers/serial/uart.c): the interrupt handler
    fills the ring buffer, `uart_read` empties it, and the handler may run between any two
    steps of the reader. */
module Uart {
  import opened Bits
  import opened CircularBuffer
  import opened Words

  /** `uart_read` when no interrupt comes in between. */
  method Read(cb: CBuf, buf: array<Byte>, len: nat) returns (read: nat)
    requires cb.Valid() && len <= buf.Length && buf != cb.buf
    modifies cb`tail, buf
    ensures cb.Valid()
    ensures var c := old(Contents(cb.View()));
            && read == (if |c| <= len then |c| else len)
            && buf[..read] == c[..read] && Contents(cb.View()) == c[read..]
    ensures buf[read..] == old(buf[read..])
  {
    ghost var c := Contents(cb.View());
    read := 0;
    var available := cb.CountData();
    if available > len {
      available := len;
    }
    while read < available
      invariant read <= available && cb.Valid()
      invariant Contents(cb.View()) == c[read..]
      invariant forall i :: 0 <= i < read ==> buf[i] == c[i]
      invariant buf[available..] == old(buf[available..])
    {
      buf[read] := cb.GetNoCheck();
      read := read + 1;
    }
  }

  // Interleavings

  /** Where `uart_read` is: it has read the head index of the ring, it is in its loop, or it
      is inside `cbuf_get_nocheck` with the byte fetched and the tail not yet moved. */
  datatype Reader =
    | Idle
    | Sampled(head: nat, len: nat)
    | Looping(available: nat, read: nat)
    | Fetched(available: nat, read: nat, data: Byte)

  /** `accepted` is what the handler put into the ring, `delivered` what the reader passed on. */
  datatype State = State(ring: Ring, reader: Reader, accepted: seq<Byte>, delivered: seq<Byte>)

  datatype Step = Receive(data: Byte, error: bool) | Call(len: nat) | Count | Fetch | MoveTail

  function Take(s: State, e: Step): (t: State)
    requires Wellformed(s.ring)
    ensures Wellformed(t.ring) && |t.ring.buf| == |s.ring.buf|
  {
    match e
    case Receive(data, error) =>
      if error then s
      else
        var r := Append(s.ring, data);
        s.(ring := r, accepted := if r == s.ring && (s.ring.head + 1) % |s.ring.buf| == s.ring.tail then s.accepted
                                  else s.accepted + [data])
    case Call(len) =>
      if s.reader == Idle then s.(reader := Sampled(s.ring.head, len)) else s
    case Count =>
      if s.reader.Sampled? then
        var n := Distance(s.reader.head, s.ring.tail, |s.ring.buf|);
        Continue(s, if n > s.reader.len then s.reader.len else n, 0)
      else s
    case Fetch =>
      if s.reader.Looping? then s.(reader := Fetched(s.reader.available, s.reader.read, Oldest(s.ring))) else s
    case MoveTail =>
      if s.reader.Fetched? then
        Continue(s.(ring := Advance(s.ring), delivered := s.delivered + [s.reader.data]),
                 s.reader.available, s.reader.read + 1)
      else s
  }

  /** The loop test of `uart_read`. */
  function Continue(s: State, available: nat, read: nat): State {
    s.(reader := if read < available then Looping(available, read) else Idle)
  }

  ghost predicate Inv(s: State) {
    && Wellformed(s.ring)
    && s.delivered + Contents(s.ring) == s.accepted
    && match s.reader
       case Idle => true
       case Sampled(head, _) => head < |s.ring.buf| && Distance(head, s.ring.tail, |s.ring.buf|) <= |Contents(s.ring)|
       case Looping(available, read) => 0 < available - read <= |Contents(s.ring)|
       case Fetched(available, read, data) =>
         0 < available - read <= |Contents(s.ring)| && data == Contents(s.ring)[0]
  }

  /** An empty ring with nobody reading is where it starts. */
  lemma StartsEmpty(buf: seq<Byte>)
    requires 0 < |buf| < 256
    ensures Inv(State(Ring(0, 0, buf), Idle, [], []))
  {
    FullAndEmpty(Ring(0, 0, buf));
  }

  lemma ReceiveKeeps(s: State, data: Byte, error: bool)
    requires Inv(s)
    ensures Inv(Take(s, Receive(data, error)))
  {
    hide Contents, Append, Distance;
    AppendContents(s.ring, data);
    FullAndEmpty(s.ring);
    AppendChanges(s.ring, data);
    if !error && |Contents(s.ring)| < |s.ring.buf| - 1 {
      assert s.delivered + (Contents(s.ring) + [data]) == s.accepted + [data];
    }
  }

  lemma AppendChanges(r: Ring, data: Byte)
    requires Wellformed(r)
    ensures (r.head + 1) % |r.buf| == r.tail ==> Append(r, data) == r
  {
  }

  lemma TakeKeeps(s: State, e: Step)
    requires Inv(s)
    ensures Inv(Take(s, e))
  {
    hide Contents, Append, Distance, Advance, Oldest;
    match e
    case Receive(data, error) => ReceiveKeeps(s, data, error);
    case Call(_) => SampleCounts(s.ring);
    case Count =>
    case Fetch =>
      if s.reader.Looping? {
        AdvanceContents(s.ring);
      }
    case MoveTail =>
      if s.reader.Fetched? {
        var c := Contents(s.ring);
        AdvanceContents(s.ring);
        assert s.delivered + c == s.delivered + [c[0]] + c[1..];
      }
  }

  lemma SampleCounts(r: Ring)
    requires Wellformed(r)
    ensures Distance(r.head, r.tail, |r.buf|) == |Contents(r)|
  {
  }

  function TakeAll(s: State, es: seq<Step>): (t: State)
    requires Wellformed(s.ring)
    ensures Wellformed(t.ring) && |t.ring.buf| == |s.ring.buf|
    decreases |es|
  {
    if es == [] then s else TakeAll(Take(s, es[0]), es[1..])
  }

  /** Over every interleaving: the bytes delivered, followed by those still in the ring, are
      the bytes accepted, in order; the ring never holds more than its length less one; and
      the reader never fetches from an empty ring. */
  lemma {:induction false} NothingLostOrReordered(s: State, es: seq<Step>)
    requires Inv(s)
    ensures var t := TakeAll(s, es);
            && Inv(t)
            && t.delivered + Contents(t.ring) == t.accepted
            && |Contents(t.ring)| <= |t.ring.buf| - 1
            && (t.reader.Looping? || t.reader.Fetched? ==> Contents(t.ring) != [])
    decreases |es|
  {
    hide Take, Contents;
    if es == [] {
      FullAndEmpty(s.ring);
    } else {
      TakeKeeps(s, es[0]);
      NothingLostOrReordered(Take(s, es[0]), es[1..]);
    }
  }

  /** A byte is refused only when the ring is full. */
  lemma RefusedOnlyWhenFull(s: State, data: Byte)
    requires Inv(s)
    ensures Take(s, Receive(data, false)).accepted
         == if |Contents(s.ring)| == |s.ring.buf| - 1 then s.accepted else s.accepted + [data]
  {
    FullAndEmpty(s.ring);
  }

  /** Bytes received with an error are dropped. */
  lemma ErrorsAreDropped(s: State, data: Byte)
    requires Wellformed(s.ring)
    ensures Take(s, Receive(data, true)) == s
  {
  }

  // What one call delivers

  /** `t` is on the way from the call of `uart_read` for `len` bytes in the state `s`: so many of the
      bytes held then have been delivered, and the others are still the oldest in the ring. */
  ghost predicate InCall(s: State, len: nat, t: State)
    requires Wellformed(s.ring)
  {
    var c := Contents(s.ring);
    var n := Minimum(len, |c|);
    && Inv(t) && |t.ring.buf| == |s.ring.buf|
    && match t.reader
       case Idle => t.delivered == s.delivered + c[..n]
       case Sampled(head, l) =>
         l == len && head == s.ring.head && t.ring.tail == s.ring.tail && t.delivered == s.delivered
         && c <= Contents(t.ring)
       case Looping(available, read) =>
         available == n && read < n && t.delivered == s.delivered + c[..read] && c[read..] <= Contents(t.ring)
       case Fetched(available, read, _) =>
         available == n && read < n && t.delivered == s.delivered + c[..read] && c[read..] <= Contents(t.ring)
  }

  lemma StepInCall(s: State, len: nat, t: State, e: Step)
    requires Inv(s) && InCall(s, len, t) && t.reader != Idle
    ensures InCall(s, len, Take(t, e))
  {
    hide Contents, Append, Distance, Advance, Oldest;
    TakeKeeps(t, e);
    match e
    case Receive(data, error) => AppendContents(t.ring, data);
    case Call(_) =>
    case Count => SampleCounts(s.ring);
    case Fetch =>
    case MoveTail =>
      if t.reader.Fetched? {
        var c, read := Contents(s.ring), t.reader.read;
        AdvanceContents(t.ring);
        assert c[read..][0] == c[read] && c[read..][1..] == c[read + 1..];
        assert c[..read] + [c[read]] == c[..read + 1];
      }
  }

  /** Whatever arrives in between, the call stays on that way until the reader is done. */
  lemma {:induction false} CallDeliversExactly(s: State, len: nat, t: State, es: seq<Step>)
    requires Inv(s) && InCall(s, len, t)
    requires forall k :: 0 <= k < |es| ==> TakeAll(t, es[..k]).reader != Idle
    ensures InCall(s, len, TakeAll(t, es))
    decreases |es|
  {
    hide Take, InCall, Inv;
    InvWellformed(s);
    InCallInv(s, len, t);
    if es != [] {
      assert es[..0] == [] && TakeAll(t, []) == t;
      StepInCall(s, len, t, es[0]);
      var t' := Take(t, es[0]);
      forall k | 0 <= k < |es| - 1
        ensures TakeAll(t', es[1..][..k]).reader != Idle
      {
        var j := k + 1;
        assert es[..j][0] == es[0] && es[..j][1..] == es[1..][..k];
        assert TakeAll(t, es[..j]).reader != Idle;
      }
      CallDeliversExactly(s, len, t', es[1..]);
    }
  }

  lemma InCallInv(s: State, len: nat, t: State)
    requires Wellformed(s.ring)
    ensures InCall(s, len, t) ==> Inv(t) && Wellformed(t.ring)
  {
  }

  lemma InvWellformed(s: State)
    requires Inv(s)
    ensures Wellformed(s.ring)
  {
  }

  /** The reader is busy in the steps `es` from the state `t` on, until after the last of them. */
  ghost predicate DoneAfter(t: State, es: seq<Step>)
    requires Wellformed(t.ring)
  {
    && TakeAll(t, es).reader == Idle
    && forall k :: 0 <= k < |es| ==> TakeAll(t, es[..k]).reader != Idle
  }

  /** Put together: when the call that began with an idle reader is over, `delivered` has grown by
      exactly those bytes. */
  lemma CallDelivers(s: State, len: nat, es: seq<Step>)
    requires Inv(s) && s.reader == Idle && DoneAfter(Take(s, Call(len)), es)
    ensures var c := Contents(s.ring);
            TakeAll(Take(s, Call(len)), es).delivered == s.delivered + c[..Minimum(len, |c|)]
  {
    hide TakeAll, Contents, Take;
    CallStarts(s, len);
    CallDeliversExactly(s, len, Take(s, Call(len)), es);
  }

  lemma CallStarts(s: State, len: nat)
    requires Inv(s) && s.reader == Idle
    ensures InCall(s, len, Take(s, Call(len)))
  {
    hide Contents, Distance;
    TakeKeeps(s, Call(len));
  }
}
