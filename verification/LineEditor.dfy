/** The line editor `get_line` (pxbee/misc/utils.c). In non-blocking mode every call takes what
    the serial port has received so far, and the line is built up over as many calls as it
    takes; in blocking mode one call waits for the whole line. The position in the line is a
    static 8-bit variable. */
module LineEditor {
  import opened Bits
  import opened Words

  const CR: Byte := 13
  const BS: Byte := 8
  const NUL: Byte := 0
  const LETTER: Byte := 0x41

  // What a stream of characters means

  /** The line being typed, and the lines completed. */
  datatype Typed = Typed(line: seq<Byte>, lines: seq<seq<Byte>>)

  /** One more character: a carriage return completes the line, a backspace takes back the last
      character if there is one, and the last character that fits completes the line too. */
  function Type(t: Typed, c: Byte, limit: nat): Typed {
    if c == CR then Typed([], t.lines + [t.line])
    else if c == BS then t.(line := if t.line == [] then [] else t.line[..|t.line| - 1])
    else
      var line := t.line + [c];
      if |line| == limit - 1 then Typed([], t.lines + [line]) else t.(line := line)
  }

  function TypeAll(t: Typed, cs: seq<Byte>, limit: nat): Typed
    decreases |cs|
  {
    if cs == [] then t else TypeAll(Type(t, cs[0], limit), cs[1..], limit)
  }

  // One call

  /** What a call does with the characters received: the line it completes or is left with,
      whether it completes it, and the characters it leaves for the next call. */
  datatype Outcome = Outcome(line: seq<Byte>, done: bool, rest: seq<Byte>)

  function TakeLine(line: seq<Byte>, rx: seq<Byte>, limit: nat): (o: Outcome)
    decreases |rx|
  {
    if rx == [] then Outcome(line, false, [])
    else
      var t := Type(Typed(line, []), rx[0], limit);
      if t.lines != [] then Outcome(t.lines[0], true, rx[1..]) else TakeLine(t.line, rx[1..], limit)
  }

  lemma TakeStep(line: seq<Byte>, rx: seq<Byte>, limit: nat)
    ensures rx == [] ==> TakeLine(line, rx, limit) == Outcome(line, false, [])
    ensures rx != [] ==>
              var t := Type(Typed(line, []), rx[0], limit);
              TakeLine(line, rx, limit)
                == if t.lines != [] then Outcome(t.lines[0], true, rx[1..]) else TakeLine(t.line, rx[1..], limit)
  {
  }

  // The same in memory

  /** The memory from the start of the line, and the position in it, which has eight bits. */
  datatype Place = Place(mem: seq<Byte>, idx: nat)

  /** What a call leaves behind, what it returns, and the characters it has not taken. */
  datatype Called = Called(mem: seq<Byte>, idx: nat, ret: int, rest: seq<Byte>)

  /** There is memory at every position the code can get to. With a limit of 1 these are not only
      the one that the caller has allowed. */
  predicate Room(size: nat, idx: nat, limit: nat) {
    && 0 < limit <= size && idx < 256
    && (limit == 1 ==> 256 <= size)
    && (2 <= limit <= 256 ==> idx < limit - 1)
  }

  /** One character: the new place, and whether the line ends. */
  function Put(p: Place, c: Byte, limit: nat): (r: (Place, bool))
    requires Room(|p.mem|, p.idx, limit)
    ensures |r.0.mem| == |p.mem| && r.0.idx < 256 && r.0.idx < |p.mem|
    ensures !r.1 ==> Room(|r.0.mem|, r.0.idx, limit)
  {
    if c == CR then (p, true)
    else if c == BS then (if p.idx == 0 then p else p.(idx := p.idx - 1), false)
    else
      var idx := (p.idx + 1) % 256;
      (Place(p.mem[p.idx := c], idx), idx == limit - 1)
  }

  function Receive(p: Place, rx: seq<Byte>, limit: nat): (r: Called)
    requires Room(|p.mem|, p.idx, limit)
    ensures |r.mem| == |p.mem| && Room(|r.mem|, r.idx, limit)
    decreases |rx|
  {
    if rx == [] then Called(p.mem, p.idx, 0, [])
    else
      var (q, done) := Put(p, rx[0], limit);
      if done then Called(q.mem[q.idx := NUL], 0, (q.idx + 1) % 256, rx[1..]) else Receive(q, rx[1..], limit)
  }

  /** The characters hold the end of the line. */
  predicate Completes(p: Place, rx: seq<Byte>, limit: nat)
    requires Room(|p.mem|, p.idx, limit)
    decreases |rx|
  {
    rx != [] && var (q, done) := Put(p, rx[0], limit); done || Completes(q, rx[1..], limit)
  }

  lemma ReceiveStep(p: Place, rx: seq<Byte>, limit: nat)
    requires Room(|p.mem|, p.idx, limit)
    ensures rx == [] ==> Receive(p, rx, limit) == Called(p.mem, p.idx, 0, []) && !Completes(p, rx, limit)
    ensures rx != [] ==>
              var (q, done) := Put(p, rx[0], limit);
              Completes(p, rx, limit) == (done || Completes(q, rx[1..], limit))
    ensures rx != [] ==>
              var (q, done) := Put(p, rx[0], limit);
              Receive(p, rx, limit)
                == if done then Called(q.mem[q.idx := NUL], 0, (q.idx + 1) % 256, rx[1..])
                   else Receive(q, rx[1..], limit)
  {
    hide Put;
  }

  /** The serial port: `rx` has arrived, and each of `later` arrives while the code waits. */
  class Port {
    var rx: seq<Byte>
    var later: seq<seq<Byte>>

    constructor (later: seq<seq<Byte>>)
      ensures rx == [] && this.later == later
    {
      rx, this.later := [], later;
    }

    /** All that the caller can come to see: what has arrived, or in blocking mode whatever will. */
    ghost function Input(blocking: bool): seq<Byte>
      reads this
    {
      if blocking then rx + Flatten(later) else rx
    }

    /** `uart_read` of one byte. */
    method ReadByte() returns (ok: bool, c: Byte)
      modifies this`rx
      ensures ok == (old(rx) != [])
      ensures if ok then c == old(rx)[0] && rx == old(rx)[1..] else rx == old(rx)
      ensures ok ==> forall b :: old(Input(b)) != [] && c == old(Input(b))[0] && Input(b) == old(Input(b))[1..]
    {
      if rx == [] {
        return false, 0;
      }
      ok, c := true, rx[0];
      rx := rx[1..];
    }

    /** Time passes, and more arrives. */
    method Arrive()
      requires later != []
      modifies this
      ensures later == old(later)[1..] && Input(true) == old(Input(true))
    {
      rx, later := rx + later[0], later[1..];
    }
  }

  function Flatten(chunks: seq<seq<Byte>>): seq<Byte> {
    if chunks == [] then [] else chunks[0] + Flatten(chunks[1..])
  }

  class Editor {
    /** The static variable `lineidx`. */
    var lineIdx: nat

    constructor ()
      ensures lineIdx == 0
    {
      lineIdx := 0;
    }

    /** The body of the loop for one character: `done` is the jump out of the loop. */
    method PutChar(buf: array<Byte>, c: Byte, limit: nat) returns (done: bool)
      requires Room(buf.Length, lineIdx, limit)
      modifies this, buf
      ensures (Place(buf[..], lineIdx), done) == Put(Place(old(buf[..]), old(lineIdx)), c, limit)
    {
      if c == CR {
        return true;
      } else if c == BS {
        if lineIdx != 0 {
          lineIdx := lineIdx - 1;
        }
        return false;
      }
      buf[lineIdx] := c;
      lineIdx := (lineIdx + 1) % 256;
      done := lineIdx == limit - 1;
    }

    /** A call with one and the same buffer and limit every time. In blocking mode it takes the
        line from all that ever arrives, and is still `waiting` when that is not a whole line. */
    method GetLine(port: Port, buf: array?<Byte>, limit: nat, blocking: bool) returns (ret: int, waiting: bool)
      requires buf != null && limit > 0 ==> Room(buf.Length, lineIdx, limit)
      modifies this, port, buf
      ensures buf == null || limit == 0 ==>
                && ret == -EINVAL && !waiting && lineIdx == old(lineIdx)
                && port.rx == old(port.rx) && port.later == old(port.later)
                && (buf != null ==> buf[..] == old(buf[..]))
      ensures buf != null && limit > 0 ==>
                var p, input := Place(old(buf[..]), old(lineIdx)), old(port.Input(blocking));
                && Called(buf[..], lineIdx, ret, port.Input(blocking)) == Receive(p, input, limit)
                && waiting == (blocking && !Completes(p, input, limit))
      ensures buf != null && !blocking ==> port.later == old(port.later)
      ensures buf != null && limit > 0 && Starts(old(buf[..lineIdx]), limit)
              && Short(old(buf[..lineIdx]), old(port.Input(blocking)), limit) ==>
                var o := TakeLine(old(buf[..lineIdx]), old(port.Input(blocking)), limit);
                && port.Input(blocking) == o.rest && |o.line| < limit && buf[..|o.line|] == o.line
                && (if o.done then lineIdx == 0 && buf[|o.line|] == NUL && ret == (|o.line| + 1) % 256
                    else lineIdx == |o.line| && ret == 0)
                && buf[limit..] == old(buf[limit..])
    {
      hide TakeLine, Receive, Short, Starts, Completes;
      if buf == null || limit == 0 {
        return -EINVAL, false;
      }
      ghost var line, mem, rx := buf[..lineIdx], buf[..], port.Input(blocking);
      if Starts(line, limit) && Short(line, rx, limit) {
        ShortLinesAreTaken(line, mem, rx, limit);
      }
      ret, waiting := ReadLine(port, buf, limit, blocking);
    }

    /** The loops of the call. */
    method ReadLine(port: Port, buf: array<Byte>, limit: nat, blocking: bool) returns (ret: int, waiting: bool)
      requires Room(buf.Length, lineIdx, limit)
      modifies this, port, buf
      ensures var p, input := Place(old(buf[..]), old(lineIdx)), old(port.Input(blocking));
              && Called(buf[..], lineIdx, ret, port.Input(blocking)) == Receive(p, input, limit)
              && waiting == (blocking && !Completes(p, input, limit))
      ensures !blocking ==> port.later == old(port.later)
    {
      hide Receive, Completes, Put, Room;
      ghost var p, input := Place(buf[..], lineIdx), port.Input(blocking);
      ghost var r, whole := Receive(p, input, limit), Completes(p, input, limit);
      RoomMeans(buf.Length, lineIdx, limit);
      waiting := false;
      var done := false;
      while !done
        invariant lineIdx < buf.Length && (!blocking ==> port.later == old(port.later))
        invariant done ==> whole && r == Called(buf[..][lineIdx := NUL], 0, (lineIdx + 1) % 256, port.Input(blocking))
        invariant !done ==>
                    && Room(buf.Length, lineIdx, limit)
                    && Receive(Place(buf[..], lineIdx), port.Input(blocking), limit) == r
                    && Completes(Place(buf[..], lineIdx), port.Input(blocking), limit) == whole
        decreases |port.later|, |port.rx|, if done then 0 else 1
      {
        ReceiveStep(Place(buf[..], lineIdx), port.Input(blocking), limit);
        var ok, c := port.ReadByte();
        if ok {
          done := PutChar(buf, c, limit);
        } else if !blocking {
          return 0, false;
        } else if port.later == [] {
          return 0, true;
        } else {
          port.Arrive();
        }
      }
      buf[lineIdx] := NUL;
      ret := (lineIdx + 1) % 256;
      lineIdx := 0;
    }
  }

  lemma RoomMeans(size: nat, idx: nat, limit: nat)
    requires Room(size, idx, limit)
    ensures idx < size
  {
  }

  // The line in memory is the line typed

  /** A line that a call can find begun. */
  predicate Starts(line: seq<Byte>, limit: nat) { 2 <= limit && |line| < 256 && |line| < limit - 1 }

  /** The line never comes to 256 characters while these are taken. */
  predicate Short(line: seq<Byte>, rx: seq<Byte>, limit: nat)
    decreases |rx|
  {
    && |line| < 256
    && (rx != [] ==>
          var t := Type(Typed(line, []), rx[0], limit);
          if t.lines != [] then |t.lines[0]| < 256 else Short(t.line, rx[1..], limit))
  }

  /** The call does with the line in memory what TakeLine says, and writes below the limit only. */
  ghost predicate Takes(line: seq<Byte>, mem: seq<Byte>, rx: seq<Byte>, limit: nat)
    requires Room(|mem|, |line|, limit)
  {
    var o := TakeLine(line, rx, limit);
    var r := Receive(Place(mem, |line|), rx, limit);
    && r.rest == o.rest && |o.line| < limit && r.mem[..|o.line|] == o.line && r.mem[limit..] == mem[limit..]
    && if o.done then r.idx == 0 && r.mem[|o.line|] == NUL && r.ret == (|o.line| + 1) % 256
       else r.idx == |o.line| && r.ret == 0
  }

  /** Whatever the limit, from 2 on, lines that stay below 256 characters are taken as they are
      typed. */
  lemma {:induction false} ShortLinesAreTaken(line: seq<Byte>, mem: seq<Byte>, rx: seq<Byte>, limit: nat)
    requires Starts(line, limit) && Room(|mem|, |line|, limit) && mem[..|line|] == line && Short(line, rx, limit)
    ensures Takes(line, mem, rx, limit)
    decreases |rx|
  {
    hide Type, Put, Receive, TakeLine;
    var p := Place(mem, |line|);
    ReceiveStep(p, rx, limit);
    TakeStep(line, rx, limit);
    if rx != [] {
      var t := Type(Typed(line, []), rx[0], limit);
      var (q, done) := Put(p, rx[0], limit);
      CharacterIsTyped(line, mem, rx[0], limit);
      if !done {
        ShortLinesAreTaken(t.line, q.mem, rx[1..], limit);
      }
    }
  }

  lemma CharacterIsTyped(line: seq<Byte>, mem: seq<Byte>, c: Byte, limit: nat)
    requires Starts(line, limit) && Room(|mem|, |line|, limit) && mem[..|line|] == line
    ensures var t := Type(Typed(line, []), c, limit);
            var (q, done) := Put(Place(mem, |line|), c, limit);
            && (t.lines != [] ==> |t.lines[0]| < 256 ==>
                  done && q.idx == |t.lines[0]| < limit && q.mem[..q.idx] == t.lines[0])
            && (t.lines == [] ==> |t.line| < 256 ==>
                  !done && q.idx == |t.line| && q.mem[..q.idx] == t.line && Starts(t.line, limit))
            && q.mem[limit..] == mem[limit..]
  {
  }

  /** With a limit of up to 256 every line is short. */
  lemma {:induction false} LinesAreShort(line: seq<Byte>, rx: seq<Byte>, limit: nat)
    requires 2 <= limit <= 256 && |line| < limit - 1
    ensures Short(line, rx, limit)
    decreases |rx|
  {
    if rx != [] {
      var t := Type(Typed(line, []), rx[0], limit);
      if t.lines == [] {
        LinesAreShort(t.line, rx[1..], limit);
      }
    }
  }

  // The limits that work

  /** With a limit of 1 the code starts, but it cannot keep to its one place. */
  lemma LimitOneWritesBeyond(mem: seq<Byte>)
    requires 256 <= |mem|
    ensures Receive(Place(mem, 0), [LETTER, CR], 1) == Called(mem[0 := LETTER][1 := NUL], 0, 2, [])
  {
    var q := Place(mem[0 := LETTER], 1);
    var rx := [LETTER, CR];
    assert Put(Place(mem, 0), LETTER, 1) == (q, false);
    assert rx[1..] == [CR] && [CR][1..] == [];
    assert Put(q, CR, 1) == (q, true);
  }

  function Letters(n: nat): (rx: seq<Byte>)
    ensures |rx| == n
  {
    seq(n, _ => LETTER)
  }

  lemma MoreLetters(n: nat)
    ensures Letters(n + 1)[0] == LETTER && Letters(n + 1)[1..] == Letters(n) && (n == 0 ==> Letters(n) == [])
  {
  }

  /** With a limit beyond 256 the 256th letter leads back to the start of the line. */
  lemma {:induction false} LettersWrap(mem: seq<Byte>, k: nat, limit: nat)
    requires k < 256 < limit <= |mem|
    ensures var r := Receive(Place(mem, k), Letters(256 - k), limit); r.idx == 0 && r.ret == 0 && r.rest == []
    decreases 256 - k
  {
    hide Receive, Letters;
    var rx := Letters(256 - k);
    MoreLetters(255 - k);
    ReceiveStep(Place(mem, k), rx, limit);
    assert rx[1..] == Letters(255 - k);
    if k < 255 {
      LettersWrap(mem[k := LETTER], k + 1, limit);
    } else {
      ReceiveStep(Place(mem[k := LETTER], 0), [], limit);
    }
  }

  lemma {:induction false} LettersTyped(line: seq<Byte>, limit: nat)
    requires |line| < 256 < limit
    ensures |TakeLine(line, Letters(256 - |line|), limit).line| == 256
    decreases 256 - |line|
  {
    hide TakeLine;
    var rx := Letters(256 - |line|);
    TakeStep(line, rx, limit);
    assert rx[0] == LETTER && rx[1..] == Letters(255 - |line|);
    assert [] + [line + [LETTER]] == [line + [LETTER]];
    if |line| < 255 {
      LettersTyped(line + [LETTER], limit);
    } else {
      TakeStep(line + [LETTER], [], limit);
    }
  }

  /** Every line is taken as it is typed, and nothing is written from the limit on, exactly when
      the limit is between 2 and 256. */
  lemma LimitsThatWork(limit: nat)
    requires limit > 0
    ensures (forall line: seq<Byte>, mem: seq<Byte>, rx: seq<Byte> ::
               Room(|mem|, |line|, limit) && mem[..|line|] == line ==> Takes(line, mem, rx, limit))
       <==> 2 <= limit <= 256
  {
    hide Takes, Short;
    if 2 <= limit <= 256 {
      forall line: seq<Byte>, mem: seq<Byte>, rx: seq<Byte> | Room(|mem|, |line|, limit) && mem[..|line|] == line
        ensures Takes(line, mem, rx, limit)
      {
        LinesAreShort(line, rx, limit);
        ShortLinesAreTaken(line, mem, rx, limit);
      }
    } else {
      var mem := seq(if limit == 1 then 256 else limit, _ => 1 as Byte);
      LimitFails(mem, limit);
      assert mem[..0] == [];
    }
  }

  lemma LimitFails(mem: seq<Byte>, limit: nat)
    requires limit == 1 || limit > 256
    requires Room(|mem|, 0, limit)
    ensures if limit == 1 then !Takes([], mem, [LETTER, CR], limit) else !Takes([], mem, Letters(256), limit)
  {
    hide TakeLine, Receive;
    if limit == 1 {
      TakeStep([], [LETTER, CR], 1);
      TakeStep([LETTER], [CR], 1);
      assert [LETTER, CR][1..] == [CR] && [] + [LETTER] == [LETTER];
      assert TakeLine([], [LETTER, CR], 1).line == [LETTER];
    } else {
      LettersWrap(mem, 0, limit);
      LettersTyped([], limit);
    }
  }

  // All the calls together

  /** Characters arrive, and the line is asked for, in any order. */
  datatype Event = Arrive(cs: seq<Byte>) | Call

  /** `arrived` is everything received so far, `lines` what the calls have returned. */
  datatype State = State(line: seq<Byte>, rx: seq<Byte>, arrived: seq<Byte>, lines: seq<seq<Byte>>)

  function Next(s: State, e: Event, limit: nat): State {
    match e
    case Arrive(cs) => s.(rx := s.rx + cs, arrived := s.arrived + cs)
    case Call =>
      var o := TakeLine(s.line, s.rx, limit);
      if o.done then State([], o.rest, s.arrived, s.lines + [o.line]) else s.(line := o.line, rx := o.rest)
  }

  function RunAll(s: State, es: seq<Event>, limit: nat): State
    decreases |es|
  {
    if es == [] then s else RunAll(Next(s, es[0], limit), es[1..], limit)
  }

  lemma {:induction false} TypeConcat(t: Typed, a: seq<Byte>, b: seq<Byte>, limit: nat)
    ensures TypeAll(t, a + b, limit) == TypeAll(TypeAll(t, a, limit), b, limit)
    decreases |a|
  {
    hide Type;
    if a == [] {
      assert a + b == b;
    } else {
      assert (a + b)[1..] == a[1..] + b;
      TypeConcat(Type(t, a[0], limit), a[1..], b, limit);
    }
  }

  /** Lines completed before do not influence what is typed next. */
  lemma TypeAfter(t: Typed, c: Byte, limit: nat)
    ensures var u := Type(Typed(t.line, []), c, limit);
            Type(t, c, limit) == Typed(u.line, t.lines + u.lines)
    ensures var u := Type(Typed(t.line, []), c, limit);
            u.lines == [] || (|u.lines| == 1 && u.line == [])
  {
  }

  /** A call does to the characters it takes what typing them would have done. */
  lemma {:induction false} CallTypes(line: seq<Byte>, lines: seq<seq<Byte>>, rx: seq<Byte>, limit: nat)
    ensures var o := TakeLine(line, rx, limit);
            TypeAll(Typed(line, lines), rx, limit)
              == if o.done then TypeAll(Typed([], lines + [o.line]), o.rest, limit) else Typed(o.line, lines)
    ensures !TakeLine(line, rx, limit).done ==> TakeLine(line, rx, limit).rest == []
    decreases |rx|
  {
    hide Type;
    if rx != [] {
      TypeAfter(Typed(line, lines), rx[0], limit);
      var t := Type(Typed(line, []), rx[0], limit);
      if t.lines == [] {
        assert lines + t.lines == lines;
        CallTypes(t.line, lines, rx[1..], limit);
      } else {
        assert t.lines == [t.lines[0]];
      }
    }
  }

  /** The lines returned and the lines still to come out of what has arrived. */
  ghost predicate Inv(s: State, limit: nat) {
    TypeAll(Typed(s.line, s.lines), s.rx, limit) == TypeAll(Typed([], []), s.arrived, limit)
  }

  lemma NextKeeps(s: State, e: Event, limit: nat)
    requires Inv(s, limit)
    ensures Inv(Next(s, e, limit), limit)
  {
    hide TypeAll, TakeLine;
    match e
    case Arrive(cs) =>
      TypeConcat(Typed(s.line, s.lines), s.rx, cs, limit);
      TypeConcat(Typed([], []), s.arrived, cs, limit);
    case Call =>
      CallTypes(s.line, s.lines, s.rx, limit);
      TypeNothing(Typed(TakeLine(s.line, s.rx, limit).line, s.lines), limit);
  }

  lemma TypeNothing(t: Typed, limit: nat)
    ensures TypeAll(t, [], limit) == t
  {
  }

  /** However the characters are split over the calls, the lines returned so far, continued
      with what has not been taken yet, are the lines of the stream as a whole. */
  lemma {:induction false} ChunkingDoesNotMatter(s: State, es: seq<Event>, limit: nat)
    requires Inv(s, limit)
    ensures Inv(RunAll(s, es, limit), limit)
    decreases |es|
  {
    hide Inv, Next;
    if es != [] {
      NextKeeps(s, es[0], limit);
      ChunkingDoesNotMatter(Next(s, es[0], limit), es[1..], limit);
    }
  }

  /** In particular, once everything has been taken the lines returned are exactly those of the
      stream, and the line being typed is its unfinished end. */
  lemma LinesOfTheStream(es: seq<Event>, limit: nat)
    ensures var s := RunAll(State([], [], [], []), es, limit);
            s.rx == [] ==> Typed(s.line, s.lines) == TypeAll(Typed([], []), s.arrived, limit)
  {
    hide TypeAll, RunAll;
    ChunkingDoesNotMatter(State([], [], [], []), es, limit);
    var s := RunAll(State([], [], [], []), es, limit);
    TypeNothing(Typed(s.line, s.lines), limit);
  }

  // The keys

  /** What the editor makes of the bytes `A`, `B`, backspace, `C`, carriage return, `D`. */
  lemma KeysInBytes()
    ensures TypeAll(Typed([], []), [0x41, 0x42, 0x08, 0x43, 0x0D, 0x44], 80) == Typed([0x44], [[0x41, 0x43]])
  {
    hide TypeAll;
    TypeKey(Typed([], []), [0x41, 0x42, 0x08, 0x43, 0x0D, 0x44], [0x42, 0x08, 0x43, 0x0D, 0x44], Typed([0x41], []));
    TypeKey(Typed([0x41], []), [0x42, 0x08, 0x43, 0x0D, 0x44], [0x08, 0x43, 0x0D, 0x44], Typed([0x41, 0x42], []));
    TypeKey(Typed([0x41, 0x42], []), [0x08, 0x43, 0x0D, 0x44], [0x43, 0x0D, 0x44], Typed([0x41], []));
    TypeKey(Typed([0x41], []), [0x43, 0x0D, 0x44], [0x0D, 0x44], Typed([0x41, 0x43], []));
    TypeKey(Typed([0x41, 0x43], []), [0x0D, 0x44], [0x44], Typed([], [[0x41, 0x43]]));
    TypeKey(Typed([], [[0x41, 0x43]]), [0x44], [], Typed([0x44], [[0x41, 0x43]]));
    TypeNothing(Typed([0x44], [[0x41, 0x43]]), 80);
  }

  /** A backspace at the start of a line is ignored; delete and line feed are ordinary bytes. */
  lemma OtherKeysInBytes()
    ensures TypeAll(Typed([], []), [0x08, 0x7F, 0x0A], 80) == Typed([0x7F, 0x0A], [])
  {
    hide TypeAll;
    TypeKey(Typed([], []), [0x08, 0x7F, 0x0A], [0x7F, 0x0A], Typed([], []));
    TypeKey(Typed([], []), [0x7F, 0x0A], [0x0A], Typed([0x7F], []));
    TypeKey(Typed([0x7F], []), [0x0A], [], Typed([0x7F, 0x0A], []));
    TypeNothing(Typed([0x7F, 0x0A], []), 80);
  }

  lemma TypeKey(t: Typed, cs: seq<Byte>, rest: seq<Byte>, u: Typed)
    requires cs != [] && cs[1..] == rest && Type(t, cs[0], 80) == u
    ensures TypeAll(t, cs, 80) == TypeAll(u, rest, 80)
  {
    hide Type;
  }

  /** The byte that ends a line in memory. */
  lemma LinesEndWithZero(mem: seq<Byte>)
    requires 10 <= |mem|
    ensures Receive(Place(mem, 0), [0x0D], 10) == Called(mem[0 := 0x00], 0, 1, [])
  {
    var rx: seq<Byte> := [0x0D];
    assert rx[1..] == [] && Put(Place(mem, 0), 0x0D, 10) == (Place(mem, 0), true);
    ReceiveStep(Place(mem, 0), rx, 10);
  }

  /** With room for four bytes a line ends by itself after three. */
  lemma LineEndsAtLimit()
    ensures TakeLine([], [0x41, 0x42, 0x43, 0x44], 4) == Outcome([0x41, 0x42, 0x43], true, [0x44])
  {
    hide TakeLine;
    var a: seq<Byte>, b: seq<Byte>, c: seq<Byte> := [0x41, 0x42, 0x43, 0x44], [0x42, 0x43, 0x44], [0x43, 0x44];
    assert a[1..] == b && b[1..] == c && c[1..] == [0x44];
    TakeStep([], a, 4);
    TakeStep([0x41], b, 4);
    TakeStep([0x41, 0x42], c, 4);
    assert [] + [0x41 as Byte] == [0x41] && [0x41 as Byte] + [0x42] == [0x41, 0x42];
    assert [0x41 as Byte, 0x42] + [0x43] == [0x41, 0x42, 0x43];
  }

  /** In memory it is followed by its zero, and the length returned is four. */
  lemma MemoryAtLimit(mem: seq<Byte>)
    requires 4 <= |mem|
    ensures Receive(Place(mem, 0), [0x41, 0x42, 0x43, 0x44], 4)
         == Called(mem[0 := 0x41][1 := 0x42][2 := 0x43][3 := 0x00], 0, 4, [0x44])
  {
    hide Receive;
    var a: seq<Byte>, b: seq<Byte>, c: seq<Byte> := [0x41, 0x42, 0x43, 0x44], [0x42, 0x43, 0x44], [0x43, 0x44];
    assert a[1..] == b && b[1..] == c && c[1..] == [0x44];
    ReceiveStep(Place(mem, 0), a, 4);
    ReceiveStep(Place(mem[0 := 0x41], 1), b, 4);
    ReceiveStep(Place(mem[0 := 0x41][1 := 0x42], 2), c, 4);
  }
}
