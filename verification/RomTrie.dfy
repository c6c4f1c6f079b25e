/** The set of ROM codes on a 1-Wire bus seen as a binary tree, and the walk through it that
    one pass of the ROM search makes (pxbee/drivers/1-wire/one_wire.c).

    A pass is steered by an 8-bit decision path. At the b-th place where the remaining codes
    disagree it goes the way bit b of the path says; it also computes the path for the next
    pass, which turns the last 0 decision it made into a 1 and forgets what came after. */
module RomTrie {
  import opened Bits

  const CODE_BYTES: nat := 8
  const CODE_BITS: nat := 64

  type Rom = seq<Byte>

  /** Bit `j` of a code in the order in which it is sent, each byte from its lowest bit. */
  predicate CodeBit(c: Rom, j: nat)
    requires |c| == CODE_BYTES && j < CODE_BITS
  {
    c[j / 8] & Bit(j % 8) != 0
  }

  predicate Codes(a: set<Rom>) {
    forall c :: c in a ==> |c| == CODE_BYTES
  }

  // The order of the codes

  /** `c` comes before `d`, where the codes differ for the first time at bit `j` or later. */
  predicate LessFrom(c: Rom, d: Rom, j: nat)
    requires |c| == |d| == CODE_BYTES && j <= CODE_BITS
    decreases CODE_BITS - j
  {
    j < CODE_BITS && if CodeBit(c, j) == CodeBit(d, j) then LessFrom(c, d, j + 1) else CodeBit(d, j)
  }

  /** The order in which codes are found: lexicographic in the order the bits are sent. */
  predicate Less(c: Rom, d: Rom)
    requires |c| == |d| == CODE_BYTES
  {
    LessFrom(c, d, 0)
  }

  lemma {:induction false} LessFromAsymmetric(c: Rom, d: Rom, j: nat)
    requires |c| == |d| == CODE_BYTES && j <= CODE_BITS && LessFrom(c, d, j)
    ensures !LessFrom(d, c, j)
    decreases CODE_BITS - j
  {
    hide CodeBit;
    if CodeBit(c, j) == CodeBit(d, j) {
      LessFromAsymmetric(c, d, j + 1);
    }
  }

  lemma {:induction false} LessFromTransitive(c: Rom, d: Rom, e: Rom, j: nat)
    requires |c| == |d| == |e| == CODE_BYTES && j <= CODE_BITS
    requires LessFrom(c, d, j) && LessFrom(d, e, j)
    ensures LessFrom(c, e, j)
    decreases CODE_BITS - j
  {
    hide CodeBit;
    if CodeBit(c, j) == CodeBit(d, j) == CodeBit(e, j) {
      LessFromTransitive(c, d, e, j + 1);
    }
  }

  lemma {:induction false} LessFromTotal(c: Rom, d: Rom, j: nat)
    requires |c| == |d| == CODE_BYTES && j <= CODE_BITS && c != d
    requires forall i :: 0 <= i < j ==> CodeBit(c, i) == CodeBit(d, i)
    ensures LessFrom(c, d, j) || LessFrom(d, c, j)
    decreases CODE_BITS - j
  {
    hide CodeBit;
    if j == CODE_BITS {
      SameBits(c, d);
    } else if CodeBit(c, j) == CodeBit(d, j) {
      LessFromTotal(c, d, j + 1);
    }
  }

  lemma SameBits(c: Rom, d: Rom)
    requires |c| == |d| == CODE_BYTES
    requires forall j :: 0 <= j < CODE_BITS ==> CodeBit(c, j) == CodeBit(d, j)
    ensures c == d
  {
    forall q | 0 <= q < CODE_BYTES
      ensures c[q] == d[q]
    {
      forall s | 0 <= s < 8
        ensures (c[q] & Bit(s) != 0) == (d[q] & Bit(s) != 0)
      {
        assert CodeBit(c, 8 * q + s) == CodeBit(d, 8 * q + s);
        assert (8 * q + s) / 8 == q && (8 * q + s) % 8 == s;
      }
      SameByte(c[q], d[q]);
    }
  }

  // The tree

  /** The codes of `a` whose bit `j` is `v`. */
  function Side(a: set<Rom>, j: nat, v: bool): (s: set<Rom>)
    requires Codes(a) && j < CODE_BITS
    ensures s <= a && Codes(s)
  {
    set c | c in a && CodeBit(c, j) == v
  }

  /** Both bit values occur. */
  predicate Forked(a: set<Rom>, j: nat)
    requires Codes(a) && j < CODE_BITS
  {
    Side(a, j, false) != {} && Side(a, j, true) != {}
  }

  /** How many forks lie at bit `j` or later on the way to the code `c`. */
  function Forks(a: set<Rom>, c: Rom, j: nat): nat
    requires Codes(a) && |c| == CODE_BYTES && j <= CODE_BITS
    decreases CODE_BITS - j
  {
    if j == CODE_BITS then 0
    else (if Forked(a, j) then 1 else 0) + Forks(Side(a, j, CodeBit(c, j)), c, j + 1)
  }

  predicate Agree(a: set<Rom>, j: nat)
    requires Codes(a) && j <= CODE_BITS
  {
    forall c, d, i | c in a && d in a && 0 <= i < j :: CodeBit(c, i) == CodeBit(d, i)
  }

  // Decision paths

  /** The path marker after `b` forks: one bit, until it is shifted out of the byte. */
  function Marker(b: nat): Byte { if b < 8 then Bit(b) else 0 }

  /** The marker less one, as the code computes it: the decisions before the b-th fork. */
  function Before(b: nat): Byte { if b < 8 then LowBits(b) else 0xFF }

  predicate GoesRight(path: Byte, b: nat) { Marker(b) & path != 0 }

  /** The path that repeats the decisions before fork `b` and goes right there. */
  function TurnRight(path: Byte, b: nat): Byte { (path & Before(b)) | Marker(b) }

  predicate SameBefore(p: Byte, q: Byte, b: nat) { p & Before(b) == q & Before(b) }

  predicate LeftFrom(path: Byte, b: nat) { path & !Before(b) == 0 }

  lemma MarkerFacts(b: nat)
    ensures Marker(b) - 1 == Before(b)
    ensures Marker(b) << 1 == Marker(b + 1)
  {
  }

  lemma SameBeforeStep(p: Byte, q: Byte, b: nat)
    requires b < 8 && SameBefore(p, q, b + 1)
    ensures SameBefore(p, q, b) && GoesRight(p, b) == GoesRight(q, b)
  {
    EarlierDecisions(p, b);
    EarlierDecisions(q, b);
  }

  lemma EarlierDecisions(p: Byte, b: nat)
    requires b < 8
    ensures p & Before(b) == (p & Before(b + 1)) & Before(b)
    ensures Marker(b) & p == Marker(b) & (p & Before(b + 1))
  {
    match b
    case 0 => case 1 => case 2 => case 3 => case 4 => case 5 => case 6 => case 7 =>
  }

  lemma TurnRightFacts(path: Byte, b: nat)
    requires b < 8
    ensures var t := TurnRight(path, b);
            SameBefore(t, path, b) && GoesRight(t, b) && LeftFrom(t, b + 1) && t != 0
  {
    match b
    case 0 => case 1 => case 2 => case 3 => case 4 => case 5 => case 6 => case 7 =>
  }

  lemma LeftFromStep(path: Byte, b: nat)
    requires LeftFrom(path, b)
    ensures !GoesRight(path, b) && LeftFrom(path, b + 1)
  {
    if b < 8 {
      StillLeft(path, b);
    } else {
      NoMarker(path, b);
    }
  }

  lemma StillLeft(path: Byte, b: nat)
    requires b < 8 && LeftFrom(path, b)
    ensures !GoesRight(path, b) && LeftFrom(path, b + 1)
  {
    hide Marker, Before;
    MarkerBetween(b);
    MaskLeft(path, Before(b), Marker(b));
  }

  lemma MarkerBetween(b: nat)
    requires b < 8
    ensures Before(b + 1) == Before(b) | Marker(b) && Marker(b) & Before(b) == 0
  {
  }

  lemma MaskLeft(path: Byte, before: Byte, marker: Byte)
    requires path & !before == 0 && marker & before == 0
    ensures marker & path == 0 && path & !(before | marker) == 0
  {
  }

  lemma PathZero()
    ensures LeftFrom(0, 0) && forall p: Byte, q: Byte :: SameBefore(p, q, 0)
  {
    forall p: Byte, q: Byte
      ensures SameBefore(p, q, 0)
    {
    }
  }

  // One pass

  /** The bit a pass sends at bit `j`, after `b` forks. */
  predicate Turn(a: set<Rom>, j: nat, b: nat, path: Byte)
    requires Codes(a) && j < CODE_BITS
  {
    if Forked(a, j) then GoesRight(path, b) else Side(a, j, true) != {}
  }

  /** The code at which a pass ends, from the codes `a` still listening at bit `j`. */
  ghost function End(a: set<Rom>, j: nat, b: nat, path: Byte): Rom
    requires Codes(a) && a != {} && j <= CODE_BITS
    decreases CODE_BITS - j
  {
    if j == CODE_BITS then var c :| c in a; c
    else
      var side := Side(a, j, Turn(a, j, b, path));
      assert side != {} by { SideNonempty(a, j, b, path); }
      End(side, j + 1, if Forked(a, j) then b + 1 else b, path)
  }

  lemma SideNonempty(a: set<Rom>, j: nat, b: nat, path: Byte)
    requires Codes(a) && a != {} && j < CODE_BITS
    ensures Side(a, j, Turn(a, j, b, path)) != {}
    ensures Forked(a, j) || Side(a, j, Turn(a, j, b, path)) == a
  {
    hide CodeBit, GoesRight;
    var c :| c in a;
    assert c in Side(a, j, CodeBit(c, j));
    if !Forked(a, j) {
      forall d | d in a
        ensures CodeBit(d, j) == Turn(a, j, b, path)
      {
        assert d in Side(a, j, CodeBit(d, j));
      }
    }
  }

  /** The path for the next pass, if `next` is what has been noted so far. */
  ghost function NextPath(a: set<Rom>, j: nat, b: nat, path: Byte, next: Byte): Byte
    requires Codes(a) && a != {} && j <= CODE_BITS
    decreases CODE_BITS - j
  {
    if j == CODE_BITS then next
    else
      var side := Side(a, j, Turn(a, j, b, path));
      assert side != {} by { SideNonempty(a, j, b, path); }
      NextPath(side, j + 1, if Forked(a, j) then b + 1 else b, path,
               if Forked(a, j) && !GoesRight(path, b) then TurnRight(path, b) else next)
  }

  // What a pass finds

  predicate IsLast(a: set<Rom>, c: Rom, j: nat)
    requires Codes(a) && |c| == CODE_BYTES && j <= CODE_BITS
  {
    forall e :: e in a ==> !LessFrom(c, e, j)
  }

  /** `d` is the code of `a` that follows `c`. */
  predicate Follows(a: set<Rom>, c: Rom, d: Rom, j: nat)
    requires Codes(a) && |c| == CODE_BYTES && j <= CODE_BITS
  {
    && d in a && LessFrom(c, d, j)
    && forall e :: e in a && LessFrom(c, e, j) ==> e == d || LessFrom(d, e, j)
  }

  predicate IsFirst(a: set<Rom>, c: Rom, j: nat)
    requires Codes(a) && j <= CODE_BITS
  {
    c in a && forall e :: e in a ==> e == c || LessFrom(c, e, j)
  }

  /** At most 8 forks on the way to any code, `b` of them passed already. */
  ghost predicate Shallow(a: set<Rom>, j: nat, b: nat)
    requires Codes(a) && j <= CODE_BITS
  {
    forall c :: c in a ==> b + Forks(a, c, j) <= 8
  }

  lemma AgreeSide(a: set<Rom>, j: nat, v: bool)
    requires Codes(a) && j < CODE_BITS && Agree(a, j)
    ensures Agree(Side(a, j, v), j + 1)
  {
    hide CodeBit;
  }

  lemma AgreeFromTheStart(a: set<Rom>)
    requires Codes(a)
    ensures Agree(a, 0)
  {
  }

  lemma AgreeAll(a: set<Rom>, c: Rom, d: Rom)
    requires Codes(a) && Agree(a, CODE_BITS) && c in a && d in a
    ensures c == d
  {
    hide CodeBit;
    SameBits(c, d);
  }

  /** A path that only goes left from here on leads to the first code. */
  lemma {:induction false} LeftmostIsFirst(a: set<Rom>, j: nat, b: nat, path: Byte)
    requires Codes(a) && a != {} && j <= CODE_BITS && Agree(a, j) && LeftFrom(path, b)
    ensures IsFirst(a, End(a, j, b, path), j)
    decreases CODE_BITS - j
  {
    hide CodeBit, LeftFrom, GoesRight, Agree;
    if j == CODE_BITS {
      forall e | e in a
        ensures e == End(a, j, b, path)
      {
        AgreeAll(a, e, End(a, j, b, path));
      }
    } else {
      SideNonempty(a, j, b, path);
      var v := Turn(a, j, b, path);
      AgreeSide(a, j, v);
      if Forked(a, j) {
        LeftFromStep(path, b);
        LeftmostIsFirst(Side(a, j, v), j + 1, b + 1, path);
        ForkOrder(a, j, v, End(a, j, b, path));
      } else {
        LeftmostIsFirst(Side(a, j, v), j + 1, b, path);
        SameSideOrder(a, j);
      }
    }
  }

  /** A pass ends at a code. If that lies behind at most eight forks, the path left for the next
      pass leads to the code that follows; when it is the last code the path is what it was
      before. */
  lemma {:induction false} PassFindsNext(a: set<Rom>, j: nat, b: nat, path: Byte, next: Byte)
    requires Codes(a) && a != {} && j <= CODE_BITS && Agree(a, j)
    requires var c := End(a, j, b, path); c in a && b + Forks(a, c, j) <= 8
    ensures var c := End(a, j, b, path);
            var n := NextPath(a, j, b, path, next);
            if IsLast(a, c, j) then n == next
            else n != 0 && SameBefore(n, path, b) && Follows(a, c, End(a, j, b, n), j)
    decreases CODE_BITS - j
  {
    hide CodeBit, LeftFrom, GoesRight, TurnRight, SameBefore, Agree;
    if j < CODE_BITS {
      SideNonempty(a, j, b, path);
      var v := Turn(a, j, b, path);
      var c := End(a, j, b, path);
      EndOnSide(a, j, b, path);
      AgreeSide(a, j, v);
      if !Forked(a, j) {
        SameSideOrder(a, j);
        PassFindsNext(a, j + 1, b, path, next);
      } else {
        var next' := if v then next else TurnRight(path, b);
        PassFindsNext(Side(a, j, v), j + 1, b + 1, path, next');
        var n := NextPath(a, j, b, path, next);
        ForkOrder(a, j, v, c);
        if !IsLast(Side(a, j, v), c, j + 1) {
          SameBeforeStep(n, path, b);
          assert End(a, j, b, n) == End(Side(a, j, v), j + 1, b + 1, n);
          FollowsInFork(a, j, v, c, End(a, j, b, n));
        } else if !v {
          NextOnTheRight(a, j, b, path, c);
        }
      }
    }
  }

  /** The end of a pass is on the side to which the pass turned. */
  lemma EndOnSide(a: set<Rom>, j: nat, b: nat, path: Byte)
    requires Codes(a) && a != {} && j < CODE_BITS
    ensures var v := Turn(a, j, b, path);
            var c := End(a, j, b, path);
            && Side(a, j, v) != {} && c in Side(a, j, v) && CodeBit(c, j) == v
            && c == End(Side(a, j, v), j + 1, if Forked(a, j) then b + 1 else b, path)
  {
    hide GoesRight;
    SideNonempty(a, j, b, path);
    EndIsListening(Side(a, j, Turn(a, j, b, path)), j + 1, if Forked(a, j) then b + 1 else b, path);
  }

  /** The path that turns right here leads to the first code on the right. */
  lemma NextOnTheRight(a: set<Rom>, j: nat, b: nat, path: Byte, c: Rom)
    requires Codes(a) && j < CODE_BITS && Agree(a, j) && Forked(a, j) && b < 8
    requires c in Side(a, j, false) && IsLast(Side(a, j, false), c, j + 1)
    ensures var n := TurnRight(path, b);
            !IsLast(a, c, j) && n != 0 && SameBefore(n, path, b) && Follows(a, c, End(a, j, b, n), j)
  {
    hide CodeBit, LeftFrom, GoesRight, TurnRight, SameBefore, Agree, IsLast, Follows, IsFirst;
    var n := TurnRight(path, b);
    var right := Side(a, j, true);
    TurnRightFacts(path, b);
    AgreeSide(a, j, true);
    LeftmostIsFirst(right, j + 1, b + 1, n);
    FirstOnTheRight(a, j, c, End(right, j + 1, b + 1, n));
  }

  /** A pass that ends behind more than eight forks leaves its own path for the next pass. */
  lemma {:induction false} DeepPassSticks(a: set<Rom>, j: nat, b: nat, path: Byte, next: Byte)
    requires Codes(a) && a != {} && j <= CODE_BITS
    requires var c := End(a, j, b, path); c in a && Forks(a, c, j) > 0 && b + Forks(a, c, j) > 8
    ensures NextPath(a, j, b, path, next) == path
    decreases CODE_BITS - j
  {
    hide CodeBit, GoesRight, TurnRight;
    EndOnSide(a, j, b, path);
    var v := Turn(a, j, b, path);
    var side, c := Side(a, j, v), End(a, j, b, path);
    if !Forked(a, j) {
      DeepPassSticks(side, j + 1, b, path, next);
    } else {
      var next' := if v then next else TurnRight(path, b);
      if Forks(side, c, j + 1) > 0 {
        DeepPassSticks(side, j + 1, b + 1, path, next');
      } else {
        PastTheLast(path, b, next);
        NoForksNoTurn(side, j + 1, b + 1, path, next');
      }
    }
  }

  lemma PastTheLast(path: Byte, b: nat, next: Byte)
    requires b >= 8
    ensures !GoesRight(path, b) && TurnRight(path, b) == path
  {
  }

  lemma {:induction false} NoForksNoTurn(a: set<Rom>, j: nat, b: nat, path: Byte, next: Byte)
    requires Codes(a) && a != {} && j <= CODE_BITS
    requires var c := End(a, j, b, path); c in a && Forks(a, c, j) == 0
    ensures NextPath(a, j, b, path, next) == next
    decreases CODE_BITS - j
  {
    hide CodeBit, GoesRight, TurnRight;
    if j < CODE_BITS {
      EndOnSide(a, j, b, path);
      NoForksNoTurn(Side(a, j, Turn(a, j, b, path)), j + 1, b, path, next);
    }
  }

  /** Where the codes do not fork, the order is decided later. */
  lemma SameSideOrder(a: set<Rom>, j: nat)
    requires Codes(a) && j < CODE_BITS && !Forked(a, j)
    ensures forall c, d :: c in a && d in a ==> LessFrom(c, d, j) == LessFrom(c, d, j + 1)
  {
    hide CodeBit;
    forall c, d | c in a && d in a
      ensures LessFrom(c, d, j) == LessFrom(c, d, j + 1)
    {
      assert c in Side(a, j, CodeBit(c, j)) && d in Side(a, j, CodeBit(d, j));
    }
  }

  /** Where they fork, codes on one side keep their order and the left side comes first. */
  lemma ForkOrder(a: set<Rom>, j: nat, v: bool, c: Rom)
    requires Codes(a) && j < CODE_BITS && c in Side(a, j, v)
    ensures forall e :: e in Side(a, j, v) ==> LessFrom(c, e, j) == LessFrom(c, e, j + 1)
    ensures forall e :: e in Side(a, j, !v) ==> LessFrom(c, e, j) == !v
    ensures forall e :: e in a ==> e in Side(a, j, v) || e in Side(a, j, !v)
  {
    hide CodeBit;
  }

  lemma FollowsInFork(a: set<Rom>, j: nat, v: bool, c: Rom, d: Rom)
    requires Codes(a) && j < CODE_BITS && c in Side(a, j, v) && Follows(Side(a, j, v), c, d, j + 1)
    ensures Follows(a, c, d, j) && !IsLast(a, c, j)
  {
    hide CodeBit;
    ForkOrder(a, j, v, c);
    ForkOrder(a, j, v, d);
  }

  lemma FirstOnTheRight(a: set<Rom>, j: nat, c: Rom, d: Rom)
    requires Codes(a) && j < CODE_BITS && c in Side(a, j, false) && IsLast(Side(a, j, false), c, j + 1)
    requires IsFirst(Side(a, j, true), d, j + 1)
    ensures Follows(a, c, d, j) && !IsLast(a, c, j)
  {
    hide CodeBit;
    ForkOrder(a, j, false, c);
    ForkOrder(a, j, true, d);
  }

  /** No pass ends at `d`. */
  ghost predicate Unreached(a: set<Rom>, j: nat, b: nat, d: Rom)
    requires Codes(a) && a != {} && j <= CODE_BITS
  {
    forall path: Byte :: End(a, j, b, path) != d
  }

  /** Eight forks are the limit: as soon as some code lies behind nine, there is a code at
      which no pass ends, whatever its path. */
  lemma {:induction false} NinthForkHidesACode(a: set<Rom>, j: nat, b: nat, c: Rom)
    requires Codes(a) && j <= CODE_BITS && c in a && Forks(a, c, j) > 0 && b + Forks(a, c, j) > 8
    ensures exists d :: d in a && Unreached(a, j, b, d)
    decreases CODE_BITS - j
  {
    hide CodeBit;
    var v := CodeBit(c, j);
    var side := Side(a, j, v);
    assert c in side;
    if Forked(a, j) && b >= 8 {
      var d :| d in Side(a, j, true);
      forall path: Byte
        ensures End(a, j, b, path) != d
      {
        NoMarker(path, b);
        EndOnSide(a, j, b, path);
      }
      assert Unreached(a, j, b, d);
    } else {
      var b' := if Forked(a, j) then b + 1 else b;
      NinthForkHidesACode(side, j + 1, b', c);
      var d :| d in side && Unreached(side, j + 1, b', d);
      StillUnreached(a, j, b, v, d);
    }
  }

  lemma StillUnreached(a: set<Rom>, j: nat, b: nat, v: bool, d: Rom)
    requires Codes(a) && j < CODE_BITS && d in Side(a, j, v)
    requires Unreached(Side(a, j, v), j + 1, if Forked(a, j) then b + 1 else b, d)
    ensures Unreached(a, j, b, d)
  {
    hide CodeBit, GoesRight, Turn, End;
    forall path: Byte
      ensures End(a, j, b, path) != d
    {
      EndOnSide(a, j, b, path);
    }
  }

  lemma SameBeforeItself(path: Byte, b: nat)
    ensures SameBefore(path, path, b)
  {
  }

  /** The path that repeats the decisions before fork `b` and goes left there. */
  function TurnLeft(path: Byte, b: nat): Byte { path & Before(b) }

  lemma TurnLeftFacts(path: Byte, b: nat)
    requires b < 8
    ensures SameBefore(TurnLeft(path, b), path, b) && !GoesRight(TurnLeft(path, b), b)
  {
    match b
    case 0 => case 1 => case 2 => case 3 => case 4 => case 5 => case 6 => case 7 =>
  }

  lemma FollowPrefix(path: Byte, prefix: Byte, b: nat, v: bool)
    requires b < 8 && SameBefore(path, if v then TurnRight(prefix, b) else TurnLeft(prefix, b), b + 1)
    ensures SameBefore(path, prefix, b) && GoesRight(path, b) == v
  {
    hide TurnRight, TurnLeft, GoesRight;
    if v {
      TurnRightFacts(prefix, b);
      SameBeforeStep(path, TurnRight(prefix, b), b);
    } else {
      TurnLeftFacts(prefix, b);
      SameBeforeStep(path, TurnLeft(prefix, b), b);
    }
  }

  /** Behind at most eight forks every code is where some path leads. */
  lemma {:induction false} PathToCode(a: set<Rom>, j: nat, b: nat, c: Rom, prefix: Byte)
    requires Codes(a) && j <= CODE_BITS && Agree(a, j) && c in a && b + Forks(a, c, j) <= 8
    ensures exists path: Byte :: SameBefore(path, prefix, b) && End(a, j, b, path) == c
    decreases CODE_BITS - j
  {
    hide CodeBit, GoesRight, TurnRight, TurnLeft, SameBefore, Agree;
    if j == CODE_BITS {
      AgreeAll(a, c, End(a, j, b, prefix));
      SameBeforeItself(prefix, b);
    } else {
      var v := CodeBit(c, j);
      var side := Side(a, j, v);
      assert c in side;
      AgreeSide(a, j, v);
      if Forked(a, j) {
        var turned := if v then TurnRight(prefix, b) else TurnLeft(prefix, b);
        PathToCode(side, j + 1, b + 1, c, turned);
        var path: Byte :| SameBefore(path, turned, b + 1) && End(side, j + 1, b + 1, path) == c;
        FollowPrefix(path, prefix, b, v);
      } else {
        PathToCode(side, j + 1, b, c, prefix);
      }
    }
  }

  /** Every device can be found exactly when none lies behind more than eight forks. */
  lemma EightForksAreTheLimit(d: set<Rom>)
    requires Codes(d)
    ensures Shallow(d, 0, 0) <==> forall c :: c in d ==> !Unreached(d, 0, 0, c)
  {
    hide CodeBit, Forks;
    if Shallow(d, 0, 0) {
      forall c | c in d
        ensures !Unreached(d, 0, 0, c)
      {
        AgreeFromTheStart(d);
        PathToCode(d, 0, 0, c, 0);
        var path: Byte :| End(d, 0, 0, path) == c;
      }
    } else {
      var c :| c in d && Forks(d, c, 0) > 8;
      NinthForkHidesACode(d, 0, 0, c);
    }
  }

  lemma NoMarker(path: Byte, b: nat)
    requires b >= 8
    ensures !GoesRight(path, b)
  {
  }

  lemma {:induction false} EndIsListening(a: set<Rom>, j: nat, b: nat, path: Byte)
    requires Codes(a) && a != {} && j <= CODE_BITS
    ensures End(a, j, b, path) in a
    decreases CODE_BITS - j
  {
    hide CodeBit, GoesRight;
    if j < CODE_BITS {
      SideNonempty(a, j, b, path);
      EndIsListening(Side(a, j, Turn(a, j, b, path)), j + 1, if Forked(a, j) then b + 1 else b, path);
    }
  }
}
