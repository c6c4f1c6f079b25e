/** Which pixels `lcd_graphic_write_circle` draws (pxbee/drivers/lcd/graphic_display.c). The
    loop works on 8-bit signed integers; for the radii on which they suffice it draws exactly
    the circle whose octants are rounded to the nearest pixel. */
module CircleRaster {
  import opened Arithmetic
  import opened LineRaster

  /** Conversion to an 8-bit signed integer. */
  function ToInt8(v: int): int {
    var w := v % 256;
    if w < 128 then w else w - 256
  }

  /** The points (x, y) of the first octant, as the loop visits them. */
  function OctantLoop(d: int, x: int, y: int): seq<Point>
    requires -128 <= y <= 127 && 0 <= x <= 127
    decreases y - x
  {
    if x < y then
      var y' := if d < 0 then y else y - 1;
      var d' := ToInt8(if d < 0 then d + 2 * x + 3 else d + 2 * (x - y) + 5);
      [(x + 1, y')] + OctantLoop(d', x + 1, y')
    else []
  }

  function Octant(r: nat): seq<Point>
    requires r < 256
  {
    OctantLoop(ToInt8(1 - r), 0, ToInt8(r))
  }

  /** `b` is the integer nearest to the square root of `r * r - a * a`. */
  predicate OnArc(r: int, a: int, b: int) {
    && (b == 0 || b * b - b < r * r - a * a)
    && r * r - a * a <= b * b + b
  }

  function Low(x: int, y: int): nat { if Abs(x) <= Abs(y) then Abs(x) else Abs(y) }

  function High(x: int, y: int): nat { if Abs(x) <= Abs(y) then Abs(y) else Abs(x) }

  /** The ideal circle around the origin: in each octant the nearest pixel in every column. */
  predicate OnCircle(r: int, x: int, y: int) {
    OnArc(r, Low(x, y), High(x, y))
  }

  /** The radii for which the 8-bit decision variable never overflows. */
  predicate Drawable(r: nat) { r <= 76 || r == 82 || r == 83 }

  /** The invariant of the loop: (x, y) is on the arc and `d` is the value the midpoint
      formula wants, not merely that value modulo 256. */
  predicate Tracking(r: int, d: int, x: int, y: int) {
    && 0 <= x && 0 <= y <= r && -128 <= d <= 127
    && d == (x + 1) * (x + 1) + y * y - y - r * r
    && OnArc(r, x, y)
  }

  lemma MonotoneSquare(a: int, b: int)
    requires 0 <= a <= b
    ensures a * a <= b * b
  {
    MulNonnegative(b - a, b + a);
    assert (b - a) * (b + a) == b * b - a * a;
  }

  lemma Pronic(a: int, b: int)
    requires 1 <= a <= b
    ensures a * a - a <= b * b - b
  {
    MonotoneSquare(a - 1, b - 1);
    assert (a - 1) * (a - 1) == a * a - 2 * a + 1;
    assert (b - 1) * (b - 1) == b * b - 2 * b + 1;
  }

  /** In one column there is one nearest pixel. */
  lemma ArcIsUnique(r: int, a: int, b: int, c: int)
    requires OnArc(r, a, b) && OnArc(r, a, c) && 0 <= b && 0 <= c
    ensures b == c
  {
    if b < c {
      PronicGap(b, c);
    } else if c < b {
      PronicGap(c, b);
    }
  }

  lemma PronicGap(a: int, b: int)
    requires 0 <= a < b
    ensures a * a + a <= b * b - b
  {
    Pronic(a + 1, b);
    assert (a + 1) * (a + 1) - (a + 1) == a * a + a;
  }

  lemma OctantWidth(r: nat, x: int, y: int)
    requires r <= 83 && OnArc(r, x, y) && 0 <= x < y
    ensures x <= 58
  {
    MonotoneSquare(r, 83);
    if x >= 59 {
      MonotoneSquare(59, x);
      Pronic(60, y);
    }
  }

  /** Both updates of the decision variable keep it within eight bits. */
  lemma DecisionFits(r: nat, d: int, x: int, y: int)
    requires Drawable(r) && Tracking(r, d, x, y) && x < y
    ensures d < 0 ==> -128 <= d + 2 * x + 3 <= 127
    ensures d >= 0 ==> -128 <= d + 2 * (x - y) + 5 <= 127
  {
    OctantWidth(r, x, y);
    assert d <= 2 * x by { assert (x + 1) * (x + 1) == x * x + 2 * x + 1; }
    assert d >= 0 ==> d + 2 * (x - y) + 5 <= 127;
    if d >= 0 && y - x >= 67 {
      SteepDecisionFits(r, d, x, y);
    }
  }

  /** The only place where the bound is close: near the top of a large circle. */
  lemma SteepDecisionFits(r: nat, d: int, x: int, y: int)
    requires Drawable(r) && Tracking(r, d, x, y) && d >= 0 && y - x >= 67
    ensures d + 2 * (x - y) + 5 >= -128
  {
    assert (x + 1) * (x + 1) == x * x + 2 * x + 1;
    if y == r {
      SquareAtLeast(x + 1, 8, r);
      if x >= 9 {
        MonotoneSquare(9, x);
      }
    } else {
      PronicGap(y, r);
      SquareAtLeast(x, 8, r);
      assert y >= 76 && r >= 82;
      assert y == r - 1 by { NextToTop(r, x, y); }
      assert y * y == r * r - 2 * r + 1;
      SquareAtLeast(x + 1, 15, 3 * r - 2);
    }
  }

  /** A number whose square exceeds `k * k` exceeds `k`. */
  lemma SquareAtLeast(x: int, k: int, n: int)
    requires 0 <= x && 0 <= k && x * x >= n && n > k * k
    ensures x > k
  {
    if x <= k { MonotoneSquare(x, k); }
  }

  lemma NextToTop(r: nat, x: int, y: int)
    requires 82 <= r <= 83 && OnArc(r, x, y) && 0 <= x && x + 67 <= y < r
    ensures y == r - 1
  {
    assert (r - 1) * (r - 1) == r * r - 2 * r + 1;
    MonotoneSquare(x, 16);
    if y <= r - 2 {
      PronicGap(y, r - 1);
    }
  }

  /** One iteration stays on the arc; only when it passes the diagonal does it step off, and
      then onto the mirror image of the point before. */
  lemma OctantStep(r: nat, d: int, x: int, y: int)
    requires Drawable(r) && Tracking(r, d, x, y) && x < y
    ensures var y' := if d < 0 then y else y - 1;
            var d' := ToInt8(if d < 0 then d + 2 * x + 3 else d + 2 * (x - y) + 5);
            if x + 1 <= y' then Tracking(r, d', x + 1, y') else d >= 0 && x + 1 == y && y' == x
  {
    DecisionFits(r, d, x, y);
    assert (x + 1) * (x + 1) == x * x + 2 * x + 1;
    assert (x + 2) * (x + 2) == x * x + 4 * x + 4;
    assert (y - 1) * (y - 1) == y * y - 2 * y + 1;
  }

  lemma OctantUnfolds(d: int, x: int, y: int)
    requires -128 <= y <= 127 && 0 <= x <= 127
    ensures if x < y then
              var y' := if d < 0 then y else y - 1;
              OctantLoop(d, x, y)
                == [(x + 1, y')] + OctantLoop(ToInt8(if d < 0 then d + 2 * x + 3 else d + 2 * (x - y) + 5), x + 1, y')
            else OctantLoop(d, x, y) == []
  {
    hide ToInt8;
  }

  lemma ArcIsOnCircle(r: int, a: int, b: int)
    requires 0 <= a <= b && OnArc(r, a, b)
    ensures OnCircle(r, a, b) && OnCircle(r, b, a)
  {
    hide OnArc;
  }

  lemma TrackingMeans(r: int, d: int, x: int, y: int)
    requires Tracking(r, d, x, y)
    ensures 0 <= x && 0 <= y <= r && OnArc(r, x, y)
  {
  }


  /** The loop draws points of the arc only, and all those to the right of where it starts. */
  lemma {:induction false} LoopDrawsArc(r: nat, d: int, x: int, y: int)
    requires Drawable(r) && Tracking(r, d, x, y) && x <= y
    ensures forall p :: p in OctantLoop(d, x, y) ==> 0 <= p.0 <= r && 0 <= p.1 <= r && OnCircle(r, p.0, p.1)
    ensures forall a, b :: x < a <= b && OnArc(r, a, b) ==> (a, b) in OctantLoop(d, x, y)
    decreases y - x
  {
    hide OnArc, OnCircle, Tracking, OctantLoop, ToInt8;
    TrackingMeans(r, d, x, y);
    OctantUnfolds(d, x, y);
    if x < y {
      var y' := if d < 0 then y else y - 1;
      var d' := ToInt8(if d < 0 then d + 2 * x + 3 else d + 2 * (x - y) + 5);
      OctantStep(r, d, x, y);
      if x + 1 <= y' {
        LoopDrawsArc(r, d', x + 1, y');
        TrackingMeans(r, d', x + 1, y');
        ArcIsOnCircle(r, x + 1, y');
        forall a, b | x < a <= b && OnArc(r, a, b)
          ensures (a, b) in OctantLoop(d, x, y)
        {
          if a == x + 1 {
            ArcIsUnique(r, a, b, y');
          }
        }
      } else {
        OctantUnfolds(d', x + 1, y');
        ArcIsOnCircle(r, x, y);
        NothingPastTheDiagonal(r, d, x, y);
      }
    } else {
      NothingPastTheDiagonal(r, d, x, y);
    }
  }

  lemma PastTheDiagonal(r: nat, d: int, x: int, y: int, a: int, b: int)
    requires Tracking(r, d, x, y) && (x == y || (x + 1 == y && d >= 0))
    requires x < a <= b
    ensures r * r - a * a <= b * b - b && b > 0
  {
    assert (x + 1) * (x + 1) == x * x + 2 * x + 1;
    MonotoneSquare(x + 1, a);
    Pronic(x + 1, b);
  }

  lemma NothingPastTheDiagonal(r: nat, d: int, x: int, y: int)
    requires Tracking(r, d, x, y) && (x == y || (x + 1 == y && d >= 0))
    ensures forall a, b :: x < a <= b ==> !OnArc(r, a, b)
  {
    forall a, b | x < a <= b
      ensures !OnArc(r, a, b)
    {
      PastTheDiagonal(r, d, x, y, a, b);
    }
  }

  /** The loop starts on the arc, at its top. */
  lemma CircleTop(r: nat)
    requires r <= 128
    ensures Tracking(r, 1 - r, 0, r)
  {
    assert 0 * 0 == 0 && 1 * 1 == 1;
  }

  /** What the first octant of a drawable circle looks like. */
  lemma OctantIsArc(r: nat)
    requires Drawable(r)
    ensures forall p :: p in Octant(r) ==> 0 <= p.0 <= r && 0 <= p.1 <= r && OnCircle(r, p.0, p.1)
    ensures forall a, b :: 0 <= a <= b && OnArc(r, a, b) ==> (a, b) in Octant(r) || (a, b) == (0, r)
    ensures OnArc(r, 0, r)
  {
    hide OnArc, OctantLoop, OnCircle;
    CircleTop(r);
    LoopDrawsArc(r, 1 - r, 0, r);
    forall a, b | 0 <= a <= b && OnArc(r, a, b)
      ensures (a, b) in Octant(r) || (a, b) == (0, r)
    {
      if a == 0 {
        ArcIsUnique(r, 0, b, r);
      }
    }
  }

  /** The loop draws the ideal octant: every point it visits is on the circle, and every point
      of the octant is visited, the topmost one being drawn before the loop. */
  ghost predicate DrawsCircle(r: nat)
    requires r < 256
  {
    && (forall p :: p in Octant(r) ==> OnCircle(r, p.0, p.1))
    && (forall a, b :: 0 <= a <= b && OnArc(r, a, b) ==> (a, b) in Octant(r) || (a, b) == (0, r))
  }

  /** Until the first step down, the loop runs along the top row. */
  lemma {:induction false} TopRow(r: nat, x: nat)
    requires 77 <= r <= 127 && x <= 11 && x * x < r
    ensures forall p :: p in OctantLoop((x + 1) * (x + 1) - r, x, r) ==> p in Octant(r)
  {
    hide OctantLoop, ToInt8;
    if x > 0 {
      MonotoneSquare(x - 1, x);
      TopRow(r, x - 1);
      TopRowStep(r, x);
    } else {
      TopRowStart(r);
    }
  }

  lemma TopRowStart(r: nat)
    requires r <= 127
    ensures OctantLoop((0 + 1) * (0 + 1) - r, 0, r) == Octant(r)
  {
    hide OctantLoop;
  }

  lemma TopRowStep(r: nat, x: nat)
    requires 77 <= r <= 127 && 0 < x <= 11 && x * x < r
    ensures OctantLoop(((x - 1) + 1) * ((x - 1) + 1) - r, x - 1, r)
         == [(x, r)] + OctantLoop((x + 1) * (x + 1) - r, x, r)
  {
    var d := x * x - r;
    var d' := (x + 1) * (x + 1) - r;
    assert d' == d + 2 * (x - 1) + 3;
    assert -128 <= d' <= 127 by { MonotoneSquare(x + 1, 12); }
    assert ToInt8(d') == d';
    assert OctantLoop(d, x - 1, r) == [(x, r)] + OctantLoop(d', x, r);
  }

  /** The first step down wraps the decision variable to a positive number, so the next step
      goes down as well. */
  lemma FirstStepDownWraps(r: nat, x: nat)
    requires 77 <= r <= 127 && !Drawable(r) && 8 <= x <= 11 && x * x < r <= (x + 1) * (x + 1)
    ensures (x + 2, r - 2) in OctantLoop((x + 1) * (x + 1) - r, x, r)
  {
    var d := (x + 1) * (x + 1) - r;
    var d' := ToInt8(d + 2 * (x - r) + 5);
    assert d + 2 * (x - r) + 5 == x * x + 4 * x + 6 - 3 * r;
    assert d' > 0 by {
      match x
      case 8 => case 9 => case 10 => case 11 =>
    }
    var rest := OctantLoop(d', x + 1, r - 1);
    assert rest[0] == (x + 2, r - 2);
    assert OctantLoop(d, x, r) == [(x + 1, r - 1)] + rest;
    assert OctantLoop(d, x, r)[1] == (x + 2, r - 2);
  }

  lemma WrappedPointIsOff(r: nat, x: nat)
    requires 77 <= r <= 127 && 8 <= x <= 11
    ensures !OnCircle(r, x + 2, r - 2)
  {
    assert (r - 2) * (r - 2) == r * r - 4 * r + 4;
    MonotoneSquare(x + 2, 13);
  }

  lemma ExactRoot(r: nat) returns (x: nat)
    requires 77 <= r <= 127
    ensures 8 <= x <= 11 && x * x < r <= (x + 1) * (x + 1)
  {
    x := if r <= 81 then 8 else if r <= 100 then 9 else if r <= 121 then 10 else 11;
  }

  /** So the loop draws a point that is not on the circle. */
  lemma WrongPoint(r: nat) returns (x: nat)
    requires 77 <= r <= 127 && !Drawable(r)
    ensures 8 <= x <= 11 && (x + 2, r - 2) in Octant(r) && !OnCircle(r, x + 2, r - 2)
  {
    x := ExactRoot(r);
    TopRow(r, x);
    FirstStepDownWraps(r, x);
    WrappedPointIsOff(r, x);
  }

  lemma NoOctant(r: nat)
    requires 128 <= r < 256
    ensures Octant(r) == []
  {
  }

  /** The radii on which eight bits suffice are exactly the drawable ones. From 128 on the
      radius itself is taken for a negative number and the loop does not run at all. */
  lemma CircleIsRightExactlyWhenDrawable(r: nat)
    requires r < 256
    ensures DrawsCircle(r) <==> Drawable(r)
  {
    if Drawable(r) {
      OctantIsArc(r);
    } else if r <= 127 {
      var x := WrongPoint(r);
    } else {
      NoOctant(r);
      assert OnArc(r, 1, r) && (1, r) !in Octant(r);
    }
  }

  /** The octants of two small circles, point by point. */
  lemma KnownOctants()
    ensures Octant(4) == [(1, 4), (2, 3), (3, 3)]
    ensures Octant(6) == [(1, 6), (2, 6), (3, 5), (4, 4)]
  {
    assert OctantLoop(-3, 0, 4) == [(1, 4)] + OctantLoop(0, 1, 4);
    assert OctantLoop(0, 1, 4) == [(2, 3)] + OctantLoop(-1, 2, 3);
    assert OctantLoop(-1, 2, 3) == [(3, 3)] + OctantLoop(6, 3, 3);
    assert OctantLoop(-5, 0, 6) == [(1, 6)] + OctantLoop(-2, 1, 6);
    assert OctantLoop(-2, 1, 6) == [(2, 6)] + OctantLoop(3, 2, 6);
    assert OctantLoop(3, 2, 6) == [(3, 5)] + OctantLoop(0, 3, 5);
    assert OctantLoop(0, 3, 5) == [(4, 4)] + OctantLoop(1, 4, 4);
  }
}
