/** Which pixels `lcd_graphic_write_line` draws (pxbee/drivers/lcd/graphic_display.c), said
    without the loop: the coordinate that changes more takes every value once, the other one
    is the ideal line rounded to the nearest pixel, halves upwards. */
module LineRaster {
  import opened Arithmetic

  type Point = (int, int)

  function Abs(x: int): nat { if x < 0 then -x else x }

  function Sign(from: int, to: int): int { if from > to then -1 else 1 }

  /** The steps taken along the minor axis after `i` steps along the major one. */
  function MinorSteps(i: nat, major: nat, minor: nat): nat {
    if major == 0 then 0 else (2 * minor * i + major) / (2 * major)
  }

  /** `m` is within half a pixel of `i * minor / major`, and not half a pixel below it. */
  predicate Nearest(m: int, i: int, major: int, minor: int) {
    -major <= 2 * minor * i - 2 * major * m < major
  }

  lemma NearestIsMinorSteps(m: nat, i: nat, major: nat, minor: nat)
    requires major > 0
    ensures Nearest(m, i, major, minor) <==> m == MinorSteps(i, major, minor)
  {
    QuotientIsUnique(2 * minor * i + major, 2 * major, m);
  }

  /** The length of a line in steps. */
  function Steps(x0: int, y0: int, x1: int, y1: int): nat {
    if Abs(x1 - x0) >= Abs(y1 - y0) then Abs(x1 - x0) else Abs(y1 - y0)
  }

  /** The pixel after `i` steps. */
  function LinePoint(x0: int, y0: int, x1: int, y1: int, i: nat): Point {
    var farX, farY := Abs(x1 - x0), Abs(y1 - y0);
    if farX >= farY
    then (x0 + Sign(x0, x1) * i, y0 + Sign(y0, y1) * MinorSteps(i, farX, farY))
    else (x0 + Sign(x0, x1) * MinorSteps(i, farY, farX), y0 + Sign(y0, y1) * i)
  }

  function LinePoints(x0: int, y0: int, x1: int, y1: int, n: nat): set<Point> {
    set i | 0 <= i < n :: LinePoint(x0, y0, x1, y1, i)
  }

  /** All the pixels of a line. */
  function Line(x0: int, y0: int, x1: int, y1: int): set<Point> {
    LinePoints(x0, y0, x1, y1, Steps(x0, y0, x1, y1) + 1)
  }

  lemma MinorStepsEnds(major: nat, minor: nat)
    requires minor <= major
    ensures MinorSteps(0, major, minor) == 0
    ensures MinorSteps(major, major, minor) == minor
  {
    if major > 0 {
      NearestIsMinorSteps(0, 0, major, minor);
      NearestIsMinorSteps(minor, major, major, minor);
    }
  }

  lemma MinorStepsStep(i: nat, major: nat, minor: nat)
    requires minor <= major && major > 0
    ensures var m := MinorSteps(i, major, minor);
            MinorSteps(i + 1, major, minor) == (if 2 * minor * (i + 1) - major - 2 * major * m < 0 then m else m + 1)
  {
    hide MinorSteps;
    var m := MinorSteps(i, major, minor);
    NearestIsMinorSteps(m, i, major, minor);
    NearestIsMinorSteps(m, i + 1, major, minor);
    NearestIsMinorSteps(m + 1, i + 1, major, minor);
    assert 2 * minor * (i + 1) == 2 * minor * i + 2 * minor;
    assert 2 * major * (m + 1) == 2 * major * m + 2 * major;
  }

  /** A line starts and ends exactly on its end points. */
  lemma LineEnds(x0: int, y0: int, x1: int, y1: int)
    ensures LinePoint(x0, y0, x1, y1, 0) == (x0, y0)
    ensures LinePoint(x0, y0, x1, y1, Steps(x0, y0, x1, y1)) == (x1, y1)
  {
    var farX, farY := Abs(x1 - x0), Abs(y1 - y0);
    if farX >= farY {
      MinorStepsEnds(farX, farY);
    } else {
      MinorStepsEnds(farY, farX);
    }
  }

  /** It moves from pixel to neighbouring pixel: one step along the major axis each time, and
      at most one along the minor axis. */
  lemma LineIsConnected(x0: int, y0: int, x1: int, y1: int, i: nat)
    requires i < Steps(x0, y0, x1, y1)
    ensures var p := LinePoint(x0, y0, x1, y1, i);
            var q := LinePoint(x0, y0, x1, y1, i + 1);
            var dx, dy := Abs(q.0 - p.0), Abs(q.1 - p.1);
            if Abs(x1 - x0) >= Abs(y1 - y0) then dx == 1 && dy <= 1 else dy == 1 && dx <= 1
  {
    var farX, farY := Abs(x1 - x0), Abs(y1 - y0);
    if farX >= farY {
      MinorStepsStep(i, farX, farY);
    } else {
      MinorStepsStep(i, farY, farX);
    }
  }

  /** No pixel is further than half a pixel from the ideal line, measured along the minor
      axis: twice the distance, times the length, is at most the length. */
  lemma LineIsStraight(x0: int, y0: int, x1: int, y1: int, i: nat)
    requires i <= Steps(x0, y0, x1, y1)
    ensures var p := LinePoint(x0, y0, x1, y1, i);
            var dx, dy := x1 - x0, y1 - y0;
            2 * Abs((p.1 - y0) * dx - (p.0 - x0) * dy) <= Steps(x0, y0, x1, y1)
  {
    hide MinorSteps;
    var farX, farY := Abs(x1 - x0), Abs(y1 - y0);
    var sx, sy := Sign(x0, x1), Sign(y0, y1);
    var major, minor := if farX >= farY then farX else farY, if farX >= farY then farY else farX;
    var m := MinorSteps(i, major, minor);
    assert 2 * Abs(m * major - i * minor) <= major by { MinorIsClose(i, major, minor); }
    CrossProduct(sx, sy, m, i, major, minor);
    assert x1 - x0 == sx * farX && y1 - y0 == sy * farY;
  }

  lemma MinorIsClose(i: nat, major: nat, minor: nat)
    requires i <= major && minor <= major
    ensures 2 * Abs(MinorSteps(i, major, minor) * major - i * minor) <= major
  {
    hide MinorSteps;
    var m := MinorSteps(i, major, minor);
    if major > 0 {
      NearestIsMinorSteps(m, i, major, minor);
      assert 2 * minor * i == 2 * (i * minor);
      assert 2 * major * m == 2 * (m * major);
    }
  }

  lemma CrossProduct(sx: int, sy: int, m: int, i: int, major: int, minor: int)
    requires (sx == 1 || sx == -1) && (sy == 1 || sy == -1)
    ensures Abs((sy * m) * (sx * major) - (sx * i) * (sy * minor)) == Abs(m * major - i * minor)
    ensures Abs((sy * i) * (sx * minor) - (sx * m) * (sy * major)) == Abs(m * major - i * minor)
  {
    if sx == 1 && sy == 1 {
    } else if sx == 1 {
      assert (-1 * m) * major - i * (-1 * minor) == -(m * major - i * minor);
      assert (-1 * i) * minor - m * (-1 * major) == m * major - i * minor;
    } else if sy == 1 {
      assert m * (-1 * major) - (-1 * i) * minor == -(m * major - i * minor);
      assert i * (-1 * minor) - (-1 * m) * major == m * major - i * minor;
    } else {
      assert (-1 * m) * (-1 * major) - (-1 * i) * (-1 * minor) == m * major - i * minor;
      assert (-1 * i) * (-1 * minor) - (-1 * m) * (-1 * major) == -(m * major - i * minor);
    }
  }

  lemma LinePointsDiffer(x0: int, y0: int, x1: int, y1: int, i: nat, k: nat)
    requires i != k
    ensures LinePoint(x0, y0, x1, y1, i) != LinePoint(x0, y0, x1, y1, k)
  {
    hide MinorSteps;
  }

  /** So a line has exactly one pixel more than it has steps. */
  lemma {:induction false} LineSize(x0: int, y0: int, x1: int, y1: int, n: nat)
    ensures |LinePoints(x0, y0, x1, y1, n)| == n
  {
    hide LinePoint;
    if n > 0 {
      LineSize(x0, y0, x1, y1, n - 1);
      var p := LinePoint(x0, y0, x1, y1, n - 1);
      LineGrows(x0, y0, x1, y1, n - 1);
      forall i | 0 <= i < n - 1
        ensures p != LinePoint(x0, y0, x1, y1, i)
      {
        LinePointsDiffer(x0, y0, x1, y1, i, n - 1);
      }
    }
  }

  lemma LineGrows(x0: int, y0: int, x1: int, y1: int, n: nat)
    ensures LinePoints(x0, y0, x1, y1, n + 1) == LinePoints(x0, y0, x1, y1, n) + {LinePoint(x0, y0, x1, y1, n)}
  {
    hide LinePoint;
  }

  /** A horizontal line is a run of columns in one row. */
  lemma HorizontalLine(x0: int, y: int, x1: int)
    ensures forall p: Point :: p in Line(x0, y, x1, y) <==>
              p.1 == y && (if x0 <= x1 then x0 <= p.0 <= x1 else x1 <= p.0 <= x0)
  {
    var s := Sign(x0, x1);
    forall i | 0 <= i <= Abs(x1 - x0)
      ensures LinePoint(x0, y, x1, y, i) == (x0 + s * i, y)
    {
      if x0 != x1 {
        NearestIsMinorSteps(0, i, Abs(x1 - x0), 0);
      }
    }
    forall p: Point | p.1 == y && (if x0 <= x1 then x0 <= p.0 <= x1 else x1 <= p.0 <= x0)
      ensures p in Line(x0, y, x1, y)
    {
      var i := Abs(p.0 - x0);
      assert p == LinePoint(x0, y, x1, y, i);
    }
  }

  /** A vertical line is a run of rows in one column. */
  lemma VerticalLine(x: int, y0: int, y1: int)
    ensures forall p: Point :: p in Line(x, y0, x, y1) <==>
              p.0 == x && (if y0 <= y1 then y0 <= p.1 <= y1 else y1 <= p.1 <= y0)
  {
    var s := Sign(y0, y1);
    forall i | 0 <= i <= Abs(y1 - y0)
      ensures LinePoint(x, y0, x, y1, i) == (x, y0 + s * i)
    {
      if y0 != y1 {
        NearestIsMinorSteps(0, i, Abs(y1 - y0), 0);
      }
    }
    forall p: Point | p.0 == x && (if y0 <= y1 then y0 <= p.1 <= y1 else y1 <= p.1 <= y0)
      ensures p in Line(x, y0, x, y1)
    {
      var i := Abs(p.1 - y0);
      assert p == LinePoint(x, y0, x, y1, i);
    }
  }

  /** Half-way between two pixels the line has already moved on. */
  lemma TiesMoveOn(i: nat, major: nat, minor: nat, m: nat)
    requires major > 0 && 2 * minor * i + major == 2 * major * m
    ensures MinorSteps(i, major, minor) == m
  {
    NearestIsMinorSteps(m, i, major, minor);
  }

  /** Two short lines that pass half-way between pixels, pixel by pixel. */
  lemma KnownLines()
    ensures LinePoint(0, 0, 4, 2, 1) == (1, 1) && LinePoint(0, 0, 4, 2, 2) == (2, 1)
    ensures LinePoint(0, 0, 4, 2, 3) == (3, 2) && LinePoint(0, 0, 4, 2, 4) == (4, 2)
    ensures LinePoint(9, 9, 7, 5, 1) == (8, 8) && LinePoint(9, 9, 7, 5, 2) == (8, 7)
    ensures LinePoint(9, 9, 7, 5, 3) == (7, 6) && LinePoint(9, 9, 7, 5, 4) == (7, 5)
  {
  }
}
