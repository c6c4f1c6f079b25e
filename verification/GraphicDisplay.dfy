/** The graphic display driver (pxbee/drivers/lcd/graphic_display.c) for display 0 of the
    variant with a shadow buffer: the panel with its RAM and cursor, the shadow of both in the
    driver, and the drawing functions on top.

    Panel commands are single bytes; the operand occupies bits the command leaves clear, so
    the bitwise or of the two is written as their sum. */
module GraphicDisplay {
  import opened Bits
  import opened LineRaster
  import opened CircleRaster

  const WIDTH: nat := 128
  const HEIGHT: nat := 64
  const PAGES: nat := 8
  const CMD_PAGE_ADDR_SET: nat := 0xB0
  const CMD_COL_ADDR_SET: nat := 0x10

  predicate OnScreen(p: Point) { 0 <= p.0 < WIDTH && 0 <= p.1 < HEIGHT }

  /** The picture after the points of `ps` that lie on the screen are set or cleared. */
  function Paint(picture: set<Point>, ps: set<Point>, color: bool): set<Point> {
    var visible := set p | p in ps && OnScreen(p);
    if color then picture + visible else picture - visible
  }

  lemma PaintTwice(picture: set<Point>, a: set<Point>, b: set<Point>, color: bool)
    ensures Paint(Paint(picture, a, color), b, color) == Paint(picture, a + b, color)
  {
  }

  lemma PaintNothing(picture: set<Point>, color: bool)
    ensures Paint(picture, {}, color) == picture
  {
  }

  /** Only the points on the screen matter. */
  lemma PaintVisible(picture: set<Point>, a: set<Point>, b: set<Point>, color: bool)
    requires forall p :: OnScreen(p) ==> (p in a <==> p in b)
    ensures Paint(picture, a, color) == Paint(picture, b, color)
  {
  }

  class Panel {
    const ram: array2<Byte>
    var page: nat
    var col: nat

    ghost predicate Valid()
      reads this
    {
      ram.Length0 == WIDTH && ram.Length1 == PAGES && col < 256 && page < 16
    }

    constructor ()
      ensures Valid() && fresh(ram)
    {
      ram := new Byte[WIDTH, PAGES];
      page, col := 0, 0;
    }

    method Command(cmd: nat)
      requires Valid() && cmd < 256
      modifies this`page, this`col
      ensures Valid()
      ensures page == (if cmd / 16 == 0xB then cmd % 16 else old(page))
      ensures col == (if cmd / 16 == 1 then 16 * (cmd % 16) + old(col) % 16
                      else if cmd / 16 == 0 then old(col) / 16 * 16 + cmd % 16 else old(col))
    {
      if cmd / 16 == 0xB {
        page := cmd % 16;
      } else if cmd / 16 == 1 {
        col := 16 * (cmd % 16) + col % 16;
      } else if cmd / 16 == 0 {
        col := col / 16 * 16 + cmd % 16;
      }
    }

    /** A data byte goes to the cursor position and moves the cursor on by one column. */
    method Data(b: Byte)
      requires Valid()
      modifies this`col, ram
      ensures Valid() && col == if old(col) < 255 then old(col) + 1 else 255
      ensures forall x, p :: 0 <= x < WIDTH && 0 <= p < PAGES ==>
                ram[x, p] == if x == old(col) && p == page then b else old(ram[x, p])
    {
      if col < WIDTH && page < PAGES {
        ram[col, page] := b;
      }
      col := if col < 255 then col + 1 else 255;
    }
  }

  class Driver {
    const panel: Panel
    const state0: array2<Byte>
    var col0: nat
    var row0: nat
    /** The pixels that are set in the shadow buffer. */
    ghost var picture: set<Point>

    ghost predicate Wired()
      reads this, panel
    {
      && panel.Valid() && state0.Length0 == WIDTH && state0.Length1 == PAGES && panel.ram != state0
    }

    /** The shadow cursor is the cursor of the panel. */
    ghost predicate CursorAgrees()
      reads this, panel
    {
      col0 == panel.col < WIDTH && row0 == panel.page < PAGES
    }

    /** The shadow buffer is the RAM of the panel. */
    ghost predicate ShadowAgrees()
      requires Wired()
      reads this, panel, panel.ram, state0
    {
      forall x, p :: 0 <= x < WIDTH && 0 <= p < PAGES ==> panel.ram[x, p] == state0[x, p]
    }

    ghost predicate PictureAgrees()
      requires Wired()
      reads this, panel, state0
    {
      && (forall q :: q in picture ==> OnScreen(q))
      && (forall x, p, t :: 0 <= x < WIDTH && 0 <= p < PAGES && 0 <= t < 8 ==>
            ((x, PAGES * p + t) in picture <==> IsSet(state0[x, p], t)))
    }

    ghost predicate Valid()
      reads this, panel, panel.ram, state0
    {
      Wired() && CursorAgrees() && ShadowAgrees() && PictureAgrees()
    }

    /** Where a pixel is in the RAM of the panel: column `x`, page `y / 8`, bit `y % 8`. */
    lemma PixelInRam(x: nat, y: nat)
      requires Valid() && x < 128 && y < 64
      ensures (x, y) in picture <==> panel.ram[x, y / 8] & [1, 2, 4, 8, 16, 32, 64, 128][y % 8] != 0
    {
      var t := y % 8;
      assert PAGES * (y / 8) + t == y;
      assert IsSet(state0[x, y / 8], t) == (state0[x, y / 8] & Bit(t) != 0);
      assert Bit(t) == [1, 2, 4, 8, 16, 32, 64, 128][t];
    }

    /** Power-up: the C start-up code clears the shadow buffer, the panel holds anything. */
    constructor (panel: Panel)
      requires panel.Valid()
      ensures Wired() && this.panel == panel && fresh(state0) && col0 == 0 && row0 == 0
      ensures PictureAgrees() && picture == {}
      ensures forall x, p :: 0 <= x < WIDTH && 0 <= p < PAGES ==> state0[x, p] == 0
    {
      this.panel := panel;
      state0 := new Byte[WIDTH, PAGES]((_, _) => 0);
      col0, row0 := 0, 0;
      picture := {};
    }

    method PageAddrSet(a: nat)
      requires Wired() && a < PAGES
      modifies panel`page, panel`col
      ensures Wired() && panel.page == a && panel.col == old(panel.col)
    {
      panel.Command(CMD_PAGE_ADDR_SET + a % 16);
    }

    method ColAddrSet(a: nat)
      requires Wired() && a < 256
      modifies panel`page, panel`col
      ensures Wired() && panel.page == old(panel.page) && panel.col == a
    {
      panel.Command(CMD_COL_ADDR_SET + a / 16);
      panel.Command(a % 16);
    }

    /** The panel is told only about positions it has; the shadow cursor moves in any case. */
    method GotoXY(x: nat, y: nat)
      requires Wired() && x < 256 && y < 256
      modifies this`col0, this`row0, panel`page, panel`col
      ensures Wired() && col0 == x && row0 == y % 8
      ensures x < WIDTH && y < PAGES ==> CursorAgrees()
      ensures !(x < WIDTH && y < PAGES) ==> panel.col == old(panel.col) && panel.page == old(panel.page)
    {
      if x < WIDTH && y < PAGES {
        PageAddrSet(y);
        ColAddrSet(x);
      }
      col0 := x;
      row0 := y % 8;
    }

    /** Writes one byte and moves both cursors to the next column, or to the next page. */
    method DataWrite(data: Byte)
      requires Wired() && CursorAgrees()
      modifies this`col0, this`row0, panel`page, panel`col, panel.ram
      ensures Wired() && CursorAgrees()
      ensures col0 == (old(col0) + 1) % WIDTH
      ensures row0 == if old(col0) + 1 < WIDTH then old(row0) else (old(row0) + 1) % PAGES
      ensures forall x, p :: 0 <= x < WIDTH && 0 <= p < PAGES ==>
                panel.ram[x, p] == if x == old(col0) && p == old(row0) then data else old(panel.ram[x, p])
    {
      panel.Data(data);
      col0 := col0 + 1;
      if col0 >= WIDTH {
        col0 := 0;
        row0 := (row0 + 1) % 8;
        PageAddrSet(row0);
        ColAddrSet(col0);
      }
    }

    method SetClearScreen(data: Byte)
      requires Wired()
      modifies this`col0, this`row0, panel`page, panel`col, panel.ram
      ensures Wired() && CursorAgrees() && col0 == 0 && row0 == 0
      ensures forall x, p :: 0 <= x < WIDTH && 0 <= p < PAGES ==> panel.ram[x, p] == data
    {
      GotoXY(0, 0);
      var j := 0;
      while j < PAGES
        invariant j <= PAGES && Wired() && CursorAgrees() && col0 == 0 && row0 == j % PAGES
        invariant forall x, p :: 0 <= x < WIDTH && 0 <= p < j ==> panel.ram[x, p] == data
      {
        var i := 0;
        while i < WIDTH
          invariant i <= WIDTH && Wired() && CursorAgrees()
          invariant col0 == i % WIDTH && row0 == if i < WIDTH then j else (j + 1) % PAGES
          invariant forall x, p :: 0 <= x < WIDTH && 0 <= p < j ==> panel.ram[x, p] == data
          invariant forall x :: 0 <= x < i ==> panel.ram[x, j] == data
        {
          DataWrite(data);
          i := i + 1;
        }
        j := j + 1;
      }
    }

    /** Start-up clears the panel but not the shadow buffer, so the two agree afterwards
        exactly when the shadow buffer was blank already. */
    method Init()
      requires Wired() && PictureAgrees()
      modifies this`col0, this`row0, panel`page, panel`col, panel.ram
      ensures Wired() && CursorAgrees() && PictureAgrees()
      ensures forall x, p :: 0 <= x < WIDTH && 0 <= p < PAGES ==> panel.ram[x, p] == 0
      ensures Valid() <==> forall x, p :: 0 <= x < WIDTH && 0 <= p < PAGES ==> state0[x, p] == 0
    {
      GotoXY(0, 0);
      SetClearScreen(0);
    }

    /** Stores a byte in the shadow buffer and sends it to the same place of the panel. */
    method PutByte(x: nat, page: nat, b: Byte)
      requires Wired() && CursorAgrees() && ShadowAgrees() && x < WIDTH && page < PAGES
      modifies this`col0, this`row0, panel`page, panel`col, panel.ram, state0
      ensures Wired() && CursorAgrees() && ShadowAgrees()
      ensures forall u, p :: 0 <= u < WIDTH && 0 <= p < PAGES ==>
                state0[u, p] == if u == x && p == page then b else old(state0[u, p])
    {
      GotoXY(x, page);
      state0[x, page] := b;
      DataWrite(state0[x, page]);
    }

    method WritePixel(x: nat, y: nat, color: bool)
      requires Valid() && x < 256 && y < 256
      modifies this`col0, this`row0, this`picture, panel`page, panel`col, panel.ram, state0
      ensures Valid() && picture == Paint(old(picture), {(x, y)}, color)
    {
      hide IsSet, Assign, Paint;
      if x < WIDTH && y < HEIGHT {
        var was := state0[x, y / 8];
        PutByte(x, y / 8, Assign(was, y % 8, color));
        picture := Paint(picture, {(x, y)}, color);
        PaintOne(old(picture), x, y, color);
        forall u, p, t | 0 <= u < WIDTH && 0 <= p < PAGES && 0 <= t < 8
          ensures (u, PAGES * p + t) in picture <==> IsSet(state0[u, p], t)
        {
          SamePixel(p, t, y);
          AssignIsSet(was, y % 8, color, t);
        }
      } else {
        PaintOutside(picture, x, y, color);
      }
    }

    method WriteLine(x0: nat, y0: nat, x1: nat, y1: nat, color: bool)
      requires Valid() && x0 < 256 && y0 < 256 && x1 < 256 && y1 < 256
      modifies this`col0, this`row0, this`picture, panel`page, panel`col, panel.ram, state0
      ensures Valid() && picture == Paint(old(picture), Line(x0, y0, x1, y1), color)
    {
      if Abs(x1 - x0) >= Abs(y1 - y0) {
        WriteFlatLine(x0, y0, x1, y1, color);
      } else {
        WriteSteepLine(x0, y0, x1, y1, color);
      }
    }

    /** The branch for lines at least as wide as high. */
    method WriteFlatLine(x0: nat, y0: nat, x1: nat, y1: nat, color: bool)
      requires Valid() && x0 < 256 && y0 < 256 && x1 < 256 && y1 < 256 && Abs(x1 - x0) >= Abs(y1 - y0)
      modifies this`col0, this`row0, this`picture, panel`page, panel`col, panel.ram, state0
      ensures Valid() && picture == Paint(old(picture), Line(x0, y0, x1, y1), color)
    {
      hide MinorSteps, LinePoints, Paint, ErrorTerm, LinePoint;
      var farX, farY := Abs(x1 - x0), Abs(y1 - y0);
      var x: int, y: int := x0, y0;
      var incX, incY := Sign(x0, x1), Sign(y0, y1);
      var i: nat, P: int := 0, 2 * farY - farX;
      LineStart(old(picture), x0, y0, x1, y1, color);
      while i <= farX
        invariant i <= farX + 1 && Valid()
        invariant picture == Paint(old(picture), LinePoints(x0, y0, x1, y1, i), color)
        invariant i <= farX ==> (x, y) == LinePoint(x0, y0, x1, y1, i)
        invariant i <= farX ==> P == ErrorTerm(i, farX, farY)
        invariant i <= farX ==> -2 * farX <= P <= 2 * farY
      {
        LineStep(old(picture), x0, y0, x1, y1, i, color);
        WritePixel(x, y, color);
        if i < farX {
          MajorStep(i, farX, farY);
          NextPoint(x0, y0, x1, y1, i);
        }
        if P < 0 {
          P := P + 2 * farY;
          x := (x + incX) % 256;
        } else {
          P := P + 2 * farY - 2 * farX;
          x := (x + incX) % 256;
          y := (y + incY) % 256;
        }
        assert -0x8000 <= P < 0x8000;
        i := i + 1;
      }
    }

    /** The branch for lines higher than wide. */
    method WriteSteepLine(x0: nat, y0: nat, x1: nat, y1: nat, color: bool)
      requires Valid() && x0 < 256 && y0 < 256 && x1 < 256 && y1 < 256 && Abs(x1 - x0) < Abs(y1 - y0)
      modifies this`col0, this`row0, this`picture, panel`page, panel`col, panel.ram, state0
      ensures Valid() && picture == Paint(old(picture), Line(x0, y0, x1, y1), color)
    {
      hide MinorSteps, LinePoints, Paint, ErrorTerm, LinePoint;
      var farX, farY := Abs(x1 - x0), Abs(y1 - y0);
      var x: int, y: int := x0, y0;
      var incX, incY := Sign(x0, x1), Sign(y0, y1);
      var i: nat, P: int := 0, 2 * farX - farY;
      LineStart(old(picture), x0, y0, x1, y1, color);
      while i <= farY
        invariant i <= farY + 1 && Valid()
        invariant picture == Paint(old(picture), LinePoints(x0, y0, x1, y1, i), color)
        invariant i <= farY ==> (x, y) == LinePoint(x0, y0, x1, y1, i)
        invariant i <= farY ==> P == ErrorTerm(i, farY, farX)
        invariant i <= farY ==> -2 * farY <= P <= 2 * farX
      {
        LineStep(old(picture), x0, y0, x1, y1, i, color);
        WritePixel(x, y, color);
        if i < farY {
          MajorStep(i, farY, farX);
          NextPoint(x0, y0, x1, y1, i);
        }
        if P < 0 {
          P := P + 2 * farX;
          y := (y + incY) % 256;
        } else {
          P := P + 2 * farX - 2 * farY;
          x := (x + incX) % 256;
          y := (y + incY) % 256;
        }
        assert -0x8000 <= P < 0x8000;
        i := i + 1;
      }
    }

    method WriteRectangle(x0: nat, y0: nat, x1: nat, y1: nat, color: bool)
      requires Valid() && x0 < 256 && y0 < 256 && x1 < 256 && y1 < 256
      modifies this`col0, this`row0, this`picture, panel`page, panel`col, panel.ram, state0
      ensures Valid() && picture == Paint(old(picture), Rectangle(x0, y0, x1, y1), color)
    {
      hide Paint, Line;
      var a, b := Line(x0, y0, x1, y0), Line(x0, y0, x0, y1);
      var c, d := Line(x0, y1, x1, y1), Line(x1, y0, x1, y1);
      WriteLine(x0, y0, x1, y0, color);
      WriteLine(x0, y0, x0, y1, color);
      PaintTwice(old(picture), a, b, color);
      WriteLine(x0, y1, x1, y1, color);
      PaintTwice(old(picture), a + b, c, color);
      WriteLine(x1, y0, x1, y1, color);
      PaintTwice(old(picture), a + b + c, d, color);
    }

    /** The rows from y0 up to, but not including, y1. */
    method WriteBox(x0: nat, y0: nat, x1: nat, y1: nat, color: bool)
      requires Valid() && x0 < 256 && y0 < 256 && x1 < 256 && y1 < 256
      modifies this`col0, this`row0, this`picture, panel`page, panel`col, panel.ram, state0
      ensures Valid() && picture == Paint(old(picture), Box(x0, y0, x1, y1), color)
    {
      hide Paint, Line, Box;
      var i := y0;
      BoxEmpty(x0, y0, x1);
      PaintNothing(picture, color);
      if y1 <= y0 {
        BoxBackwards(x0, y0, x1, y1);
      }
      while i < y1
        invariant y0 <= i && (y0 <= y1 ==> i <= y1) && (y1 <= y0 ==> i == y0) && Valid()
        invariant picture == Paint(old(picture), Box(x0, y0, x1, i), color)
      {
        WriteLine(x0, i, x1, i, color);
        PaintTwice(old(picture), Box(x0, y0, x1, i), Line(x0, i, x1, i), color);
        BoxGrows(x0, y0, x1, i);
        i := i + 1;
      }
    }

    /** The eight images of a point of the first octant. */
    method WriteMirrors(x0: nat, y0: nat, x: int, y: int, color: bool)
      requires Valid()
      modifies this`col0, this`row0, this`picture, panel`page, panel`col, panel.ram, state0
      ensures Valid() && picture == Paint(old(picture), Mirrors(x0, y0, (x, y)), color)
    {
      hide Paint;
      ghost var p := old(picture);
      var a, b, c, d := (x0 + x) % 256, (x0 - x) % 256, (y0 + y) % 256, (y0 - y) % 256;
      WritePixel(a, c, color);
      WritePixel(b, c, color);
      PaintTwice(p, {(a, c)}, {(b, c)}, color);
      WritePixel(a, d, color);
      PaintTwice(p, {(a, c)} + {(b, c)}, {(a, d)}, color);
      WritePixel(b, d, color);
      PaintTwice(p, {(a, c)} + {(b, c)} + {(a, d)}, {(b, d)}, color);
      ghost var half := {(a, c)} + {(b, c)} + {(a, d)} + {(b, d)};
      var e, f, g, h := (x0 + y) % 256, (x0 - y) % 256, (y0 + x) % 256, (y0 - x) % 256;
      WritePixel(e, g, color);
      PaintTwice(p, half, {(e, g)}, color);
      WritePixel(f, g, color);
      PaintTwice(p, half + {(e, g)}, {(f, g)}, color);
      WritePixel(e, h, color);
      PaintTwice(p, half + {(e, g)} + {(f, g)}, {(e, h)}, color);
      WritePixel(f, h, color);
      PaintTwice(p, half + {(e, g)} + {(f, g)} + {(e, h)}, {(f, h)}, color);
      assert half + {(e, g)} + {(f, g)} + {(e, h)} + {(f, h)} == Mirrors(x0, y0, (x, y));
    }

    /** The four points on the axes. */
    method WriteEnds(x0: nat, y0: nat, r: nat, color: bool)
      requires Valid() && x0 < 256 && y0 < 256 && r < 256
      modifies this`col0, this`row0, this`picture, panel`page, panel`col, panel.ram, state0
      ensures Valid() && picture == Paint(old(picture), Ends(x0, y0, r), color)
    {
      hide Paint;
      ghost var p := old(picture);
      var a, b, c, d := (y0 + r) % 256, (y0 - r) % 256, (x0 + r) % 256, (x0 - r) % 256;
      WritePixel(x0, a, color);
      WritePixel(x0, b, color);
      PaintTwice(p, {(x0, a)}, {(x0, b)}, color);
      WritePixel(c, y0, color);
      PaintTwice(p, {(x0, a)} + {(x0, b)}, {(c, y0)}, color);
      WritePixel(d, y0, color);
      PaintTwice(p, {(x0, a)} + {(x0, b)} + {(c, y0)}, {(d, y0)}, color);
      assert {(x0, a)} + {(x0, b)} + {(c, y0)} + {(d, y0)} == Ends(x0, y0, r);
    }

    /** The arithmetic of one turn of the circle loop. */
    static method NextOctantPoint(d: int, x: int, y: int) returns (d': int, x': int, y': int)
      requires -128 <= y <= 127 && 0 <= x < y
      ensures x' == x + 1 && y - 1 <= y' <= y
      ensures OctantLoop(d, x, y) == [(x', y')] + OctantLoop(d', x', y')
    {
      hide OctantLoop, ToInt8;
      OctantUnfolds(d, x, y);
      d', y' := d, y;
      if d < 0 {
        d' := ToInt8(d' + 2 * x + 3);
      } else {
        d' := ToInt8(d' + 2 * (x - y) + 5);
        y' := y' - 1;
      }
      x' := x + 1;
    }

    method WriteCircle(x0: nat, y0: nat, r: nat, color: bool)
      requires Valid() && x0 < 256 && y0 < 256 && r < 256
      modifies this`col0, this`row0, this`picture, panel`page, panel`col, panel.ram, state0
      ensures Valid() && picture == Paint(old(picture), CirclePixels(x0, y0, r), color)
    {
      hide Paint, Mirrors, ToInt8, Ends, MirrorsOf, OctantLoop;
      ghost var p := old(picture);
      ghost var ends := Ends(x0, y0, r);
      var d, x, y := ToInt8(1 - r), 0, ToInt8(r);
      Int8Range(r);
      WriteEnds(x0, y0, r, color);
      ghost var done: seq<Point> := [];
      assert ends + MirrorsOf(x0, y0, []) == ends by { MirrorsOfNone(x0, y0); }
      while x < y
        invariant 0 <= x <= 127 && -128 <= y <= 127 && Valid()
        invariant Octant(r) == done + OctantLoop(d, x, y)
        invariant picture == Paint(p, ends + MirrorsOf(x0, y0, done), color)
        decreases y - x
      {
        d, x, y := NextOctantPoint(d, x, y);
        assert done + ([(x, y)] + OctantLoop(d, x, y)) == (done + [(x, y)]) + OctantLoop(d, x, y);
        WriteMirrors(x0, y0, x, y, color);
        PaintMirrors(p, ends, x0, y0, done, (x, y), color);
        done := done + [(x, y)];
      }
      OctantUnfolds(d, x, y);
      assert done + [] == done;
    }
  }

  function Rectangle(x0: int, y0: int, x1: int, y1: int): set<Point> {
    Line(x0, y0, x1, y0) + Line(x0, y0, x0, y1) + Line(x0, y1, x1, y1) + Line(x1, y0, x1, y1)
  }

  predicate Between(a: int, b: int, v: int) { if a <= b then a <= v <= b else b <= v <= a }

  /** A rectangle is the points between its corners that are on one of its sides, all four of them,
      in whatever order the corners are given. */
  lemma RectangleIsOutline(x0: int, y0: int, x1: int, y1: int)
    ensures forall q: Point :: q in Rectangle(x0, y0, x1, y1) <==>
              && Between(x0, x1, q.0) && Between(y0, y1, q.1)
              && (q.0 == x0 || q.0 == x1 || q.1 == y0 || q.1 == y1)
  {
    hide Line;
    HorizontalLine(x0, y0, x1);
    HorizontalLine(x0, y1, x1);
    VerticalLine(x0, y0, y1);
    VerticalLine(x1, y0, y1);
  }

  /** The columns between x0 and x1 on the rows from y0 up to, but not including, y1. */
  function Box(x0: int, y0: int, x1: int, y1: int): set<Point> {
    set x, y | (if x0 <= x1 then x0 else x1) <= x <= (if x0 <= x1 then x1 else x0) && y0 <= y < y1 :: (x, y)
  }

  lemma BoxEmpty(x0: int, y0: int, x1: int)
    ensures Box(x0, y0, x1, y0) == {}
  {
  }

  lemma BoxBackwards(x0: int, y0: int, x1: int, y1: int)
    requires y1 <= y0
    ensures Box(x0, y0, x1, y1) == {}
  {
  }

  lemma BoxGrows(x0: int, y0: int, x1: int, i: int)
    requires y0 <= i
    ensures Box(x0, y0, x1, i) + Line(x0, i, x1, i) == Box(x0, y0, x1, i + 1)
  {
    hide Line;
    HorizontalLine(x0, i, x1);
    forall q: Point
      ensures q in Box(x0, y0, x1, i) + Line(x0, i, x1, i) <==> q in Box(x0, y0, x1, i + 1)
    {
    }
  }

  lemma LineStart(picture: set<Point>, x0: int, y0: int, x1: int, y1: int, color: bool)
    ensures LinePoint(x0, y0, x1, y1, 0) == (x0, y0)
    ensures Paint(picture, LinePoints(x0, y0, x1, y1, 0), color) == picture
    ensures var farX, farY := Abs(x1 - x0), Abs(y1 - y0);
            (farX >= farY ==> ErrorTerm(0, farX, farY) == 2 * farY - farX)
            && (farY >= farX ==> ErrorTerm(0, farY, farX) == 2 * farX - farY)
  {
    LineEnds(x0, y0, x1, y1);
    assert LinePoints(x0, y0, x1, y1, 0) == {};
    PaintNothing(picture, color);
    var farX, farY := Abs(x1 - x0), Abs(y1 - y0);
    if farX >= farY { ErrorTermStart(farX, farY); }
    if farY >= farX { ErrorTermStart(farY, farX); }
  }

  lemma LineStep(picture: set<Point>, x0: int, y0: int, x1: int, y1: int, i: nat, color: bool)
    requires i <= Steps(x0, y0, x1, y1) && 0 <= x0 < 256 && 0 <= y0 < 256 && 0 <= x1 < 256 && 0 <= y1 < 256
    ensures Paint(Paint(picture, LinePoints(x0, y0, x1, y1, i), color), {LinePoint(x0, y0, x1, y1, i)}, color)
         == Paint(picture, LinePoints(x0, y0, x1, y1, i + 1), color)
    ensures var q := LinePoint(x0, y0, x1, y1, i); 0 <= q.0 < 256 && 0 <= q.1 < 256
  {
    hide Paint, LinePoints, LinePoint;
    PaintTwice(picture, LinePoints(x0, y0, x1, y1, i), {LinePoint(x0, y0, x1, y1, i)}, color);
    LineGrows(x0, y0, x1, y1, i);
    LineInBox(x0, y0, x1, y1, i);
  }

  /** No pixel lies outside the rectangle between the end points. */
  lemma LineInBox(x0: int, y0: int, x1: int, y1: int, i: nat)
    requires i <= Steps(x0, y0, x1, y1)
    ensures var q := LinePoint(x0, y0, x1, y1, i);
            && (if x0 <= x1 then x0 <= q.0 <= x1 else x1 <= q.0 <= x0)
            && (if y0 <= y1 then y0 <= q.1 <= y1 else y1 <= q.1 <= y0)
  {
    hide MinorSteps;
    var farX, farY := Abs(x1 - x0), Abs(y1 - y0);
    if farX >= farY { MinorBounded(i, farX, farY); } else { MinorBounded(i, farY, farX); }
  }

  lemma {:induction false} MinorBounded(i: nat, major: nat, minor: nat)
    requires minor <= major && i <= major
    ensures MinorSteps(i, major, minor) <= minor
    decreases major - i
  {
    hide MinorSteps;
    MinorStepsEnds(major, minor);
    if i < major {
      MinorBounded(i + 1, major, minor);
      MinorStepsStep(i, major, minor);
    }
  }

  /** The value of the variable P after `i` steps. */
  function ErrorTerm(i: nat, major: nat, minor: nat): int {
    2 * minor * (i + 1) - major - 2 * major * MinorSteps(i, major, minor)
  }

  lemma ErrorTermStart(major: nat, minor: nat)
    requires minor <= major
    ensures ErrorTerm(0, major, minor) == 2 * minor - major
  {
    hide MinorSteps;
    MinorStepsEnds(major, minor);
  }

  /** The error term decides when the minor coordinate moves, and stays small. */
  lemma MajorStep(i: nat, major: nat, minor: nat)
    requires minor <= major && i < major
    ensures var m := MinorSteps(i, major, minor);
            var P := ErrorTerm(i, major, minor);
            && MinorSteps(i + 1, major, minor) == (if P < 0 then m else m + 1)
            && ErrorTerm(i + 1, major, minor) == (if P < 0 then P + 2 * minor else P + 2 * minor - 2 * major)
            && -2 * major <= ErrorTerm(i + 1, major, minor) <= 2 * minor
  {
    hide MinorSteps;
    var m := MinorSteps(i, major, minor);
    MinorStepsStep(i, major, minor);
    NearestIsMinorSteps(MinorSteps(i + 1, major, minor), i + 1, major, minor);
    assert 2 * minor * (i + 2) == 2 * minor * (i + 1) + 2 * minor;
    assert 2 * major * (m + 1) == 2 * major * m + 2 * major;
  }

  /** The next pixel, in 8-bit coordinates. */
  lemma NextPoint(x0: int, y0: int, x1: int, y1: int, i: nat)
    requires i < Steps(x0, y0, x1, y1) && 0 <= x0 < 256 && 0 <= y0 < 256 && 0 <= x1 < 256 && 0 <= y1 < 256
    ensures var farX, farY := Abs(x1 - x0), Abs(y1 - y0);
            var p, q := LinePoint(x0, y0, x1, y1, i), LinePoint(x0, y0, x1, y1, i + 1);
            var x, y := (p.0 + Sign(x0, x1)) % 256, (p.1 + Sign(y0, y1)) % 256;
            if farX >= farY then q == (x, if ErrorTerm(i, farX, farY) < 0 then p.1 else y)
            else q == (if ErrorTerm(i, farY, farX) < 0 then p.0 else x, y)
  {
    hide MinorSteps, ErrorTerm;
    var farX, farY := Abs(x1 - x0), Abs(y1 - y0);
    LineInBox(x0, y0, x1, y1, i + 1);
    if farX >= farY { MinorMove(i, farX, farY); } else { MinorMove(i, farY, farX); }
  }

  lemma MinorMove(i: nat, major: nat, minor: nat)
    requires minor <= major && i < major
    ensures MinorSteps(i + 1, major, minor)
         == if ErrorTerm(i, major, minor) < 0 then MinorSteps(i, major, minor) else MinorSteps(i, major, minor) + 1
  {
    hide ErrorTerm, MinorSteps;
    MajorStep(i, major, minor);
  }

  // Circles

  /** The images of a point around the centre (x0, y0), in 8-bit coordinates. */
  function Mirrors(x0: nat, y0: nat, p: Point): set<Point> {
    {((x0 + p.0) % 256, (y0 + p.1) % 256), ((x0 - p.0) % 256, (y0 + p.1) % 256),
     ((x0 + p.0) % 256, (y0 - p.1) % 256), ((x0 - p.0) % 256, (y0 - p.1) % 256),
     ((x0 + p.1) % 256, (y0 + p.0) % 256), ((x0 - p.1) % 256, (y0 + p.0) % 256),
     ((x0 + p.1) % 256, (y0 - p.0) % 256), ((x0 - p.1) % 256, (y0 - p.0) % 256)}
  }

  function MirrorsOf(x0: nat, y0: nat, ps: seq<Point>): set<Point> {
    if ps == [] then {} else Mirrors(x0, y0, ps[0]) + MirrorsOf(x0, y0, ps[1..])
  }

  function Ends(x0: nat, y0: nat, r: nat): set<Point> {
    {(x0, (y0 + r) % 256), (x0, (y0 - r) % 256), ((x0 + r) % 256, y0), ((x0 - r) % 256, y0)}
  }

  function CirclePixels(x0: nat, y0: nat, r: nat): set<Point>
    requires r < 256
  {
    Ends(x0, y0, r) + MirrorsOf(x0, y0, Octant(r))
  }

  lemma Int8Range(r: nat)
    requires r < 256
    ensures -128 <= ToInt8(r) <= 127
  {
  }

  lemma MirrorsOfNone(x0: nat, y0: nat)
    ensures MirrorsOf(x0, y0, []) == {}
  {
  }

  lemma {:induction false} MirrorsSnoc(x0: nat, y0: nat, ps: seq<Point>, p: Point)
    ensures MirrorsOf(x0, y0, ps + [p]) == MirrorsOf(x0, y0, ps) + Mirrors(x0, y0, p)
    decreases |ps|
  {
    hide Mirrors;
    if ps == [] {
      assert ps + [p] == [p];
      assert [p][1..] == [];
    } else {
      assert (ps + [p])[1..] == ps[1..] + [p];
      MirrorsSnoc(x0, y0, ps[1..], p);
    }
  }

  lemma PaintMirrors(p: set<Point>, ends: set<Point>, x0: nat, y0: nat, done: seq<Point>, q: Point, color: bool)
    ensures Paint(Paint(p, ends + MirrorsOf(x0, y0, done), color), Mirrors(x0, y0, q), color)
         == Paint(p, ends + MirrorsOf(x0, y0, done + [q]), color)
  {
    hide Paint, Mirrors, MirrorsOf;
    PaintTwice(p, ends + MirrorsOf(x0, y0, done), Mirrors(x0, y0, q), color);
    MirrorsSnoc(x0, y0, done, q);
    assert ends + MirrorsOf(x0, y0, done) + Mirrors(x0, y0, q) == ends + MirrorsOf(x0, y0, done + [q]);
  }

  /** The pixels of the screen that belong to the ideal circle. */
  function IdealCircle(x0: nat, y0: nat, r: nat): set<Point> {
    set x, y | 0 <= x < WIDTH && 0 <= y < HEIGHT && OnCircle(r, x - x0, y - y0) :: (x, y)
  }

  lemma {:induction false} MirrorsOfMember(x0: nat, y0: nat, ps: seq<Point>, q: Point)
    ensures q in MirrorsOf(x0, y0, ps) <==> exists p :: p in ps && q in Mirrors(x0, y0, p)
    decreases |ps|
  {
    hide Mirrors;
    if ps != [] {
      MirrorsOfMember(x0, y0, ps[1..], q);
      assert ps == [ps[0]] + ps[1..];
    }
  }

  lemma OnCircleMirrored(r: int, x: int, y: int, u: int, v: int)
    requires (Abs(x) == Abs(u) && Abs(y) == Abs(v)) || (Abs(x) == Abs(v) && Abs(y) == Abs(u))
    ensures OnCircle(r, x, y) == OnCircle(r, u, v)
  {
    hide OnArc;
  }

  lemma MirrorOnScreen(x0: nat, y0: nat, r: nat, p: Point, q: Point)
    requires x0 < WIDTH && y0 < HEIGHT && r <= 83 && 0 <= p.0 <= r && 0 <= p.1 <= r && OnScreen(q)
    requires q in Mirrors(x0, y0, p)
    ensures OnCircle(r, q.0 - x0, q.1 - y0) == OnCircle(r, p.0, p.1)
  {
    hide OnCircle, Abs, Mirrors;
    MirrorCoordinates(x0, y0, p, q);
    Unwrap(x0, p.0, q.0);
    Unwrap(y0, p.1, q.1);
    Unwrap(x0, p.1, q.0);
    Unwrap(y0, p.0, q.1);
    OnCircleMirrored(r, q.0 - x0, q.1 - y0, p.0, p.1);
  }

  /** `w` is at 8-bit distance `v` from `c`, on either side. */
  predicate At(c: nat, v: int, w: int) { w == (c + v) % 256 || w == (c - v) % 256 }

  lemma MirrorCoordinates(x0: nat, y0: nat, p: Point, q: Point)
    requires q in Mirrors(x0, y0, p)
    ensures (At(x0, p.0, q.0) && At(y0, p.1, q.1)) || (At(x0, p.1, q.0) && At(y0, p.0, q.1))
  {
  }

  /** A coordinate on the screen at 8-bit distance `v` from `c` is at distance `v`. */
  lemma Unwrap(c: nat, v: int, w: int)
    requires c < WIDTH && 0 <= v <= 83 && 0 <= w < WIDTH
    ensures At(c, v, w) ==> Abs(w - c) == Abs(v)
  {
  }

  lemma OnScreenMirror(x0: nat, y0: nat, q: Point)
    requires OnScreen(q)
    ensures q in Mirrors(x0, y0, (Low(q.0 - x0, q.1 - y0), High(q.0 - x0, q.1 - y0)))
  {
    var x, y := q.0 - x0, q.1 - y0;
    assert q.0 == (x0 + x) % 256 && q.1 == (y0 + y) % 256;
  }

  /** The points on the axes are images of the topmost point. */
  lemma EndsAreMirrors(x0: nat, y0: nat, r: nat)
    requires x0 < 256 && y0 < 256
    ensures Ends(x0, y0, r) == Mirrors(x0, y0, (0, r))
  {
  }

  /** For a drawable radius and a centre on the screen, what appears is the ideal circle. */
  lemma CircleIsIdeal(picture: set<Point>, x0: nat, y0: nat, r: nat, color: bool)
    requires x0 < WIDTH && y0 < HEIGHT && r < 256 && Drawable(r)
    ensures Paint(picture, CirclePixels(x0, y0, r), color) == Paint(picture, IdealCircle(x0, y0, r), color)
  {
    hide OnCircle, Paint, Ends, Mirrors, MirrorsOf, Octant, OnArc, Low, High, Abs;
    OctantIsArc(r);
    EndsAreMirrors(x0, y0, r);
    forall q: Point | OnScreen(q)
      ensures q in CirclePixels(x0, y0, r) <==> q in IdealCircle(x0, y0, r)
    {
      MirrorsOfMember(x0, y0, Octant(r), q);
      TopIsOnCircle(r);
      if q in Ends(x0, y0, r) {
        MirrorOnScreen(x0, y0, r, (0, r), q);
      } else if q in MirrorsOf(x0, y0, Octant(r)) {
        var p :| p in Octant(r) && q in Mirrors(x0, y0, p);
        MirrorOnScreen(x0, y0, r, p, q);
      }
      if OnCircle(r, q.0 - x0, q.1 - y0) {
        OnScreenMirror(x0, y0, q);
        OnCircleMeans(r, q.0 - x0, q.1 - y0);
      }
    }
    PaintVisible(picture, CirclePixels(x0, y0, r), IdealCircle(x0, y0, r), color);
  }

  /** For every other radius the circle around the corner (0, 0) already differs on the screen. */
  lemma CircleIsWrong(r: nat) returns (q: Point)
    requires r < 256 && !Drawable(r)
    ensures OnScreen(q) && (q in CirclePixels(0, 0, r) <==> q !in IdealCircle(0, 0, r))
  {
    hide Octant, MirrorsOf, OnCircle, Ends;
    if r <= 127 {
      var x := WrongPoint(r);
      q := (r - 2, x + 2);
      assert q in Mirrors(0, 0, (x + 2, r - 2));
      MirrorsOfMember(0, 0, Octant(r), q);
      OnCircleMirrored(r, r - 2, x + 2, x + 2, r - 2);
    } else {
      NoOctant(r);
      MirrorsOfNone(0, 0);
      q := if r == 128 then (127, 16) else (256 - r, 0);
      FarCircle(r);
    }
  }

  /** From radius 128 on only the four end points are drawn. Around (0, 0) they are not on the
      screen for 128, where the circle is, and from 129 on two of them wrap onto the screen. */
  lemma FarCircle(r: nat)
    requires 128 <= r < 256
    ensures r == 128 ==> (127, 16) !in Ends(0, 0, r) && OnCircle(r, 127, 16)
    ensures r > 128 ==> (256 - r, 0) in Ends(0, 0, r) && !OnCircle(r, 256 - r, 0)
  {
    hide OnArc, OnCircle;
    if r > 128 {
      OnCircleMeans(r, 256 - r, 0);
      ShortRadius(r, 256 - r);
    } else {
      OnCircleMeans(128, 127, 16);
      ArcOf128();
    }
  }

  lemma ShortRadius(r: int, b: int)
    requires 0 < b < r
    ensures !OnArc(r, 0, b)
  {
    MonotoneSquare(b + 1, r);
    assert (b + 1) * (b + 1) == b * b + 2 * b + 1;
  }

  lemma ArcOf128()
    ensures OnArc(128, 16, 127)
  {
  }

  /** What the screen shows is the ideal circle. */
  predicate ShowsCircle(picture: set<Point>, x0: nat, y0: nat, r: nat, color: bool)
    requires r < 256
  {
    Paint(picture, CirclePixels(x0, y0, r), color) == Paint(picture, IdealCircle(x0, y0, r), color)
  }

  /** Around every centre on the screen, in either color and over any picture, exactly for the
      drawable radii. */
  lemma CircleIsIdealExactly(r: nat)
    requires r < 256
    ensures (forall picture: set<Point>, x0: nat, y0: nat, color: bool ::
               x0 < WIDTH && y0 < HEIGHT ==> ShowsCircle(picture, x0, y0, r, color))
       <==> Drawable(r)
  {
    if Drawable(r) {
      hide ShowsCircle;
      forall picture: set<Point>, x0: nat, y0: nat, color: bool | x0 < WIDTH && y0 < HEIGHT
        ensures ShowsCircle(picture, x0, y0, r, color)
      {
        IdealShows(picture, x0, y0, r, color);
      }
    } else {
      hide CirclePixels, IdealCircle;
      var q := CircleIsWrong(r);
      assert q in Paint({}, CirclePixels(0, 0, r), true) <==> q !in Paint({}, IdealCircle(0, 0, r), true);
      assert !ShowsCircle({}, 0, 0, r, true);
    }
  }

  lemma IdealShows(picture: set<Point>, x0: nat, y0: nat, r: nat, color: bool)
    requires x0 < WIDTH && y0 < HEIGHT && r < 256 && Drawable(r)
    ensures ShowsCircle(picture, x0, y0, r, color)
  {
    hide Paint;
    CircleIsIdeal(picture, x0, y0, r, color);
  }

  lemma TopIsOnCircle(r: nat)
    ensures OnCircle(r, 0, r) == OnArc(r, 0, r)
  {
  }

  lemma OnCircleMeans(r: int, x: int, y: int)
    ensures OnCircle(r, x, y) == OnArc(r, Low(x, y), High(x, y)) && Low(x, y) <= High(x, y)
  {
  }

  lemma PaintOne(picture: set<Point>, x: int, y: int, color: bool)
    requires OnScreen((x, y))
    ensures forall q :: q in Paint(picture, {(x, y)}, color) <==> if q == (x, y) then color else q in picture
  {
  }

  lemma PaintOutside(picture: set<Point>, x: int, y: int, color: bool)
    requires !OnScreen((x, y))
    ensures Paint(picture, {(x, y)}, color) == picture
  {
  }

  lemma SamePixel(p: nat, t: nat, y: nat)
    requires t < 8
    ensures PAGES * p + t == y <==> p == y / 8 && t == y % 8
  {
  }

  /** The size of the screen, and the two commands that set the cursor. */
  lemma PanelInNumbers()
    ensures forall x, y :: OnScreen((x, y)) <==> 0 <= x <= 127 && 0 <= y <= 63
    ensures PAGES == 8 && CMD_PAGE_ADDR_SET == 0xB0 && CMD_COL_ADDR_SET == 0x10
  {
  }
}
