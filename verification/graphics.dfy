/**
 * The C++ `Graphics` class: clipped pixel writes into the framebuffer, the
 * pixel read-back, a screen fill, and the shape primitives built on
 * `set_pixel` (squares, rectangles, Bresenham lines, triangles and filled
 * midpoint circles). Colours are `rgb` component triples, packed into a
 * pixel as red << 16 | green << 8 | blue. The framebuffer memory is an array
 * of 32-bit pixels holding at least `width * height` of them, row after row.
 *
 * Each drawing operation is specified by the set of points it inks: the
 * on-screen pixels of that set take the colour and every other pixel keeps
 * its value (`Inked`).
 */
module Graphics {

  import opened Gfx
  import Arith

  /** `rgb`: a colour as three 8-bit components. */
  datatype Color = Color(red: bv8, green: bv8, blue: bv8)

  /** The pixel value `set_pixel` stores for a colour. */
  function Pack(c: Color): Rgb
  {
    RgbOf(c.red, c.green, c.blue)
  }

  /** The colour `get_pixel` reads out of a pixel value: bits 16..23, 8..15 and 0..7. */
  function Unpack(pixel: Rgb): Color
  {
    Color(((pixel >> 16) & 0xFF) as bv8, ((pixel >> 8) & 0xFF) as bv8, (pixel & 0xFF) as bv8)
  }

  /** Reading back a stored colour gives the colour. */
  lemma UnpackPack(c: Color)
    ensures Unpack(Pack(c)) == c
  {
    RgbComponents(c.red, c.green, c.blue);
  }

  /** Whether (x, y) lies on a `width` by `height` screen. */
  predicate OnScreen(x: int, y: int, width: nat, height: nat)
  {
    0 <= x < width && 0 <= y < height
  }

  /** Distinct on-screen pixels have distinct memory indices. */
  lemma PixelsDistinct(width: nat, x1: nat, y1: nat, x2: nat, y2: nat)
    requires x1 < width && x2 < width && (x1, y1) != (x2, y2)
    ensures Idx(width, x1, y1) != Idx(width, x2, y2)
  {
    if Idx(width, x1, y1) == Idx(width, x2, y2) {
      IdxInjective(width, x1, y1, x2, y2);
    }
  }

  /** An on-screen pixel's index lies inside the `width * height` screen. */
  lemma IdxOnScreen(width: nat, height: nat, x: nat, y: nat)
    requires x < width && y < height
    ensures Idx(width, x, y) < width * height
  {
    RowsOrdered(width, y, height);
  }

  /** The on-screen point whose pixel is held at memory index `p`. */
  function Pos(width: nat, p: nat): (pt: (int, int))
    ensures width > 0 ==> 0 <= pt.0 < width && pt.1 >= 0 && p == Idx(width, pt.0, pt.1)
  {
    if width == 0 then (0, 0) else (p % width, p / width)
  }

  /** The memory index of an on-screen point maps back to that point. */
  lemma PosIdx(width: nat, x: nat, y: nat)
    requires x < width
    ensures Pos(width, Idx(width, x, y)) == (x, y)
  {
    RowCol(width, y, x);
  }

  /**
   * `after` is `before` with the on-screen points of `inked` set to `color`:
   * every other pixel, on screen or past its end, is unchanged.
   */
  ghost predicate Inked(width: nat, height: nat, before: seq<Rgb>, after: seq<Rgb>, inked: iset<(int, int)>, color: Rgb)
  {
    |after| == |before| &&
    forall p :: 0 <= p < |after| ==>
      after[p] == if p < width * height && Pos(width, p) in inked then color else before[p]
  }

  /** Inking the on-screen point (x, y) stores the colour at its index. */
  lemma InkedAt(width: nat, height: nat, before: seq<Rgb>, after: seq<Rgb>, inked: iset<(int, int)>, color: Rgb,
                x: nat, y: nat)
    requires Inked(width, height, before, after, inked, color)
    requires x < width && y < height && width * height <= |before|
    ensures Idx(width, x, y) < |after|
    ensures after[Idx(width, x, y)] == if (x, y) in inked then color else before[Idx(width, x, y)]
  {
    IdxOnScreen(width, height, x, y);
    PosIdx(width, x, y);
  }

  /** Inking nothing leaves the screen as it is. */
  lemma InkedNothing(width: nat, height: nat, s: seq<Rgb>, color: Rgb)
    ensures Inked(width, height, s, s, iset{}, color)
  {
  }

  /** One `set_pixel` inks the single point (x, y); off the screen it changes nothing. */
  lemma InkedPoint(width: nat, height: nat, s: seq<Rgb>, x: int, y: int, color: Rgb)
    requires width * height <= |s|
    ensures OnScreen(x, y, width, height) ==>
      Idx(width, x, y) < |s| && Inked(width, height, s, s[Idx(width, x, y) := color], iset{(x, y)}, color)
    ensures !OnScreen(x, y, width, height) ==> Inked(width, height, s, s, iset{(x, y)}, color)
  {
    if OnScreen(x, y, width, height) {
      IdxOnScreen(width, height, x, y);
      PosIdx(width, x, y);
    } else {
      forall p | 0 <= p < width * height ensures Pos(width, p) != (x, y) {
      }
    }
  }

  /** Inking `p` and then `q` inks their union. */
  lemma InkedThen(width: nat, height: nat, a: seq<Rgb>, b: seq<Rgb>, c: seq<Rgb>,
                  p: iset<(int, int)>, q: iset<(int, int)>, color: Rgb)
    requires Inked(width, height, a, b, p, color) && Inked(width, height, b, c, q, color)
    ensures Inked(width, height, a, c, p + q, color)
  {
  }

  /** The points of the rectangle [x, x+w) x [y, y+h). */
  ghost function Rect(x: int, y: int, w: int, h: int): iset<(int, int)>
  {
    iset pt: (int, int) | x <= pt.0 < x + w && y <= pt.1 < y + h
  }

  /** The column `col` from row `lo` to row `hi`, both included. */
  ghost function Column(col: int, lo: int, hi: int): iset<(int, int)>
  {
    iset pt: (int, int) | pt.0 == col && lo <= pt.1 <= hi
  }

  /** A column with no rows is empty. */
  lemma ColumnEmpty(col: int, lo: int, hi: int)
    requires hi < lo
    ensures Column(col, lo, hi) == iset{}
  {
    forall pt: (int, int) ensures pt !in Column(col, lo, hi) {}
  }

  /** A column grows by one row at a time. */
  lemma ColumnGrow(col: int, lo: int, hi: int)
    ensures Column(col, lo, hi) + iset{(col, hi + 1)} == Column(col, lo, hi + 1) || hi + 1 < lo
  {
    if lo <= hi + 1 {
      var grown := Column(col, lo, hi) + iset{(col, hi + 1)};
      forall pt: (int, int) ensures pt in grown <==> pt in Column(col, lo, hi + 1) {}
    }
  }

  /** A rectangle with no columns is empty. */
  lemma RectEmpty(x: int, y: int, w: int, h: int)
    requires w <= 0
    ensures Rect(x, y, w, h) == iset{}
  {
    forall pt: (int, int) ensures pt !in Rect(x, y, w, h) {}
  }

  /** A rectangle grows by one column at a time. */
  lemma RectGrow(x: int, y: int, w: nat, h: int)
    ensures Rect(x, y, w, h) + Column(x + w, y, y + h - 1) == Rect(x, y, w + 1, h)
  {
    var grown := Rect(x, y, w, h) + Column(x + w, y, y + h - 1);
    forall pt: (int, int) ensures pt in grown <==> pt in Rect(x, y, w + 1, h) {}
  }

  /** The points of a path. */
  ghost function Points(path: seq<(int, int)>): iset<(int, int)>
  {
    iset pt | pt in path
  }

  /** Appending a point to a path adds exactly that point. */
  lemma PointsSnoc(path: seq<(int, int)>, pt: (int, int))
    ensures Points(path) + iset{pt} == Points(path + [pt])
  {
    var grown := Points(path) + iset{pt};
    forall q: (int, int) ensures q in grown <==> q in Points(path + [pt]) {
      assert q in path + [pt] <==> q in path || q == pt;
    }
  }

  /** The row `row` from column `lo` to column `hi`, both included. */
  ghost function Span(row: int, lo: int, hi: int): iset<(int, int)>
  {
    iset pt: (int, int) | lo <= pt.0 <= hi && pt.1 == row
  }

  /** Two rows grow by one column at a time. */
  lemma SpanPairGrow(lo: int, hi: int, row1: int, row2: int)
    requires lo <= hi + 1
    ensures Span(row1, lo, hi) + Span(row2, lo, hi) + (iset{(hi + 1, row1)} + iset{(hi + 1, row2)}) ==
            Span(row1, lo, hi + 1) + Span(row2, lo, hi + 1)
  {
    var grown := Span(row1, lo, hi) + Span(row2, lo, hi) + (iset{(hi + 1, row1)} + iset{(hi + 1, row2)});
    forall pt: (int, int) ensures pt in grown <==> pt in Span(row1, lo, hi + 1) + Span(row2, lo, hi + 1) {}
  }

  /** Rows with no columns are empty. */
  lemma SpanEmpty(row: int, lo: int, hi: int)
    requires hi < lo
    ensures Span(row, lo, hi) == iset{}
  {
    forall pt: (int, int) ensures pt !in Span(row, lo, hi) {}
  }

  /**
   * The four rows one step (x, y) of `draw_circle` fills, centred on column
   * `cx`: rows cy +- y from cx - x to cx + x, and rows cy +- x from cx - y to cx + y.
   */
  ghost function Octants(cx: int, cy: int, x: int, y: int): iset<(int, int)>
  {
    (Span(cy + y, cx - x, cx + x) + Span(cy - y, cx - x, cx + x)) +
    (Span(cy + x, cx - y, cx + y) + Span(cy - x, cx - y, cx + y))
  }

  /** The points filled by the steps of `draw_circle`. */
  ghost function Disc(cx: int, cy: int, steps: seq<(int, int)>): iset<(int, int)>
  {
    if steps == [] then iset{}
    else Disc(cx, cy, steps[..|steps| - 1]) + Octants(cx, cy, steps[|steps| - 1].0, steps[|steps| - 1].1)
  }

  /** One more step fills its octant rows on top of the earlier steps. */
  lemma DiscSnoc(cx: int, cy: int, steps: seq<(int, int)>, x: int, y: int)
    ensures Disc(cx, cy, steps + [(x, y)]) ==
      Disc(cx, cy, steps) + ((Span(cy + y, cx - x, cx + x) + Span(cy - y, cx - x, cx + x)) +
                             (Span(cy + x, cx - y, cx + y) + Span(cy - x, cx - y, cx + y)))
  {
    assert (steps + [(x, y)])[..|steps|] == steps;
  }

  /**
   * The filled circle is symmetric: mirrored about its centre column and
   * about its centre row.
   */
  lemma {:induction false} DiscSymmetric(cx: int, cy: int, steps: seq<(int, int)>, pt: (int, int))
    requires pt in Disc(cx, cy, steps)
    ensures (2 * cx - pt.0, pt.1) in Disc(cx, cy, steps)
    ensures (pt.0, 2 * cy - pt.1) in Disc(cx, cy, steps)
  {
    var init := steps[..|steps| - 1];
    if pt in Disc(cx, cy, init) {
      DiscSymmetric(cx, cy, init, pt);
    }
  }

  /** Steps (x, y) with 0 <= x <= y <= r fill only points within r of the centre in each coordinate. */
  lemma {:induction false} DiscInBox(cx: int, cy: int, r: int, steps: seq<(int, int)>, pt: (int, int))
    requires forall k :: 0 <= k < |steps| ==> 0 <= steps[k].0 <= steps[k].1 <= r
    requires pt in Disc(cx, cy, steps)
    ensures cx - r <= pt.0 <= cx + r && cy - r <= pt.1 <= cy + r
  {
    var init := steps[..|steps| - 1];
    if pt in Disc(cx, cy, init) {
      DiscInBox(cx, cy, r, init, pt);
    }
  }

  /** The absolute value, `kstd::abs`. */
  function Abs(n: int): (r: nat)
    ensures r == n || r == -n
  {
    if n < 0 then -n else n
  }

  /** Consecutive points of `path` are neighbours: each coordinate moves by at most one. */
  ghost predicate Connected(path: seq<(int, int)>)
  {
    forall k :: 0 < k < |path| ==> Adjacent(path[k - 1], path[k])
  }

  /** Whether `a` lies between `b` and `c`, in either order. */
  predicate Between(a: int, b: int, c: int)
  {
    b <= a <= c || c <= a <= b
  }

  /** Every point of `path` lies in the box spanned by (x1, y1) and (x2, y2). */
  ghost predicate InBox(path: seq<(int, int)>, x1: int, y1: int, x2: int, y2: int)
  {
    forall k :: 0 <= k < |path| ==> Between(path[k].0, x1, x2) && Between(path[k].1, y1, y2)
  }

  /** Whether two points are neighbours: each coordinate differs by at most one. */
  predicate Adjacent(p: (int, int), q: (int, int))
  {
    Abs(p.0 - q.0) <= 1 && Abs(p.1 - q.1) <= 1
  }

  /** A connected path in the box stays so when a neighbouring point in the box is appended. */
  lemma PathSnoc(path: seq<(int, int)>, pt: (int, int), x1: int, y1: int, x2: int, y2: int)
    requires Connected(path) && InBox(path, x1, y1, x2, y2)
    requires path != [] ==> Adjacent(path[|path| - 1], pt)
    requires Between(pt.0, x1, x2) && Between(pt.1, y1, y2)
    ensures Connected(path + [pt]) && InBox(path + [pt], x1, y1, x2, y2)
  {
  }

  /**
   * The state of `draw_line` walking from (x1, y1) to (x2, y2): (x, y) lies
   * in the bounding box, `sx` and `sy` point toward (x2, y2), and `err` is
   * the Bresenham error term for the distance still to go.
   */
  ghost predicate LineState(x1: int, y1: int, x2: int, y2: int, dx: int, dy: int, sx: int, sy: int,
                            x: int, y: int, err: int)
  {
    dx == Abs(x2 - x1) && dy == Abs(y2 - y1) &&
    sx == (if x1 < x2 then 1 else -1) && sy == (if y1 < y2 then 1 else -1) &&
    Between(x, x1, x2) && Between(y, y1, y2) &&
    err == dx - dy + Abs(x2 - x) * dy - Abs(y2 - y) * dx
  }

  /**
   * One step of `draw_line` away from the end point moves at least one
   * coordinate one pixel toward the end and neither coordinate past it.
   */
  lemma LineStep(x1: int, y1: int, x2: int, y2: int, dx: int, dy: int, sx: int, sy: int,
                 x: int, y: int, err: int, x': int, y': int, err': int)
    requires LineState(x1, y1, x2, y2, dx, dy, sx, sy, x, y, err) && (x, y) != (x2, y2)
    requires x' == (if 2 * err > -dy then x + sx else x)
    requires y' == (if 2 * err < dx then y + sy else y)
    requires err' == err - (if 2 * err > -dy then dy else 0) + (if 2 * err < dx then dx else 0)
    ensures LineState(x1, y1, x2, y2, dx, dy, sx, sy, x', y', err') && Adjacent((x, y), (x', y'))
    ensures Abs(x2 - x') + Abs(y2 - y') < Abs(x2 - x) + Abs(y2 - y)
  {
    var ex, ey := Abs(x2 - x), Abs(y2 - y);
    ErrorTerm(dx, dy, ex, ey, err);
  }

  /**
   * The arithmetic behind one Bresenham step, with `ex` and `ey` the
   * distances still to go: a step is taken in a coordinate only while
   * distance remains in it, at least one step is taken, and `err` follows.
   */
  lemma ErrorTerm(dx: int, dy: int, ex: int, ey: int, err: int)
    requires 0 <= ex <= dx && 0 <= ey && ey <= dy && ex + ey > 0
    requires err == dx - dy + ex * dy - ey * dx
    ensures 2 * err > -dy ==> ex > 0 && err - dy == dx - dy + (ex - 1) * dy - ey * dx
    ensures 2 * err < dx ==> ey > 0
    ensures 2 * err < dx ==> (2 * err > -dy ==> err - dy + dx == dx - dy + (ex - 1) * dy - (ey - 1) * dx)
    ensures 2 * err < dx ==> (2 * err <= -dy ==> err + dx == dx - dy + ex * dy - (ey - 1) * dx)
    ensures 2 * err > -dy || 2 * err < dx
  {
    if ex == 0 {
      Arith.MulAtLeast(ey, dx);
    }
    if ey == 0 {
      Arith.MulAtLeast(ex, dy);
    }
    assert (ex - 1) * dy == ex * dy - dy;
    assert (ey - 1) * dx == ey * dx - dx;
  }

  /**
   * The steps of `draw_circle` with radius `r`: step k is (k, y) with
   * k <= y <= r, and y drops by at most one from one step to the next.
   */
  ghost predicate CircleSteps(steps: seq<(int, int)>, r: int)
  {
    (forall k :: 0 <= k < |steps| ==> steps[k].0 == k && k <= steps[k].1 <= r) &&
    forall k :: 0 < k < |steps| ==> steps[k - 1].1 - 1 <= steps[k].1 <= steps[k - 1].1
  }

  /**
   * The steps (x, y) the midpoint loop of `draw_circle` visits from the
   * state (x, y, d), d being the decision variable: the loop runs while
   * x <= y; when d < 0 it moves to (x + 1, y, d + 4x + 6), otherwise to
   * (x + 1, y - 1, d + 4(x - y) + 10). Step k is (x + k, y_k) with
   * x + k <= y_k <= y, and y drops by at most one per step.
   */
  function MidpointFrom(x: int, y: int, d: int): (steps: seq<(int, int)>)
    ensures steps == [] <==> x > y
    decreases y - x + 1
  {
    if x > y then []
    else if d < 0 then [(x, y)] + MidpointFrom(x + 1, y, d + 4 * x + 6)
    else [(x, y)] + MidpointFrom(x + 1, y - 1, d + 4 * (x - y) + 10)
  }

  /** Where the loop goes next from (x, y, d) with x <= y, by the sign of d. */
  function MidpointNext(x: int, y: int, d: int): (next: (int, int, int))
    ensures next.0 == x + 1 && y - 1 <= next.1 <= y
  {
    if d < 0 then (x + 1, y, d + 4 * x + 6) else (x + 1, y - 1, d + 4 * (x - y) + 10)
  }

  /**
   * The shape of the midpoint steps from (x, y, d): step k is (x + k, y_k)
   * with x + k <= y_k <= y, starting at (x, y), and y drops by at most one
   * per step.
   */
  lemma {:induction false} MidpointShape(x: int, y: int, d: int)
    ensures var steps := MidpointFrom(x, y, d);
      (steps != [] ==> steps[0] == (x, y)) &&
      (forall k :: 0 <= k < |steps| ==> steps[k].0 == x + k && x + k <= steps[k].1 <= y) &&
      (forall k :: 0 < k < |steps| ==> steps[k - 1].1 - 1 <= steps[k].1 <= steps[k - 1].1)
    decreases y - x + 1
  {
    if x <= y {
      var (x', y', d') := MidpointNext(x, y, d);
      var rest := MidpointFrom(x', y', d');
      MidpointShape(x', y', d');
      var steps := MidpointFrom(x, y, d);
      assert steps == [(x, y)] + rest;
      forall k | 0 < k < |steps|
        ensures steps[k].0 == x + k && x + k <= steps[k].1 <= y
        ensures steps[k - 1].1 - 1 <= steps[k].1 <= steps[k - 1].1
      {
        assert steps[k] == rest[k - 1];
        if k > 1 {
          assert steps[k - 1] == rest[k - 2];
        }
      }
    }
  }

  /** One turn of the loop from (x, y, d) with x <= y visits (x, y) and goes on from `MidpointNext`. */
  lemma MidpointAdvance(steps: seq<(int, int)>, x: int, y: int, d: int, r: int)
    requires x <= y && steps + MidpointFrom(x, y, d) == MidpointSteps(r)
    ensures var next := MidpointNext(x, y, d);
      (steps + [(x, y)]) + MidpointFrom(next.0, next.1, next.2) == MidpointSteps(r)
  {
    var next := MidpointNext(x, y, d);
    var rest := MidpointFrom(next.0, next.1, next.2);
    assert MidpointFrom(x, y, d) == [(x, y)] + rest;
    assert steps + ([(x, y)] + rest) == (steps + [(x, y)]) + rest;
  }

  /** The steps of `draw_circle` with radius r: the loop starts at x = 0, y = r, d = 3 - 2r. */
  function MidpointSteps(r: int): seq<(int, int)>
  {
    MidpointFrom(0, r, 3 - 2 * r)
  }

  /**
   * The steps of radius r are none for a negative radius, start at (0, r)
   * otherwise, and have the shape `CircleSteps`.
   */
  lemma MidpointStepsShape(r: int)
    ensures var steps := MidpointSteps(r);
      (r < 0 <==> steps == []) && (r >= 0 ==> steps[0] == (0, r)) && CircleSteps(steps, r)
  {
    MidpointShape(0, r, 3 - 2 * r);
  }

  /** Radius 3: d goes -3, 3, 5, so the steps are (0, 3), (1, 3), (2, 2). */
  lemma MidpointRadiusThree()
    ensures MidpointSteps(3) == [(0, 3), (1, 3), (2, 2)]
  {
  }

  /** `Graphics`: the framebuffer it draws into. */
  class Graphics {
    var width: nat
    var height: nat
    var mem: array<Rgb>

    /** The framebuffer memory covers the whole screen. */
    ghost predicate Valid()
      reads this
    {
      width * height <= mem.Length
    }

    /** `init`: takes over a framebuffer of `w` by `h` pixels at `m`. */
    constructor (w: nat, h: nat, m: array<Rgb>)
      requires w * h <= m.Length
      ensures Valid() && width == w && height == h && mem == m
    {
      width, height, mem := w, h, m;
    }

    /** The pixel value at on-screen point (x, y). */
    ghost function PixelAt(x: nat, y: nat): Rgb
      reads this, mem
      requires Valid() && x < width && y < height
    {
      IdxOnScreen(width, height, x, y);
      mem[Idx(width, x, y)]
    }

    /** `set_pixel`: stores the colour at (x, y) when the point is on the screen, else does nothing. */
    method SetPixel(x: int, y: int, color: Color)
      requires Valid()
      modifies mem
      ensures OnScreen(x, y, width, height) ==>
        Idx(width, x, y) < mem.Length && mem[..] == old(mem[..])[Idx(width, x, y) := Pack(color)]
      ensures !OnScreen(x, y, width, height) ==> mem[..] == old(mem[..])
      ensures Inked(width, height, old(mem[..]), mem[..], iset{(x, y)}, Pack(color))
    {
      InkedPoint(width, height, mem[..], x, y, Pack(color));
      if x >= 0 && x < width && y >= 0 && y < height {
        IdxOnScreen(width, height, x, y);
        var red := (color.red as bv32) << 16;
        var green := (color.green as bv32) << 8;
        var blue := color.blue as bv32;
        var offset := y * width + x;
        mem[offset] := red | green | blue;
      }
    }

    /** `get_pixel`: the colour held in the low three bytes of pixel (x, y). */
    function GetPixel(x: nat, y: nat): (c: Color)
      reads this, mem
      requires Valid() && x < width && y < height
      ensures c == Unpack(PixelAt(x, y))
    {
      IdxOnScreen(width, height, x, y);
      var pixel := mem[y * width + x];
      Color(((pixel >> 16) & 0xFF) as bv8, ((pixel >> 8) & 0xFF) as bv8, (pixel & 0xFF) as bv8)
    }

    /** A colour set at an on-screen point is read back unchanged. */
    method SetThenGet(x: nat, y: nat, color: Color) returns (c: Color)
      requires Valid() && x < width && y < height
      modifies mem
      ensures c == color
    {
      SetPixel(x, y, color);
      c := GetPixel(x, y);
      UnpackPack(color);
    }

    /** `fill_screen`: every on-screen pixel becomes the colour, row by row. */
    method FillScreen(color: Color)
      requires Valid()
      modifies mem
      ensures forall p :: 0 <= p < width * height ==> mem[p] == Pack(color)
      ensures forall p :: width * height <= p < mem.Length ==> mem[p] == old(mem[p])
    {
      var y := 0;
      while y < height
        invariant y <= height && y * width <= width * height
        invariant forall p :: 0 <= p < y * width ==> mem[p] == Pack(color)
        invariant forall p :: y * width <= p < mem.Length ==> mem[p] == old(mem[p])
      {
        RowsOrdered(width, y, height);
        var x := 0;
        while x < width
          invariant x <= width
          invariant forall p :: 0 <= p < y * width + x ==> mem[p] == Pack(color)
          invariant forall p :: y * width + x <= p < mem.Length ==> mem[p] == old(mem[p])
        {
          SetPixel(x, y, color);
          x := x + 1;
        }
        RowNext(width, y);
        y := y + 1;
      }
    }

    /**
     * `draw_rectangle`: inks [x, x+w) x [y, y+h) column by column; points off
     * the screen are clipped by `set_pixel`, and an empty extent draws nothing.
     */
    method DrawRectangle(x: int, y: int, w: int, h: int, color: Color)
      requires Valid()
      modifies mem
      ensures Inked(width, height, old(mem[..]), mem[..], Rect(x, y, w, h), Pack(color))
    {
      ghost var before := mem[..];
      if w <= 0 {
        RectEmpty(x, y, w, h);
      }
      RectEmpty(x, y, 0, h);
      InkedNothing(width, height, before, Pack(color));
      var i := x;
      while i < x + w
        invariant x <= i && (i <= x + w || i == x)
        invariant Inked(width, height, before, mem[..], Rect(x, y, i - x, h), Pack(color))
      {
        ghost var mid := mem[..];
        DrawColumn(i, y, h, color);
        InkedThen(width, height, before, mid, mem[..], Rect(x, y, i - x, h), Column(i, y, y + h - 1), Pack(color));
        RectGrow(x, y, i - x, h);
        i := i + 1;
      }
    }

    /** The inner loop of `draw_rectangle` and `draw_square`: column `i`, rows [y, y+h). */
    method DrawColumn(i: int, y: int, h: int, color: Color)
      requires Valid()
      modifies mem
      ensures Inked(width, height, old(mem[..]), mem[..], Column(i, y, y + h - 1), Pack(color))
    {
      ghost var before := mem[..];
      if h <= 0 {
        ColumnEmpty(i, y, y + h - 1);
      }
      ColumnEmpty(i, y, y - 1);
      InkedNothing(width, height, before, Pack(color));
      var j := y;
      while j < y + h
        invariant y <= j && (j <= y + h || j == y)
        invariant Inked(width, height, before, mem[..], Column(i, y, j - 1), Pack(color))
      {
        ghost var mid := mem[..];
        SetPixel(i, j, color);
        InkedThen(width, height, before, mid, mem[..], Column(i, y, j - 1), iset{(i, j)}, Pack(color));
        ColumnGrow(i, y, j - 1);
        j := j + 1;
      }
    }

    /** `draw_square`: the same double loop as `draw_rectangle`, with equal sides. */
    method DrawSquare(x: int, y: int, side: int, color: Color)
      requires Valid()
      modifies mem
      ensures Inked(width, height, old(mem[..]), mem[..], Rect(x, y, side, side), Pack(color))
    {
      ghost var before := mem[..];
      if side <= 0 {
        RectEmpty(x, y, side, side);
      }
      RectEmpty(x, y, 0, side);
      InkedNothing(width, height, before, Pack(color));
      var i := x;
      while i < x + side
        invariant x <= i && (i <= x + side || i == x)
        invariant Inked(width, height, before, mem[..], Rect(x, y, i - x, side), Pack(color))
      {
        ghost var mid := mem[..];
        DrawColumn(i, y, side, color);
        InkedThen(width, height, before, mid, mem[..], Rect(x, y, i - x, side), Column(i, y, y + side - 1),
                  Pack(color));
        RectGrow(x, y, i - x, side);
        i := i + 1;
      }
    }

    /**
     * `draw_line`: Bresenham's line from (x1, y1) to (x2, y2). The loop
     * always ends, and the points it visits form a connected path from the
     * first endpoint to the second that never leaves their bounding box;
     * exactly the on-screen points of that path are inked.
     */
    method DrawLine(x1: int, y1: int, x2: int, y2: int, color: Color) returns (ghost path: seq<(int, int)>)
      requires Valid()
      modifies mem
      ensures |path| > 0 && path[0] == (x1, y1) && path[|path| - 1] == (x2, y2)
      ensures Connected(path) && InBox(path, x1, y1, x2, y2)
      ensures |path| <= Abs(x2 - x1) + Abs(y2 - y1) + 1
      ensures Inked(width, height, old(mem[..]), mem[..], Points(path), Pack(color))
    {
      ghost var before := mem[..];
      var dx: int := Abs(x2 - x1);
      var dy: int := Abs(y2 - y1);
      var err: int := dx - dy;
      var sx := if x1 < x2 then 1 else -1;
      var sy := if y1 < y2 then 1 else -1;
      var x, y := x1, y1;
      path := [];
      assert Points([]) == iset{};
      InkedNothing(width, height, before, Pack(color));
      while true
        invariant LineState(x1, y1, x2, y2, dx, dy, sx, sy, x, y, err)
        invariant path == [] ==> (x, y) == (x1, y1)
        invariant path != [] ==> path[0] == (x1, y1) && Adjacent(path[|path| - 1], (x, y))
        invariant Connected(path) && InBox(path, x1, y1, x2, y2)
        invariant |path| + Abs(x2 - x) + Abs(y2 - y) <= dx + dy
        invariant Inked(width, height, before, mem[..], Points(path), Pack(color))
        decreases Abs(x2 - x) + Abs(y2 - y)
      {
        path := PlotOnPath(before, path, x, y, color, x1, y1, x2, y2);
        if x == x2 && y == y2 {
          break;
        }
        ghost var x0, y0, err0 := x, y, err;
        var e2 := 2 * err;
        if e2 > -dy {
          err := err - dy;
          x := x + sx;
        }
        if e2 < dx {
          err := err + dx;
          y := y + sy;
        }
        LineStep(x1, y1, x2, y2, dx, dy, sx, sy, x0, y0, err0, x, y, err);
      }
    }

    /** The `set_pixel` of one `draw_line` step: the point joins the inked path. */
    method PlotOnPath(ghost before: seq<Rgb>, ghost path: seq<(int, int)>, x: int, y: int, color: Color,
                      ghost x1: int, ghost y1: int, ghost x2: int, ghost y2: int)
      returns (ghost path': seq<(int, int)>)
      requires Valid() && Inked(width, height, before, mem[..], Points(path), Pack(color))
      requires Connected(path) && InBox(path, x1, y1, x2, y2)
      requires path != [] ==> Adjacent(path[|path| - 1], (x, y))
      requires Between(x, x1, x2) && Between(y, y1, y2)
      modifies mem
      ensures path' == path + [(x, y)]
      ensures Connected(path') && InBox(path', x1, y1, x2, y2)
      ensures Inked(width, height, before, mem[..], Points(path'), Pack(color))
    {
      ghost var mid := mem[..];
      SetPixel(x, y, color);
      InkedThen(width, height, before, mid, mem[..], Points(path), iset{(x, y)}, Pack(color));
      PointsSnoc(path, (x, y));
      PathSnoc(path, (x, y), x1, y1, x2, y2);
      path' := path + [(x, y)];
    }

    /** `draw_triangle`: the three sides as `draw_line`s, from the first vertex round to itself. */
    method DrawTriangle(x1: int, y1: int, x2: int, y2: int, x3: int, y3: int, color: Color)
      returns (ghost side1: seq<(int, int)>, ghost side2: seq<(int, int)>, ghost side3: seq<(int, int)>)
      requires Valid()
      modifies mem
      ensures |side1| > 0 && side1[0] == (x1, y1) && side1[|side1| - 1] == (x2, y2)
      ensures |side2| > 0 && side2[0] == (x2, y2) && side2[|side2| - 1] == (x3, y3)
      ensures |side3| > 0 && side3[0] == (x3, y3) && side3[|side3| - 1] == (x1, y1)
      ensures Connected(side1) && Connected(side2) && Connected(side3)
      ensures Inked(width, height, old(mem[..]), mem[..], Points(side1) + Points(side2) + Points(side3), Pack(color))
    {
      ghost var s0 := mem[..];
      side1 := DrawLine(x1, y1, x2, y2, color);
      ghost var s1 := mem[..];
      side2 := DrawLine(x2, y2, x3, y3, color);
      InkedThen(width, height, s0, s1, mem[..], Points(side1), Points(side2), Pack(color));
      ghost var s2 := mem[..];
      side3 := DrawLine(x3, y3, x1, y1, color);
      InkedThen(width, height, s0, s2, mem[..], Points(side1) + Points(side2), Points(side3), Pack(color));
    }

    /**
     * `draw_circle`: the filled midpoint circle of radius `r` about (cx, cy).
     * Step k of the loop is (k, y) with y starting at `r` and dropping by at
     * most one per step, and it fills the rows of `Octants`; a negative
     * radius draws nothing, and the first step fills the whole centre row
     * from cx - r to cx + r.
     */
    method DrawCircle(cx: int, cy: int, r: int, color: Color) returns (ghost steps: seq<(int, int)>)
      requires Valid()
      modifies mem
      ensures steps == MidpointSteps(r)
      ensures r < 0 ==> steps == []
      ensures r >= 0 ==> |steps| > 0 && steps[0] == (0, r)
      ensures CircleSteps(steps, r)
      ensures Inked(width, height, old(mem[..]), mem[..], Disc(cx, cy, steps), Pack(color))
    {
      ghost var before := mem[..];
      var x := 0;
      var y := r;
      var d := 3 - 2 * r;
      steps := [];
      InkedNothing(width, height, before, Pack(color));
      while x <= y
        invariant steps + MidpointFrom(x, y, d) == MidpointSteps(r)
        invariant Inked(width, height, before, mem[..], Disc(cx, cy, steps), Pack(color))
        decreases y - x + 1
      {
        steps, x, y, d := CircleTurn(before, steps, cx, cy, x, y, d, r, color);
      }
      MidpointStepsShape(r);
    }

    /**
     * One turn of the `draw_circle` loop at (x, y) with decision variable d:
     * fills the step's rows, then moves x, y and d as the midpoint rule says.
     */
    method CircleTurn(ghost before: seq<Rgb>, ghost steps: seq<(int, int)>, cx: int, cy: int,
                      x: int, y: int, d: int, ghost r: int, color: Color)
      returns (ghost steps': seq<(int, int)>, x': int, y': int, d': int)
      requires Valid() && x <= y && steps + MidpointFrom(x, y, d) == MidpointSteps(r)
      requires Inked(width, height, before, mem[..], Disc(cx, cy, steps), Pack(color))
      modifies mem
      ensures steps' + MidpointFrom(x', y', d') == MidpointSteps(r)
      ensures Inked(width, height, before, mem[..], Disc(cx, cy, steps'), Pack(color))
      ensures y' - x' < y - x
    {
      MidpointAdvance(steps, x, y, d, r);
      steps' := DrawOctants(before, steps, cx, cy, x, y, color);
      x', y', d' := x, y, d;
      if d' < 0 {
        d' := d' + 4 * x' + 6;
      } else {
        d' := d' + 4 * (x' - y') + 10;
        y' := y' - 1;
      }
      x' := x' + 1;
      assert (x', y', d') == MidpointNext(x, y, d);
    }

    /** The two inner loops of one `draw_circle` step (x, y): the step joins the filled steps. */
    method DrawOctants(ghost before: seq<Rgb>, ghost steps: seq<(int, int)>, cx: int, cy: int, x: int, y: int,
                       color: Color)
      returns (ghost steps': seq<(int, int)>)
      requires Valid() && Inked(width, height, before, mem[..], Disc(cx, cy, steps), Pack(color))
      modifies mem
      ensures steps' == steps + [(x, y)]
      ensures Inked(width, height, before, mem[..], Disc(cx, cy, steps'), Pack(color))
    {
      ghost var s0 := mem[..];
      DrawRowPair(cx - x, cx + x, cy + y, cy - y, color);
      ghost var s1 := mem[..];
      DrawRowPair(cx - y, cx + y, cy + x, cy - x, color);
      ghost var rows := Span(cy + y, cx - x, cx + x) + Span(cy - y, cx - x, cx + x);
      ghost var cols := Span(cy + x, cx - y, cx + y) + Span(cy - x, cx - y, cx + y);
      InkedThen(width, height, s0, s1, mem[..], rows, cols, Pack(color));
      InkedThen(width, height, before, s0, mem[..], Disc(cx, cy, steps), rows + cols, Pack(color));
      steps' := steps + [(x, y)];
      DiscSnoc(cx, cy, steps, x, y);
    }

    /** One step of an inner loop of `draw_circle`: pixel (x, row1), then pixel (x, row2). */
    method SetPixelPair(x: int, row1: int, row2: int, color: Color)
      requires Valid()
      modifies mem
      ensures Inked(width, height, old(mem[..]), mem[..], iset{(x, row1)} + iset{(x, row2)}, Pack(color))
    {
      ghost var s0 := mem[..];
      SetPixel(x, row1, color);
      ghost var s1 := mem[..];
      SetPixel(x, row2, color);
      InkedThen(width, height, s0, s1, mem[..], iset{(x, row1)}, iset{(x, row2)}, Pack(color));
    }

    /** One inner loop of `draw_circle`: columns lo..hi of two rows, both rows per column. */
    method DrawRowPair(lo: int, hi: int, row1: int, row2: int, color: Color)
      requires Valid()
      modifies mem
      ensures Inked(width, height, old(mem[..]), mem[..], Span(row1, lo, hi) + Span(row2, lo, hi), Pack(color))
    {
      ghost var before := mem[..];
      SpanEmpty(row1, lo, lo - 1);
      SpanEmpty(row2, lo, lo - 1);
      InkedNothing(width, height, before, Pack(color));
      var i := lo;
      while i <= hi
        invariant lo <= i && (i <= hi + 1 || i == lo)
        invariant Inked(width, height, before, mem[..], Span(row1, lo, i - 1) + Span(row2, lo, i - 1), Pack(color))
      {
        ghost var s0 := mem[..];
        SetPixelPair(i, row1, row2, color);
        InkedThen(width, height, before, s0, mem[..], Span(row1, lo, i - 1) + Span(row2, lo, i - 1),
                  iset{(i, row1)} + iset{(i, row2)}, Pack(color));
        SpanPairGrow(lo, i - 1, row1, row2);
        i := i + 1;
      }
      if hi < lo {
        SpanEmpty(row1, lo, hi);
        SpanEmpty(row2, lo, hi);
      }
    }
  }
}
