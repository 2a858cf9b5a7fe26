/**
 * The kernel graphics subsystem: 24-bit colours packed into a 32-bit pixel,
 * the framebuffer description taken from the multiboot information, and the
 * pixel, fill and glyph writers. The framebuffer memory is an array of
 * 32-bit pixels starting at the framebuffer address, one row of `width`
 * pixels after another.
 */
module Gfx {

  import Arith

  /** `Rgb`: a colour as stored in a pixel. */
  type Rgb = bv32

  /** `rgb!`: red in bits 16..23, green in bits 8..15, blue in bits 0..7. */
  function RgbOf(red: bv8, green: bv8, blue: bv8): (c: Rgb)
  {
    ((red as bv32) << 16) | ((green as bv32) << 8) | (blue as bv32)
  }

  /** The three components come back out of a packed colour, and the top byte stays clear. */
  lemma RgbComponents(red: bv8, green: bv8, blue: bv8)
    ensures ((RgbOf(red, green, blue) >> 16) & 0xFF) as bv8 == red
    ensures ((RgbOf(red, green, blue) >> 8) & 0xFF) as bv8 == green
    ensures (RgbOf(red, green, blue) & 0xFF) as bv8 == blue
    ensures RgbOf(red, green, blue) >> 24 == 0
  {
  }

  /** Distinct component triples give distinct colours. */
  lemma RgbInjective(r1: bv8, g1: bv8, b1: bv8, r2: bv8, g2: bv8, b2: bv8)
    ensures RgbOf(r1, g1, b1) == RgbOf(r2, g2, b2) <==> r1 == r2 && g1 == g2 && b1 == b2
  {
    RgbComponents(r1, g1, b1);
    RgbComponents(r2, g2, b2);
  }

  // `Color`: the standard colours.
  const WHITE: Rgb := 0xFF_FFFF
  const BLACK: Rgb := 0x00_0000
  const RED: Rgb := 0xFF_0000
  const GREEN: Rgb := 0x00_FF00
  const BLUE: Rgb := 0x00_00FF
  const GRAY: Rgb := 0xBF_BFBF
  const YELLOW: Rgb := 0xFF_FF44
  const ORANGE: Rgb := 0xFF_7000

  /** The standard colours are the packings of their component triples. */
  lemma ColorsArePacked()
    ensures WHITE == RgbOf(0xFF, 0xFF, 0xFF) && BLACK == RgbOf(0, 0, 0)
    ensures RED == RgbOf(0xFF, 0, 0) && GREEN == RgbOf(0, 0xFF, 0) && BLUE == RgbOf(0, 0, 0xFF)
    ensures GRAY == RgbOf(0xBF, 0xBF, 0xBF) && YELLOW == RgbOf(0xFF, 0xFF, 0x44)
    ensures ORANGE == RgbOf(0xFF, 0x70, 0)
  {
  }

  /** Glyph cell size of the built-in font. */
  const CHAR_WIDTH: nat := 8
  const CHAR_HEIGHT: nat := 16

  /** `MASK`: the bit of a glyph row byte for each column, most significant first. */
  const MASK: seq<bv8> := [128, 64, 32, 16, 8, 4, 2, 1]

  /** The framebuffer fields of the multiboot information. */
  datatype BootInfo = BootInfo(framebufferAddr: nat, framebufferPitch: nat, framebufferWidth: nat,
                               framebufferHeight: nat, framebufferBpp: bv8)

  /** `Framebuffer`: address, bytes per row, resolution and bytes per pixel. */
  datatype Framebuffer = Framebuffer(addr: nat, pitch: nat, width: nat, height: nat, bpp: bv8)

  const U32_LIMIT: nat := 0x1_0000_0000

  /** `get_framebuffer`: the 64-bit address is cut to 32 bits, the other fields are copied. */
  function GetFramebuffer(boot: BootInfo): (fb: Framebuffer)
    ensures fb.addr < U32_LIMIT
    ensures boot.framebufferAddr < U32_LIMIT ==> fb.addr == boot.framebufferAddr
    ensures fb.pitch == boot.framebufferPitch && fb.bpp == boot.framebufferBpp
    ensures fb.width == boot.framebufferWidth && fb.height == boot.framebufferHeight
  {
    Framebuffer(boot.framebufferAddr % U32_LIMIT, boot.framebufferPitch, boot.framebufferWidth,
                boot.framebufferHeight, boot.framebufferBpp)
  }

  /** Index of pixel (x, y) in the framebuffer memory. */
  function PixelIndex(fb: Framebuffer, x: nat, y: nat): nat
  {
    y * fb.width + x
  }

  /** `put_pixel`: stores `color` at `y * width + x` and nowhere else. */
  method PutPixel(mem: array<Rgb>, fb: Framebuffer, x: nat, y: nat, color: Rgb)
    requires PixelIndex(fb, x, y) < mem.Length
    modifies mem
    ensures mem[..] == old(mem[..])[PixelIndex(fb, x, y) := color]
  {
    var pos := y * fb.width + x;
    mem[pos] := color;
  }

  /**
   * `fill_screen`: four pixels per step, then the remainder. The source
   * subtracts 4 from the pixel count in unsigned arithmetic, so a screen of
   * fewer than four pixels is outside its domain.
   */
  method FillScreen(mem: array<Rgb>, fb: Framebuffer, color: Rgb)
    requires 4 <= fb.width * fb.height <= mem.Length
    modifies mem
    ensures forall p :: 0 <= p < fb.width * fb.height ==> mem[p] == color
    ensures forall p :: fb.width * fb.height <= p < mem.Length ==> mem[p] == old(mem[p])
  {
    var total := fb.width * fb.height;
    var i := 0;
    while i <= total - 4
      invariant 0 <= i <= total
      invariant forall p :: 0 <= p < i ==> mem[p] == color
      invariant forall p :: i <= p < mem.Length ==> mem[p] == old(mem[p])
    {
      mem[i] := color;
      mem[i + 1] := color;
      mem[i + 2] := color;
      mem[i + 3] := color;
      i := i + 4;
    }
    var j := i;
    while j < total
      invariant i <= j <= total
      invariant forall p :: 0 <= p < j ==> mem[p] == color
      invariant forall p :: j <= p < mem.Length ==> mem[p] == old(mem[p])
    {
      mem[j] := color;
      j := j + 1;
    }
  }

  /** Whether column `k` is set in a glyph row byte. */
  predicate Bit(row: bv8, k: nat)
    requires k < CHAR_WIDTH
  {
    row & MASK[k] != 0
  }

  /** The CHAR_HEIGHT row bytes of the glyph of `c`. */
  function Glyph(font: seq<bv8>, c: char): (g: seq<bv8>)
    requires (c as int + 1) * CHAR_HEIGHT <= |font|
    ensures |g| == CHAR_HEIGHT
  {
    font[c as int * CHAR_HEIGHT .. c as int * CHAR_HEIGHT + CHAR_HEIGHT]
  }

  /** The pixel `draw_char` leaves where a glyph bit lands: fg if set, else bg if drawn, else untouched. */
  function GlyphColor(before: Rgb, bit: bool, fg: Rgb, bg: Rgb, isBg: bool): Rgb
  {
    if bit then fg else if isBg then bg else before
  }

  /** The screen after one glyph row is drawn at `base`. */
  function RowDrawn(s: seq<Rgb>, base: nat, row: bv8, fg: Rgb, bg: Rgb, isBg: bool): (t: seq<Rgb>)
    requires base + CHAR_WIDTH <= |s|
    ensures |t| == |s|
  {
    seq(|s|, p requires 0 <= p < |s| =>
      if base <= p < base + CHAR_WIDTH then GlyphColor(s[p], Bit(row, p - base), fg, bg, isBg) else s[p])
  }

  /** Memory index of pixel (px, py) on a row-major screen `width` pixels wide. */
  function Idx(width: nat, px: nat, py: nat): nat
  {
    py * width + px
  }

  /**
   * The screen after the first `rows` rows of `glyph` are drawn with its
   * top-left corner at (x, y): row `r` covers the CHAR_WIDTH pixels from
   * index (y + r) * width + x, whether or not x + CHAR_WIDTH fits in a
   * screen row (past the right edge the pixels are those of the next row).
   */
  function CellDrawn(s: seq<Rgb>, width: nat, x: nat, y: nat, glyph: seq<bv8>, fg: Rgb, bg: Rgb, isBg: bool,
                     rows: nat): (t: seq<Rgb>)
    requires rows <= |glyph| && (rows > 0 ==> Idx(width, x, y + rows - 1) + CHAR_WIDTH <= |s|)
    ensures |t| == |s|
  {
    if rows == 0 then s
    else
      RowsMonotone(width, y + rows - 2, y + rows - 1);
      RowDrawn(CellDrawn(s, width, x, y, glyph, fg, bg, isBg, rows - 1), Idx(width, x, y + rows - 1),
               glyph[rows - 1], fg, bg, isBg)
  }

  /** Row `r`, column `k` of a row-major screen `width` pixels wide sits at `r * width + k`. */
  lemma RowCol(width: nat, r: int, k: int)
    requires 0 <= k < width
    ensures (r * width + k) / width == r && (r * width + k) % width == k
  {
    var p := r * width + k;
    var q, m := p / width, p % width;
    if q < r {
      Arith.MulAtLeast(r - q, width);
    } else if r < q {
      Arith.MulAtLeast(q - r, width);
    }
  }

  /** Distinct on-screen pixels have distinct memory indices. */
  lemma IdxInjective(width: nat, px: nat, py: nat, qx: nat, qy: nat)
    requires px < width && qx < width && Idx(width, px, py) == Idx(width, qx, qy)
    ensures px == qx && py == qy
  {
    RowCol(width, py, px);
    RowCol(width, qy, qx);
  }

  /** The row after row `r` starts `width` pixels later. */
  lemma RowNext(width: nat, r: nat)
    ensures (r + 1) * width == r * width + width
  {
  }

  /** Rows of a row-major screen come one after another. */
  lemma RowsOrdered(width: nat, r: nat, s: nat)
    requires r < s
    ensures r * width + width <= s * width
  {
    Arith.MulAtLeast(s - r, width);
    assert (s - r) * width == s * width - r * width;
  }

  /** Later rows start no earlier: `r * width <= s * width` for r <= s (r may be -1). */
  lemma RowsMonotone(width: nat, r: int, s: int)
    requires r <= s
    ensures r * width <= s * width
  {
    if r < s {
      Arith.MulAtLeast(s - r, width);
      assert (s - r) * width == s * width - r * width;
    }
  }

  /** Drawing one more glyph row is drawing row `rows` over the first `rows`. */
  lemma CellDrawnNext(s: seq<Rgb>, width: nat, x: nat, y: nat, glyph: seq<bv8>, fg: Rgb, bg: Rgb, isBg: bool,
                      rows: nat)
    requires rows < |glyph| && Idx(width, x, y + rows) + CHAR_WIDTH <= |s|
    ensures rows > 0 ==> Idx(width, x, y + rows - 1) + CHAR_WIDTH <= |s|
    ensures CellDrawn(s, width, x, y, glyph, fg, bg, isBg, rows + 1) ==
      RowDrawn(CellDrawn(s, width, x, y, glyph, fg, bg, isBg, rows), Idx(width, x, y + rows), glyph[rows], fg, bg, isBg)
  {
    RowsMonotone(width, y + rows - 1, y + rows);
  }

  /**
   * A cell drawn at x = width, the right edge, is the cell drawn at column 0
   * one pixel row further down: each glyph row lands at the start of the
   * next screen row.
   */
  lemma {:induction false} CellDrawnPastEdge(s: seq<Rgb>, width: nat, y: nat, glyph: seq<bv8>, fg: Rgb, bg: Rgb,
                                             isBg: bool, rows: nat)
    requires rows <= |glyph| && (rows > 0 ==> Idx(width, width, y + rows - 1) + CHAR_WIDTH <= |s|)
    ensures rows > 0 ==> Idx(width, 0, y + rows) + CHAR_WIDTH <= |s|
    ensures CellDrawn(s, width, width, y, glyph, fg, bg, isBg, rows) ==
            CellDrawn(s, width, 0, y + 1, glyph, fg, bg, isBg, rows)
  {
    if rows > 0 {
      RowNext(width, y + rows - 1);
      RowsMonotone(width, y + rows - 2, y + rows - 1);
      CellDrawnPastEdge(s, width, y, glyph, fg, bg, isBg, rows - 1);
    }
  }

  /**
   * What drawing the first `rows` glyph rows leaves at pixel (px, py): inside
   * those rows of the CHAR_WIDTH-wide cell at (x, y), the colour chosen by
   * the glyph bit; anywhere else, the pixel as it was.
   */
  lemma {:induction false} CellDrawnAt(s: seq<Rgb>, width: nat, x: nat, y: nat, glyph: seq<bv8>,
                                       fg: Rgb, bg: Rgb, isBg: bool, rows: nat, px: nat, py: nat)
    requires rows <= |glyph| && x + CHAR_WIDTH <= width && (y + rows) * width <= |s|
    requires px < width && Idx(width, px, py) < |s|
    ensures rows > 0 ==> Idx(width, x, y + rows - 1) + CHAR_WIDTH <= |s|
    ensures CellDrawn(s, width, x, y, glyph, fg, bg, isBg, rows)[Idx(width, px, py)] ==
      if y <= py < y + rows && x <= px < x + CHAR_WIDTH
      then GlyphColor(s[Idx(width, px, py)], Bit(glyph[py - y], px - x), fg, bg, isBg)
      else s[Idx(width, px, py)]
  {
    if rows > 0 {
      var i := Idx(width, px, py);
      var base := Idx(width, x, y + rows - 1);
      RowNext(width, y + rows - 1);
      RowsMonotone(width, y + rows - 2, y + rows - 1);
      CellDrawnAt(s, width, x, y, glyph, fg, bg, isBg, rows - 1, px, py);
      InCellRow(width, x, y + rows - 1, px, py);
    }
  }

  /** Pixel (px, py) is among the CHAR_WIDTH pixels from (x, r) exactly when it lies in that cell row. */
  lemma InCellRow(width: nat, x: nat, r: nat, px: nat, py: nat)
    requires x + CHAR_WIDTH <= width && px < width
    ensures Idx(width, x, r) <= Idx(width, px, py) < Idx(width, x, r) + CHAR_WIDTH <==> py == r && x <= px < x + CHAR_WIDTH
    ensures py == r ==> Idx(width, px, py) - Idx(width, x, r) == px - x
  {
    var i, base := Idx(width, px, py), Idx(width, x, r);
    if base <= i < base + CHAR_WIDTH {
      IdxInjective(width, px, py, x + (i - base), r);
    }
  }

  /** One glyph row: the eight pixels from `base` on, coloured by the bits of `row`. */
  method DrawGlyphRow(mem: array<Rgb>, base: nat, row: bv8, fg: Rgb, bg: Rgb, isBg: bool)
    requires base + CHAR_WIDTH <= mem.Length
    modifies mem
    ensures mem[..] == RowDrawn(old(mem[..]), base, row, fg, bg, isBg)
  {
    ghost var s := mem[..];
    ghost var t := RowDrawn(s, base, row, fg, bg, isBg);
    var cx := 0;
    while cx < CHAR_WIDTH
      invariant cx <= CHAR_WIDTH
      invariant forall p :: 0 <= p < base ==> mem[p] == s[p]
      invariant forall k :: 0 <= k < cx ==> mem[base + k] == GlyphColor(s[base + k], Bit(row, k), fg, bg, isBg)
      invariant forall p :: base + cx <= p < mem.Length ==> mem[p] == s[p]
    {
      if Bit(row, cx) {
        mem[base + cx] := fg;
      } else if isBg {
        mem[base + cx] := bg;
      }
      cx := cx + 1;
    }
    forall p | 0 <= p < mem.Length ensures mem[p] == t[p] {
      if base <= p < base + CHAR_WIDTH {
        assert mem[base + (p - base)] == GlyphColor(s[base + (p - base)], Bit(row, p - base), fg, bg, isBg);
      }
    }
    assert mem[..] == t;
  }

  /**
   * `draw_char`: the glyph of `c` at pixel (x, y), `font` holding
   * CHAR_HEIGHT row bytes per character. The source computes each index
   * `(y + cy) * width + (x + cx)` without checking x against the width, so
   * only the last pixel written has to lie in memory. `CellDrawnAt` says
   * what the result holds when the cell fits in the screen row, and
   * `CellDrawnPastEdge` what a cell at the right edge does.
   */
  method DrawChar(mem: array<Rgb>, fb: Framebuffer, font: seq<bv8>, c: char, x: nat, y: nat,
                  fg: Rgb, bg: Rgb, isBg: bool)
    requires (c as int + 1) * CHAR_HEIGHT <= |font|
    requires Idx(fb.width, x, y + CHAR_HEIGHT - 1) + CHAR_WIDTH <= mem.Length
    modifies mem
    ensures mem[..] == CellDrawn(old(mem[..]), fb.width, x, y, Glyph(font, c), fg, bg, isBg, CHAR_HEIGHT)
  {
    var w := fb.width;
    ghost var glyph := Glyph(font, c);
    var start := c as int * CHAR_HEIGHT;
    var cy := 0;
    while cy < CHAR_HEIGHT
      invariant cy <= CHAR_HEIGHT
      invariant mem[..] == CellDrawn(old(mem[..]), w, x, y, glyph, fg, bg, isBg, cy)
    {
      RowsMonotone(w, y + cy, y + CHAR_HEIGHT - 1);
      CellDrawnNext(old(mem[..]), w, x, y, glyph, fg, bg, isBg, cy);
      assert glyph[cy] == font[start + cy];
      DrawGlyphRow(mem, Idx(w, x, y + cy), font[start + cy], fg, bg, isBg);
      cy := cy + 1;
    }
  }
}
