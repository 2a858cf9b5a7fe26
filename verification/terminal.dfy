/**
 * The framebuffer text terminal: a cursor in pixel coordinates that
 * `put_char` moves glyph cell by glyph cell, wrapping at the right edge and
 * scrolling when it passes the bottom. The glyphs, fills and scrolls the
 * terminal issues on the framebuffer are recorded in order as `ScreenOp`s;
 * their effect on the pixels is `Gfx.DrawChar`, `Gfx.FillScreen` and
 * `ScrollScreen`. A draw at or past the right edge is covered by
 * `Gfx.DrawChar` (`Gfx.CellDrawnPastEdge`); a draw at a negative y, which
 * backspace on the top row issues, is not.
 */
module Term {

  import opened Base
  import opened Gfx

  /** `TAB_WIDTH`: a tab is four blank glyph cells. */
  const TAB_WIDTH: nat := 4
  const NEWLINE: char := '\n'
  const TAB: char := '\t'
  const BACKSPACE: char := 8 as char

  /** An operation the terminal performs on the framebuffer. */
  datatype ScreenOp =
    | Draw(c: char, x: int, y: int, fg: Rgb, bg: Rgb)   // `draw_char` with the background drawn
    | Fill(color: Rgb)                                  // `fill_screen`
    | Scroll                                            // `scroll`

  /** The cursor position in pixels. */
  datatype Cursor = Cursor(x: int, y: int)

  /** What one `put_char` does: the new cursor and the framebuffer operations issued. */
  datatype Effect = Effect(cursor: Cursor, ops: seq<ScreenOp>)

  /** A cursor at or past the right edge moves to the start of the next text row. */
  function Wrap(width: int, cur: Cursor): (r: Cursor)
  {
    if cur.x >= width then Cursor(0, cur.y + CHAR_HEIGHT) else cur
  }

  /** The blank cells a tab draws: `n` cells from column `x` on. */
  function TabDraws(x: int, y: int, fg: Rgb, bg: Rgb, n: nat): (ops: seq<ScreenOp>)
    ensures |ops| == n
  {
    if n == 0 then [] else TabDraws(x, y, fg, bg, n - 1) + [Draw(' ', x + (n - 1) * CHAR_WIDTH, y, fg, bg)]
  }

  /** A character `put_char` draws: the space and the ASCII-graphic characters. */
  predicate Printable(c: char)
  {
    c == ' ' || IsAsciiGraphic(c)
  }

  /** The `match c` of `put_char`, from the (wrapped) cursor `cur`. */
  function Handle(width: int, cur: Cursor, c: char, fg: Rgb, bg: Rgb): (e: Effect)
  {
    if c == NEWLINE then Effect(Cursor(0, cur.y + CHAR_HEIGHT), [])
    else if c == TAB then
      Effect(Cursor(cur.x + TAB_WIDTH * CHAR_WIDTH, cur.y), TabDraws(cur.x, cur.y, fg, bg, TAB_WIDTH))
    else if c == BACKSPACE then
      var x := cur.x - CHAR_WIDTH;
      var next := if !(x != 0 && cur.y != 0) then Cursor(width, cur.y - CHAR_HEIGHT) else Cursor(x, cur.y);
      Effect(next, [Draw(' ', next.x, next.y, fg, bg)])
    else if Printable(c) then Effect(Cursor(cur.x + CHAR_WIDTH, cur.y), [Draw(c, cur.x, cur.y, fg, bg)])
    else Effect(cur, [])
  }

  /**
   * The scroll step: a cursor at or below the bottom edge moves up by as
   * many glyph rows as it is past the edge (counting the row it is on), and
   * one `scroll` is issued.
   */
  function ScrollStep(height: int, e: Effect): (r: Effect)
  {
    if e.cursor.y >= height then
      var rows := (e.cursor.y - height) / CHAR_HEIGHT + 1;
      Effect(Cursor(e.cursor.x, e.cursor.y - rows * CHAR_HEIGHT), e.ops + [Scroll])
    else e
  }

  /** `put_char` on a terminal with a framebuffer: wrap, handle the character, scroll. */
  function PutCharEffect(width: int, height: int, cur: Cursor, c: char, fg: Rgb, bg: Rgb): Effect
  {
    ScrollStep(height, Handle(width, Wrap(width, cur), c, fg, bg))
  }

  /** The tab cells are drawn one glyph width apart, starting at the cursor. */
  lemma {:induction false} TabDrawsAt(x: int, y: int, fg: Rgb, bg: Rgb, n: nat)
    ensures forall i :: 0 <= i < n ==> TabDraws(x, y, fg, bg, n)[i] == Draw(' ', x + i * CHAR_WIDTH, y, fg, bg)
  {
    if n > 0 {
      TabDrawsAt(x, y, fg, bg, n - 1);
    }
  }

  /**
   * After `put_char` the cursor is above the bottom edge; a scroll happens
   * exactly when the handled cursor reached the bottom edge, moves the
   * cursor into the last glyph row of the screen, and is issued once however
   * many rows the cursor passed.
   */
  lemma ScrollStepBounds(height: int, e: Effect)
    ensures ScrollStep(height, e).cursor.y < height
    ensures ScrollStep(height, e).cursor.x == e.cursor.x
    ensures e.cursor.y >= height ==>
      height - CHAR_HEIGHT <= ScrollStep(height, e).cursor.y &&
      (ScrollStep(height, e).cursor.y - e.cursor.y) % CHAR_HEIGHT == 0 &&
      ScrollStep(height, e).ops == e.ops + [Scroll]
    ensures e.cursor.y < height ==> ScrollStep(height, e) == e
  {
  }

  /** A newline moves to column 0 of the next text row. */
  lemma NewlineEffect(width: int, cur: Cursor, fg: Rgb, bg: Rgb)
    ensures Handle(width, cur, NEWLINE, fg, bg) == Effect(Cursor(0, cur.y + CHAR_HEIGHT), [])
  {
  }

  /** A tab draws four blank cells and moves four glyph widths right. */
  lemma TabEffect(width: int, cur: Cursor, fg: Rgb, bg: Rgb)
    ensures Handle(width, cur, TAB, fg, bg).cursor == Cursor(cur.x + 4 * CHAR_WIDTH, cur.y)
    ensures forall i :: 0 <= i < 4 ==>
      Handle(width, cur, TAB, fg, bg).ops[i] == Draw(' ', cur.x + i * CHAR_WIDTH, cur.y, fg, bg)
    ensures |Handle(width, cur, TAB, fg, bg).ops| == 4
  {
    TabDrawsAt(cur.x, cur.y, fg, bg, TAB_WIDTH);
  }

  /**
   * Backspace steps one glyph left and blanks that cell, unless the step
   * lands on column 0 or the cursor is on the top row: then the cursor goes
   * to the right edge of the row above, and that cell is blanked.
   */
  lemma BackspaceEffect(width: int, cur: Cursor, fg: Rgb, bg: Rgb)
    ensures var e := Handle(width, cur, BACKSPACE, fg, bg);
      (cur.x - CHAR_WIDTH != 0 && cur.y != 0 ==> e.cursor == Cursor(cur.x - CHAR_WIDTH, cur.y)) &&
      (cur.x - CHAR_WIDTH == 0 || cur.y == 0 ==> e.cursor == Cursor(width, cur.y - CHAR_HEIGHT)) &&
      e.ops == [Draw(' ', e.cursor.x, e.cursor.y, fg, bg)]
  {
  }

  /**
   * The backspace condition as written: erasing the first glyph of a line
   * jumps to the right edge of the line above instead of column 0, and a
   * backspace on the top row moves the cursor above the screen.
   */
  lemma BackspaceQuirk(width: int, fg: Rgb, bg: Rgb)
    requires width > 2 * CHAR_WIDTH
    ensures PutCharEffect(width, 480, Cursor(CHAR_WIDTH, 32), BACKSPACE, fg, bg).cursor == Cursor(width, 16)
    ensures PutCharEffect(width, 480, Cursor(2 * CHAR_WIDTH, 0), BACKSPACE, fg, bg).cursor == Cursor(width, -16)
  {
  }

  /**
   * A space or ASCII-graphic character is drawn at the cursor, which moves
   * one glyph right; any other character (besides newline, tab and
   * backspace) draws nothing and leaves the cursor.
   */
  lemma CharEffect(width: int, cur: Cursor, c: char, fg: Rgb, bg: Rgb)
    requires c != NEWLINE && c != TAB && c != BACKSPACE
    ensures Printable(c) ==> Handle(width, cur, c, fg, bg) == Effect(Cursor(cur.x + CHAR_WIDTH, cur.y), [Draw(c, cur.x, cur.y, fg, bg)])
    ensures !Printable(c) ==> Handle(width, cur, c, fg, bg) == Effect(cur, [])
  {
  }

  /** A cursor past the right edge starts the next row before the character is handled. */
  lemma WrapEffect(width: int, cur: Cursor)
    ensures cur.x >= width ==> Wrap(width, cur) == Cursor(0, cur.y + CHAR_HEIGHT)
    ensures cur.x < width ==> Wrap(width, cur) == cur
  {
  }

  /** `Terminal`. */
  class Terminal {
    var fb: Option<Framebuffer>
    var height: int
    var width: int
    var xPos: int
    var yPos: int
    var fg: Rgb
    var bg: Rgb
    /** The framebuffer operations issued so far, oldest first. */
    var ops: seq<ScreenOp>

    /** `Terminal::default()`: no framebuffer, everything zero. */
    constructor ()
      ensures fb == None && height == 0 && width == 0 && xPos == 0 && yPos == 0
      ensures fg == 0 && bg == 0 && ops == []
    {
      fb, height, width, xPos, yPos, fg, bg, ops := None, 0, 0, 0, 0, 0, 0, [];
    }

    /** `init`: binds the framebuffer, homes the cursor, white on black. */
    method Init(f: Framebuffer)
      modifies this
      ensures fb == Some(f) && height == f.height && width == f.width
      ensures xPos == 0 && yPos == 0 && fg == WHITE && bg == BLACK
      ensures ops == old(ops)
    {
      height := f.height;
      width := f.width;
      fb := Some(f);
      xPos := 0;
      yPos := 0;
      fg := WHITE;
      bg := BLACK;
    }

    /** `clear`: fills the screen with the background colour when a framebuffer is bound. */
    method Clear()
      modifies this`ops
      ensures ops == if fb.Some? then old(ops) + [Fill(bg)] else old(ops)
    {
      if fb.Some? {
        ops := ops + [Fill(bg)];
      }
    }

    /** `put_char`: does nothing without a framebuffer. */
    method PutChar(c: char, fgc: Rgb, bgc: Rgb)
      modifies this`xPos, this`yPos, this`ops
      ensures fb.None? ==> xPos == old(xPos) && yPos == old(yPos) && ops == old(ops)
      ensures fb.Some? ==>
        var e := PutCharEffect(width, height, Cursor(old(xPos), old(yPos)), c, fgc, bgc);
        Cursor(xPos, yPos) == e.cursor && ops == old(ops) + e.ops
    {
      if fb.None? {
        return;
      }
      if xPos >= width {
        xPos := 0;
        yPos := yPos + CHAR_HEIGHT;
      }
      HandleChar(c, fgc, bgc);
      if yPos >= height {
        var tmp := yPos - height;
        var rows := tmp / CHAR_HEIGHT + 1;
        ops := ops + [Scroll];
        yPos := yPos - rows * CHAR_HEIGHT;
      }
    }

    /** The `match c` of `put_char`. */
    method HandleChar(c: char, fgc: Rgb, bgc: Rgb)
      modifies this`xPos, this`yPos, this`ops
      ensures var e := Handle(width, Cursor(old(xPos), old(yPos)), c, fgc, bgc);
        Cursor(xPos, yPos) == e.cursor && ops == old(ops) + e.ops
    {
      if c == NEWLINE {
        yPos := yPos + CHAR_HEIGHT;
        xPos := 0;
      } else if c == TAB {
        var i := 0;
        while i < TAB_WIDTH
          invariant i <= TAB_WIDTH
          invariant xPos == old(xPos) + i * CHAR_WIDTH && yPos == old(yPos)
          invariant ops == old(ops) + TabDraws(old(xPos), old(yPos), fgc, bgc, i)
        {
          ops := ops + [Draw(' ', xPos, yPos, fgc, bgc)];
          xPos := xPos + CHAR_WIDTH;
          i := i + 1;
        }
      } else if c == BACKSPACE {
        xPos := xPos - CHAR_WIDTH;
        if !(xPos != 0 && yPos != 0) {
          yPos := yPos - CHAR_HEIGHT;
          xPos := width;
        }
        ops := ops + [Draw(' ', xPos, yPos, fgc, bgc)];
      } else if c == ' ' || IsAsciiGraphic(c) {
        ops := ops + [Draw(c, xPos, yPos, fgc, bgc)];
        xPos := xPos + CHAR_WIDTH;
      }
    }
  }

  /**
   * The pixel rows `scroll` moves: one glyph row of pixels, `width *
   * CHAR_HEIGHT` pixels, is dropped from the top of the `width * height`
   * pixel screen, the rest moves up, and the freed bottom glyph row is
   * zeroed (black).
   */
  method ScrollScreen(mem: array<Rgb>, fb: Framebuffer)
    requires GlyphRowPixels(fb) <= ScreenPixels(fb) <= mem.Length
    modifies mem
    ensures forall p :: 0 <= p < ScreenPixels(fb) - GlyphRowPixels(fb) ==>
      mem[p] == old(mem[p + GlyphRowPixels(fb)])
    ensures forall p :: ScreenPixels(fb) - GlyphRowPixels(fb) <= p < ScreenPixels(fb) ==> mem[p] == 0
    ensures forall p :: ScreenPixels(fb) <= p < mem.Length ==> mem[p] == old(mem[p])
  {
    var size := ScreenPixels(fb);
    var amount := GlyphRowPixels(fb);
    ghost var s0 := mem[..];
    MoveUp(mem, amount, size - amount);
    ghost var s1 := mem[..];
    ZeroFill(mem, size - amount, size);
    assert forall p :: 0 <= p < size - amount ==> mem[p] == s1[p] == s0[p + amount];
    assert forall p :: size <= p < mem.Length ==> mem[p] == s1[p] == s0[p];
  }

  /** The pixels of the screen, `width * height`. */
  function ScreenPixels(fb: Framebuffer): nat
  {
    fb.width * fb.height
  }

  /** The pixels of one glyph row, `width * CHAR_HEIGHT`. */
  function GlyphRowPixels(fb: Framebuffer): nat
  {
    fb.width * CHAR_HEIGHT
  }

  /** The copy loop of `scroll`: pixel p takes the value of pixel p + amount, for p below `count`. */
  method MoveUp(mem: array<Rgb>, amount: nat, count: nat)
    requires count + amount <= mem.Length
    modifies mem
    ensures forall p :: 0 <= p < count ==> mem[p] == old(mem[p + amount])
    ensures forall p :: count <= p < mem.Length ==> mem[p] == old(mem[p])
  {
    ghost var s := mem[..];
    var i := 0;
    while i < count
      invariant i <= count
      invariant forall p :: 0 <= p < i ==> mem[p] == s[p + amount]
      invariant forall p :: i <= p < mem.Length ==> mem[p] == s[p]
    {
      mem[i] := mem[i + amount];
      i := i + 1;
    }
  }

  /** The fill loop of `scroll`: pixels from `lo` up to `hi` become black. */
  method ZeroFill(mem: array<Rgb>, lo: nat, hi: nat)
    requires lo <= hi <= mem.Length
    modifies mem
    ensures forall p :: 0 <= p < lo ==> mem[p] == old(mem[p])
    ensures forall p :: lo <= p < hi ==> mem[p] == 0
    ensures forall p :: hi <= p < mem.Length ==> mem[p] == old(mem[p])
  {
    var i := lo;
    while i < hi
      invariant lo <= i <= hi
      invariant forall p :: 0 <= p < lo ==> mem[p] == old(mem[p])
      invariant forall p :: lo <= p < i ==> mem[p] == 0
      invariant forall p :: i <= p < mem.Length ==> mem[p] == old(mem[p])
    {
      mem[i] := 0;
      i := i + 1;
    }
  }

  /**
   * The element count `scroll` uses as written: rows times pitch, where the
   * pitch is a count of bytes, while the copy and the zero fill count 32-bit
   * pixels.
   */
  function ScrollSizeAsWritten(fb: Framebuffer): nat
  {
    fb.height * fb.pitch
  }

  /**
   * In a 32-bit mode (four bytes per pixel) the region `scroll` moves as
   * written is four times the screen: with 1024x768 pixels and a
   * 4096-byte pitch it spans 3145728 pixels of a 786432-pixel screen.
   */
  lemma ScrollSizeOverrun(fb: Framebuffer)
    requires fb.pitch == 4 * fb.width
    ensures ScrollSizeAsWritten(fb) == 4 * (fb.width * fb.height)
    ensures ScrollSizeAsWritten(Framebuffer(0, 4096, 1024, 768, 32)) == 3145728
    ensures 1024 * 768 == 786432
  {
  }
}
