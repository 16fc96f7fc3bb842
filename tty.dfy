/**
 * The terminal state that the escape sequences and control characters act
 * on (the `ctx.term` part of the frame-buffer context together with the
 * geometry and colour fields), and the pure meaning of every operation on
 * it. An operation that also draws returns the drawing as an `Effect` in
 * absolute pixel rows of the full frame buffer; `Display` applies it.
 */
module Tty {
  import opened Bytes
  import opened Geometry

  /** Colour attributes: palette indices of foreground and background, and reverse video. */
  datatype Attrs = Attrs(fg: byte, bg: byte, inverse: bool)

  /** The attributes after `gfx_term_reset_attrib`: light grey on black, not inverted. */
  const ResetAttrs: Attrs := Attrs(7, 0, false)

  /** The attributes `gfx_set_env` starts with: white on black. */
  const InitialAttrs: Attrs := Attrs(15, 0, false)

  /** The colour glyph pixels are drawn in, after reverse video. */
  function EffectiveFg(a: Attrs): byte { if a.inverse then a.bg else a.fg }

  /** The colour the background is drawn in, after reverse video. */
  function EffectiveBg(a: Attrs): byte { if a.inverse then a.fg else a.bg }

  /**
   * Reverse video swaps the two drawing colours, and together they are
   * always exactly the pair of attribute colours.
   */
  lemma ReverseVideoSwaps(a: Attrs)
    ensures EffectiveFg(a.(inverse := !a.inverse)) == EffectiveBg(a)
    ensures EffectiveBg(a.(inverse := !a.inverse)) == EffectiveFg(a)
    ensures multiset{EffectiveFg(a), EffectiveBg(a)} == multiset{a.fg, a.bg}
  {
  }

  /**
   * The terminal state. `fullHeight` and `pitch` are the dimensions of the
   * whole frame buffer; `border` pixel rows above and below are outside the
   * active area of `height` pixel rows and `width` pixel columns.
   */
  datatype Term = Term(
    fullHeight: nat, pitch: nat, width: nat,
    fontHeight: nat, fontWidth: nat, lineLimit: nat,
    border: nat, height: nat,
    rows: nat, columns: nat,
    row: nat, col: nat, savedRow: nat, savedCol: nat,
    cursorVisible: bool, wraparound: bool, cursorBlink: bool,
    regionStart: nat, regionEnd: nat,
    attrs: Attrs)

  /** Smallest frame buffer the model covers: three rows of the tallest glyph, one of the widest. */
  const MIN_FULL_HEIGHT: nat := 60
  const MIN_WIDTH: nat := 10

  /**
   * The invariant of the terminal: a supported font, the active area inside
   * the frame buffer, the text grid inside the active area, the cursor and
   * the saved cursor on the grid, and a scrolling region of at least two
   * rows inside the grid.
   */
  predicate Valid(t: Term)
  {
    && SupportedFontHeight(t.fontHeight) && t.fontWidth == FontWidth(t.fontHeight)
    && MIN_FULL_HEIGHT <= t.fullHeight < 0x8000_0000
    && MIN_WIDTH <= t.width <= t.pitch < 0x8000_0000
    && t.lineLimit != 1
    && 2 * t.border + t.height == t.fullHeight
    && t.rows * t.fontHeight <= t.height
    && 1 <= t.columns && t.columns * t.fontWidth <= t.width
    && t.row < t.rows && t.col < t.columns
    && t.savedRow < t.rows && t.savedCol < t.columns
    && t.regionStart < t.regionEnd < t.rows
  }

  /**
   * A drawing, in absolute pixel coordinates of the full frame buffer:
   * fill whole pixel rows `lo..hi`, fill a box, or scroll pixel rows
   * `lo..hi` up or down by `k` rows filling the vacated rows.
   */
  datatype Effect =
    | NoEffect
    | FillLines(lo: nat, hi: nat, c: byte)
    | FillBox(top: nat, left: nat, h: nat, w: nat, c: byte)
    | ScrollUp(lo: nat, hi: nat, k: nat, c: byte)
    | ScrollDown(lo: nat, hi: nat, k: nat, c: byte)

  /** The drawing stays inside the active area of `t`. */
  predicate Inside(t: Term, e: Effect)
  {
    match e
    case NoEffect => true
    case FillLines(lo, hi, _) => t.border <= lo <= hi <= t.border + t.height
    case FillBox(top, left, h, w, _) =>
      t.border <= top && top + h <= t.border + t.height && left + w <= t.width
    case ScrollUp(lo, hi, k, _) => t.border <= lo && lo + k <= hi <= t.border + t.height
    case ScrollDown(lo, hi, k, _) => t.border <= lo && lo + k <= hi <= t.border + t.height
  }

  /** The two states have the same frame buffer, font and grid. */
  predicate SameGeometry(t: Term, r: Term)
  {
    && r.fullHeight == t.fullHeight && r.pitch == t.pitch && r.width == t.width
    && r.fontHeight == t.fontHeight && r.fontWidth == t.fontWidth && r.lineLimit == t.lineLimit
    && r.border == t.border && r.height == t.height && r.rows == t.rows && r.columns == t.columns
  }

  /** What a completed operation leaves: the new state, its drawing, and the bytes sent back to the host. */
  datatype Outcome = Outcome(term: Term, effect: Effect, reply: seq<byte>)

  lemma MulLe(a: int, b: int, c: nat)
    ensures a <= b ==> a * c <= b * c
  {
  }

  /** Text row `r` of the grid lies inside the active area. */
  lemma RowInside(t: Term, r: nat)
    requires Valid(t) && r < t.rows
    ensures (r + 1) * t.fontHeight <= t.height
    ensures r * t.fontHeight + t.fontHeight <= t.height
  {
    MulLe(r + 1, t.rows, t.fontHeight);
  }

  /** Text column `c` of the grid lies inside the active width. */
  lemma ColumnInside(t: Term, c: nat)
    requires Valid(t) && c < t.columns
    ensures (c + 1) * t.fontWidth <= t.width
    ensures c * t.fontWidth + t.fontWidth <= t.width
  {
    MulLe(c + 1, t.columns, t.fontWidth);
  }

  // ---------------------------------------------------------------------
  // Cursor

  /** `v` clamped to `0..n-1`, as `gfx_term_move_cursor` clamps each coordinate. */
  function Clamp(v: int, n: nat): (r: nat)
    requires n >= 1
    ensures r < n
    ensures 0 <= v < n ==> r == v
    ensures v < 0 ==> r == 0
    ensures v >= n ==> r == n - 1
  {
    Min(n - 1, if v > 0 then v else 0)
  }

  /** The clamped coordinate is the position on the grid nearest to the requested one. */
  lemma ClampIsNearest(v: int, n: nat, p: int)
    requires n >= 1 && 0 <= p < n
    ensures var r := Clamp(v, n); (if r <= v then v - r else r - v) <= (if p <= v then v - p else p - v)
  {
  }

  /** `gfx_term_move_cursor`: each coordinate clamped to the grid, negative values to 0. */
  function MoveCursor(t: Term, row: int, col: int): (r: Term)
    requires Valid(t)
    ensures Valid(r)
    ensures r.row == Clamp(row, t.rows) && r.col == Clamp(col, t.columns)
    ensures r == t.(row := r.row, col := r.col)
  {
    t.(row := Clamp(row, t.rows), col := Clamp(col, t.columns))
  }

  /** The count of a cursor motion: the first parameter read as an `int`, 1 when there is none. */
  function Count(ps: seq<u32>): int
  {
    if |ps| > 0 then AsInt32(ps[0]) else 1
  }

  /** CUU (`A`). */
  function CursorUp(t: Term, ps: seq<u32>): (r: Term)
    requires Valid(t)
    ensures Valid(r) && r.col == t.col
    ensures SameGeometry(t, r)
  {
    MoveCursor(t, Max(0, t.row - Count(ps)), t.col)
  }

  /** CUD (`B`). */
  function CursorDown(t: Term, ps: seq<u32>): (r: Term)
    requires Valid(t)
    ensures Valid(r) && r.col == t.col
    ensures SameGeometry(t, r)
  {
    MoveCursor(t, Min(t.rows - 1, t.row + Count(ps)), t.col)
  }

  /** CUF (`C`). */
  function CursorForward(t: Term, ps: seq<u32>): (r: Term)
    requires Valid(t)
    ensures Valid(r) && r.row == t.row
    ensures SameGeometry(t, r)
  {
    MoveCursor(t, t.row, Min(t.columns - 1, t.col + Count(ps)))
  }

  /** CUB (`D`). */
  function CursorBack(t: Term, ps: seq<u32>): (r: Term)
    requires Valid(t)
    ensures Valid(r) && r.row == t.row
    ensures SameGeometry(t, r)
  {
    MoveCursor(t, t.row, Max(0, t.col - Count(ps)))
  }

  /**
   * A motion by `n` cells (default 1) goes exactly `n` cells when there is
   * room and stops at the edge of the grid otherwise; a count of 0 does not
   * move the cursor.
   */
  lemma RelativeMotion(t: Term, ps: seq<u32>)
    requires Valid(t)
    requires |ps| == 0 || ps[0] < 0x8000_0000
    ensures var n := if |ps| == 0 then 1 else ps[0];
      && CursorUp(t, ps).row == (if n <= t.row then t.row - n else 0)
      && CursorDown(t, ps).row == (if t.row + n < t.rows then t.row + n else t.rows - 1)
      && CursorForward(t, ps).col == (if t.col + n < t.columns then t.col + n else t.columns - 1)
      && CursorBack(t, ps).col == (if n <= t.col then t.col - n else 0)
  {
  }

  /**
   * A count of 2^31 or more is negative as an `int`, so each motion runs the
   * other way by `2^32 - count` cells, again stopping at the edge of the grid.
   */
  lemma ReversedMotion(t: Term, ps: seq<u32>)
    requires Valid(t)
    requires |ps| >= 1 && ps[0] >= 0x8000_0000
    ensures var m := U32_MODULUS - ps[0];
      && CursorUp(t, ps).row == (if t.row + m < t.rows then t.row + m else t.rows - 1)
      && CursorDown(t, ps).row == (if m <= t.row then t.row - m else 0)
      && CursorForward(t, ps).col == (if m <= t.col then t.col - m else 0)
      && CursorBack(t, ps).col == (if t.col + m < t.columns then t.col + m else t.columns - 1)
  {
  }

  /** CUP / HVP (`H`, `f`): 1-based row and column, each defaulting to 1. */
  function CursorPosition(t: Term, ps: seq<u32>): (r: Term)
    requires Valid(t)
    ensures Valid(r)
    ensures SameGeometry(t, r)
  {
    var row := if |ps| < 1 then 1 else AsInt32(ps[0]);
    var col := if |ps| < 2 then 1 else AsInt32(ps[1]);
    MoveCursor(t, row - 1, col - 1)
  }

  /** A position on the grid is reached exactly; no parameters mean the home position. */
  lemma PositionOnGrid(t: Term, r: u32, c: u32)
    requires Valid(t) && 1 <= r <= t.rows && 1 <= c <= t.columns && r < 0x8000_0000 && c < 0x8000_0000
    ensures CursorPosition(t, [r, c]) == t.(row := r - 1, col := c - 1)
    ensures CursorPosition(t, []) == t.(row := 0, col := 0)
  {
  }

  /** `gfx_term_save_cursor`. */
  function SaveCursor(t: Term): (r: Term)
    requires Valid(t)
    ensures Valid(r)
    ensures SameGeometry(t, r)
  {
    t.(savedRow := t.row, savedCol := t.col)
  }

  /** `gfx_term_restore_cursor`. */
  function RestoreCursor(t: Term): (r: Term)
    requires Valid(t)
    ensures Valid(r)
    ensures SameGeometry(t, r)
  {
    t.(row := t.savedRow, col := t.savedCol)
  }

  /** A saved position survives any cursor motion and is restored exactly. */
  lemma SaveMoveRestore(t: Term, row: int, col: int)
    requires Valid(t)
    ensures RestoreCursor(MoveCursor(SaveCursor(t), row, col)) == SaveCursor(t)
  {
  }

  // ---------------------------------------------------------------------
  // Control characters

  /** Carriage return: column 0. */
  function CarriageReturn(t: Term): (r: Term)
    requires Valid(t)
    ensures Valid(r) && r.col == 0 && r == t.(col := 0)
  {
    t.(col := 0)
  }

  /** Horizontal tab: the next multiple of 8, or the last column. */
  function Tab(t: Term): (r: Term)
    requires Valid(t)
    ensures Valid(r) && r == t.(col := r.col)
  {
    t.(col := Min((t.col / 8 + 1) * 8, t.columns - 1))
  }

  /**
   * A tab stops at the first tab stop (a multiple of 8) to the right of the
   * cursor, unless the last column comes first; it never moves left.
   */
  lemma TabStops(t: Term)
    requires Valid(t)
    ensures var c := Tab(t).col;
      && t.col <= c
      && (c == t.columns - 1 || (c % 8 == 0 && t.col < c && c - t.col <= 8))
      && (c < t.columns - 1 ==> forall k | t.col < k < c :: k % 8 != 0)
  {
    var c := Tab(t).col;
    var next := (t.col / 8 + 1) * 8;
    assert t.col < next <= t.col + 8;
    if c < t.columns - 1 {
      assert c == next;
      forall k | t.col < k < c
        ensures k % 8 != 0
      {
        assert k / 8 == t.col / 8;
      }
    }
  }

  /** Backspace: one column left, never past column 0. */
  function Backspace(t: Term): (r: Term)
    requires Valid(t)
    ensures Valid(r) && r == t.(col := if t.col > 0 then t.col - 1 else 0)
  {
    if t.col > 0 then t.(col := t.col - 1) else t
  }

  /**
   * `handle_autoscroll`, once the cursor row has possibly moved one past
   * its old value: a cursor that came from a row of the scrolling region and
   * reached or passed its last row is put on the row above the last one and
   * the region scrolls up one text row; otherwise the row is clamped to the
   * grid. The row before the cursor is computed in 32 bits in the source, so
   * from row 0 it wraps to 2^32-1, which is in no region: that is the
   * `row >= 1` test here.
   */
  function Autoscroll(t: Term): (r: Outcome)
    requires Valid(t.(row := 0)) && t.row <= t.rows
    ensures Valid(r.term) && r.reply == []
    ensures Inside(t, r.effect) && r.term == t.(row := r.term.row)
    ensures r.effect != NoEffect <==>
      (t.row >= 1 && t.regionStart <= t.row - 1 <= t.regionEnd && t.row >= t.regionEnd)
    ensures SameGeometry(t, r.term)
  {
    if t.row >= 1 && t.regionStart <= t.row - 1 <= t.regionEnd && t.row >= t.regionEnd then
      GridLinesOnArea(t, t.regionStart, t.regionEnd);
      Outcome(t.(row := t.regionEnd - 1), ScrollUpLines(t, t.regionStart, t.regionEnd, 1), [])
    else
      Outcome(t.(row := Min(t.rows - 1, t.row)), NoEffect, [])
  }

  /**
   * The two outcomes of the autoscroll rule: the cursor on the row above the
   * region's last and the region up one line, or the row clamped to the grid
   * with nothing drawn.
   */
  lemma AutoscrollOutcomes(t: Term)
    requires Valid(t.(row := 0)) && t.row <= t.rows
    ensures var r := Autoscroll(t);
      && (r.effect != NoEffect ==>
            && r.term.row == t.regionEnd - 1 && LinesOnArea(t, t.regionStart, t.regionEnd)
            && r.effect == ScrollUpLines(t, t.regionStart, t.regionEnd, 1))
      && (r.effect == NoEffect ==> r.term.row == Min(t.rows - 1, t.row))
  {
    if t.row >= 1 && t.regionStart <= t.row - 1 <= t.regionEnd && t.row >= t.regionEnd {
      GridLinesOnArea(t, t.regionStart, t.regionEnd);
    }
  }

  /** Line feed: the next row, then the autoscroll rule. */
  function LineFeed(t: Term): (r: Outcome)
    requires Valid(t)
    ensures Valid(r.term) && r.reply == [] && Inside(t, r.effect)
    ensures SameGeometry(t, r.term)
  {
    Autoscroll(t.(row := t.row + 1))
  }

  /**
   * Inside the scrolling region, a line feed moves down one row until the
   * row above the region's last; from there it stays put and scrolls the
   * region up by exactly one text row.
   */
  lemma LineFeedInRegion(t: Term)
    requires Valid(t) && t.regionStart <= t.row < t.regionEnd
    ensures var r := LineFeed(t);
      && t.regionStart <= r.term.row < t.regionEnd
      && (t.row < t.regionEnd - 1 ==> r.term == t.(row := t.row + 1) && r.effect == NoEffect)
      && (t.row == t.regionEnd - 1 ==>
            r.term == t && r.effect == ScrollUpLines(t, t.regionStart, t.regionEnd, 1))
  {
  }

  /** Below the scrolling region, a line feed moves down until the last row and never scrolls. */
  lemma LineFeedBelowRegion(t: Term)
    requires Valid(t) && t.regionEnd < t.row
    ensures LineFeed(t) == Outcome(t.(row := Min(t.row + 1, t.rows - 1)), NoEffect, [])
  {
  }

  /**
   * The check after every byte: a cursor that has run past the last column
   * goes to the start of the next row when wraparound is on, or stays on
   * the last column otherwise; either way the autoscroll rule follows.
   */
  function ColumnOverflow(t: Term): (r: Outcome)
    requires Valid(t.(col := 0)) && t.col <= t.columns
    ensures Valid(r.term) && r.reply == [] && Inside(t, r.effect)
    ensures t.col < t.columns ==> r == Outcome(t, NoEffect, [])
    ensures SameGeometry(t, r.term)
  {
    if t.col >= t.columns then
      if t.wraparound then Autoscroll(t.(col := 0, row := t.row + 1))
      else Autoscroll(t.(col := t.columns - 1))
    else Outcome(t, NoEffect, [])
  }

  /**
   * With wraparound, running past the last column is a carriage return and
   * a line feed; without it, the cursor stays on the last column.
   */
  lemma OverflowPlacesCursor(t: Term)
    requires Valid(t.(col := 0)) && t.col == t.columns
    ensures t.wraparound ==> ColumnOverflow(t) == LineFeed(t.(col := 0))
    ensures !t.wraparound ==> ColumnOverflow(t).term.col == t.columns - 1
  {
    if t.wraparound {
      OverflowWrapsToNextLine(t);
    } else {
      OverflowStaysOnLastColumn(t);
    }
  }

  lemma OverflowWrapsToNextLine(t: Term)
    requires Valid(t.(col := 0)) && t.col == t.columns && t.wraparound
    ensures ColumnOverflow(t) == LineFeed(t.(col := 0))
  {
    var u := t.(col := 0);
    assert u.(row := u.row + 1) == t.(col := 0, row := t.row + 1);
  }

  lemma OverflowStaysOnLastColumn(t: Term)
    requires Valid(t.(col := 0)) && t.col == t.columns && !t.wraparound
    ensures ColumnOverflow(t).term.col == t.columns - 1
  {
  }

  // ---------------------------------------------------------------------
  // Drawing primitives, in text-grid terms

  /**
   * `gfx_fill_rect`: a box of the active area, given in pixels, filled in
   * the effective foreground colour after `ClipRect` has cut it back to the
   * surface; nothing when its corner lies off the surface.
   */
  function FillRect(t: Term, x: u32, y: u32, w: u32, h: u32): (e: Effect)
    requires Valid(t)
    requires x + w < U32_MODULUS && y + h < U32_MODULUS
    ensures Inside(t, e)
    ensures e == NoEffect <==> x >= t.width || y >= t.height
    ensures e.FillBox? ==> e.c == EffectiveFg(t.attrs) && e.top >= t.border
  {
    match ClipRect(x, y, w, h, t.width, t.height)
    case None => NoEffect
    case Some(r) => FillBox(t.border + r.y, r.x, r.h, r.w, EffectiveFg(t.attrs))
  }

  /**
   * The box filled is exactly the part of the requested rectangle that lies
   * on the active area (in active-area coordinates).
   */
  lemma FillRectCovers(t: Term, x: u32, y: u32, w: u32, h: u32, px: int, py: int)
    requires Valid(t)
    requires x + w < U32_MODULUS && y + h < U32_MODULUS
    ensures var e := FillRect(t, x, y, w, h);
      (e.FillBox? && Covers(Rect(e.left, e.top - t.border, e.w, e.h), px, py)) <==>
      (Covers(Rect(x, y, w, h), px, py) && 0 <= px < t.width && 0 <= py < t.height)
  {
    ClipIsIntersection(x, y, w, h, t.width, t.height, px, py);
  }

  /**
   * `gfx_clear_rect`: `gfx_fill_rect` with the foreground temporarily set to
   * the background, so the same box is filled, but in the plain background
   * colour whatever the reverse-video flag says.
   */
  function ClearRect(t: Term, x: u32, y: u32, w: u32, h: u32): (e: Effect)
    requires Valid(t)
    requires x + w < U32_MODULUS && y + h < U32_MODULUS
    ensures Inside(t, e)
    ensures e.FillBox? <==> FillRect(t, x, y, w, h).FillBox?
    ensures e.FillBox? ==> var f := FillRect(t, x, y, w, h);
      f.FillBox? && e == FillBox(f.top, f.left, f.h, f.w, t.attrs.bg)
  {
    FillRect(t.(attrs := t.attrs.(fg := t.attrs.bg)), x, y, w, h)
  }

  /** `gfx_clear`: the whole active area in the effective background colour. */
  function ClearScreen(t: Term): (e: Effect)
    requires 2 * t.border + t.height == t.fullHeight
    ensures Inside(t, e)
  {
    FillLines(t.border, t.border + t.height, EffectiveBg(t.attrs))
  }

  /** `gfx_term_clear_till_end`: from the cursor to the right edge of the active area. */
  function ClearTillEnd(t: Term): (e: Effect)
    requires Valid(t)
    ensures Inside(t, e)
    ensures e == FillBox(t.border + t.row * t.fontHeight, t.col * t.fontWidth,
                         t.fontHeight, t.width - t.col * t.fontWidth, t.attrs.bg)
  {
    var x, y := t.col * t.fontWidth, t.row * t.fontHeight;
    assert x + t.fontWidth <= t.width && y + t.fontHeight <= t.height by {
      RowInside(t, t.row);
      ColumnInside(t, t.col);
    }
    ClearRectOnSurface(t, x, y, t.width, t.fontHeight);
    ClearRect(t, x, y, t.width, t.fontHeight)
  }

  /** `gfx_term_clear_till_cursor`: from the left edge up to and including the cursor cell. */
  function ClearTillCursor(t: Term): (e: Effect)
    requires Valid(t)
    ensures Inside(t, e)
    ensures e == FillBox(t.border + t.row * t.fontHeight, 0,
                         t.fontHeight, (t.col + 1) * t.fontWidth, t.attrs.bg)
  {
    var y, w := t.row * t.fontHeight, (t.col + 1) * t.fontWidth;
    assert w <= t.width && y + t.fontHeight <= t.height by {
      RowInside(t, t.row);
      ColumnInside(t, t.col);
    }
    ClearRectOnSurface(t, 0, y, w, t.fontHeight);
    ClearRect(t, 0, y, w, t.fontHeight)
  }

  /** `gfx_term_clear_line`: the cursor's whole text row. */
  function ClearLine(t: Term): (e: Effect)
    requires Valid(t)
    ensures Inside(t, e)
    ensures e == FillBox(t.border + t.row * t.fontHeight, 0, t.fontHeight, t.width, t.attrs.bg)
  {
    RowInside(t, t.row);
    ClearRectOnSurface(t, 0, t.row * t.fontHeight, t.width, t.fontHeight);
    ClearRect(t, 0, t.row * t.fontHeight, t.width, t.fontHeight)
  }

  /**
   * `gfx_term_clear_lines`: text rows `from..to`, cut back to the grid;
   * nothing when the range is empty.
   */
  function ClearLines(t: Term, from: int, to: int): (e: Effect)
    requires Valid(t)
    ensures Inside(t, e)
    ensures var lo := Max(from, 0); var hi := Min(to, t.rows - 1);
      && (lo > hi ==> e == NoEffect)
      && (lo <= hi ==> e == FillBox(t.border + lo * t.fontHeight, 0,
                                    (hi - lo + 1) * t.fontHeight, t.width, t.attrs.bg))
  {
    var lo := Max(from, 0);
    var hi := Min(to, t.rows - 1);
    if lo <= hi then
      LinesInside(t, lo, hi);
      ClearRectOnSurface(t, 0, lo * t.fontHeight, t.width, (hi - lo + 1) * t.fontHeight);
      ClearRect(t, 0, lo * t.fontHeight, t.width, (hi - lo + 1) * t.fontHeight)
    else NoEffect
  }

  /** A box with its corner on the active area is cleared after cutting it back to the area's edges. */
  lemma ClearRectOnSurface(t: Term, x: u32, y: u32, w: u32, h: u32)
    requires Valid(t) && x < t.width && y < t.height
    requires x + w < U32_MODULUS && y + h < U32_MODULUS
    ensures ClearRect(t, x, y, w, h) ==
      FillBox(t.border + y, x, if y + h > t.height then t.height - y else h,
              if x + w > t.width then t.width - x else w, t.attrs.bg)
  {
    assert (x + w) % U32_MODULUS == x + w && (y + h) % U32_MODULUS == y + h;
    var t' := t.(attrs := t.attrs.(fg := t.attrs.bg));
    assert EffectiveFg(t'.attrs) == t.attrs.bg;
    assert ClearRect(t, x, y, w, h) == FillRect(t', x, y, w, h);
  }

  /** Text rows `lo..hi` of the grid, in pixel rows of the active area. */
  lemma LinesInside(t: Term, lo: nat, hi: nat)
    requires Valid(t) && lo <= hi < t.rows
    ensures lo * t.fontHeight + (hi - lo + 1) * t.fontHeight == (hi + 1) * t.fontHeight <= t.height
  {
    RowInside(t, hi);
  }

  /** Text rows `start..end` lie inside the active area. */
  predicate LinesOnArea(t: Term, start: nat, end: nat)
  {
    2 * t.border + t.height == t.fullHeight && start <= end && (end + 1) * t.fontHeight <= t.height
  }

  lemma GridLinesOnArea(t: Term, start: nat, end: nat)
    requires Valid(t.(row := 0)) && start <= end < t.rows
    ensures LinesOnArea(t, start, end)
  {
    MulLe(end + 1, t.rows, t.fontHeight);
  }

  /**
   * `gfx_scroll_up`: text rows `start+lines..end` move up to `start`, the
   * bottom `lines` rows of the range are filled with the effective
   * background.
   */
  function ScrollUpLines(t: Term, start: nat, end: nat, lines: nat): (e: Effect)
    requires LinesOnArea(t, start, end) && start + lines <= end + 1
    ensures Inside(t, e)
  {
    MulLe(start + lines, end + 1, t.fontHeight);
    ScrollUp(t.border + start * t.fontHeight, t.border + (end + 1) * t.fontHeight,
             lines * t.fontHeight, EffectiveBg(t.attrs))
  }

  /**
   * `gfx_scroll_down`: the count is first cut to `end - start`; text rows
   * `start..end-lines` move down by `lines`, the top `lines` rows of the
   * range are filled with the effective background.
   */
  function ScrollDownLines(t: Term, start: nat, end: nat, lines: nat): (e: Effect)
    requires LinesOnArea(t, start, end)
    ensures Inside(t, e)
  {
    var lines := Min(lines, end - start);
    MulLe(start + lines, end + 1, t.fontHeight);
    ScrollDown(t.border + start * t.fontHeight, t.border + (end + 1) * t.fontHeight,
               lines * t.fontHeight, EffectiveBg(t.attrs))
  }

  // ---------------------------------------------------------------------
  // Attributes


  /** One ordinary SGR parameter, read as an `int` as the source does. */
  function SgrParam(a: Attrs, param: u32): Attrs
  {
    var p := AsInt32(param);
    if p == 0 then ResetAttrs
    else if p == 1 then a.(fg := Or8(a.fg, 8))
    else if p == 2 then a.(fg := And8(a.fg, 7))
    else if p == 3 || p == 7 then a.(inverse := true)
    else if p == 27 then a.(inverse := false)
    else if 30 <= p <= 37 then a.(fg := Or8(And8(a.fg, 8), p - 30))
    else if p == 39 then a.(fg := 15)
    else if 40 <= p <= 47 then a.(bg := p - 40)
    else if p == 49 then a.(bg := 7)
    else a
  }

  /** Which parameters touch which attribute: 0 resets all three, and no other value reaches an attribute it does not name. */
  lemma SgrParamTouches(a: Attrs, param: u32)
    ensures var r := SgrParam(a, param);
      && (AsInt32(param) == 0 ==> r == ResetAttrs)
      && (r.fg != a.fg ==> AsInt32(param) in {0, 1, 2, 39} || 30 <= AsInt32(param) <= 37)
      && (r.bg != a.bg ==> AsInt32(param) in {0, 49} || 40 <= AsInt32(param) <= 47)
      && (r.inverse != a.inverse ==> AsInt32(param) in {0, 3, 7, 27})
  {
  }

  /**
   * The SGR walk from parameter `i` on: `38;5;N` and `48;5;N` take three
   * slots and set the foreground or background to `N` (cut to a byte), but
   * only when all three are present; every other slot is one ordinary
   * parameter.
   */
  function SgrFrom(a: Attrs, ps: seq<u32>, i: nat): Attrs
    decreases |ps| - i
  {
    if i >= |ps| then a
    else if i + 2 < |ps| && ps[i] == 38 && ps[i + 1] == 5 then SgrFrom(a.(fg := ps[i + 2] % 256), ps, i + 3)
    else if i + 2 < |ps| && ps[i] == 48 && ps[i + 1] == 5 then SgrFrom(a.(bg := ps[i + 2] % 256), ps, i + 3)
    else SgrFrom(SgrParam(a, ps[i]), ps, i + 1)
  }

  /**
   * One turn of the SGR walk from slot `i`: the attributes after it and the
   * slot it resumes at; the rest of the walk is unchanged by taking it.
   */
  function SgrStep(a: Attrs, ps: seq<u32>, i: nat): (r: (Attrs, nat))
    requires i < |ps|
    ensures i < r.1 <= |ps| && (r.1 == i + 1 || r.1 == i + 3)
    ensures SgrFrom(r.0, ps, r.1) == SgrFrom(a, ps, i)
  {
    if i + 2 < |ps| && ps[i] == 38 && ps[i + 1] == 5 then (a.(fg := ps[i + 2] % 256), i + 3)
    else if i + 2 < |ps| && ps[i] == 48 && ps[i + 1] == 5 then (a.(bg := ps[i + 2] % 256), i + 3)
    else (SgrParam(a, ps[i]), i + 1)
  }

  /**
   * Only the slots that name reverse video touch it, and only the slots that
   * name a background (or reset) touch the background.
   */
  lemma {:induction false} SgrFromKeeps(a: Attrs, ps: seq<u32>, i: nat)
    ensures (forall k | i <= k < |ps| :: AsInt32(ps[k]) !in {0, 3, 7, 27}) ==> SgrFrom(a, ps, i).inverse == a.inverse
    ensures (forall k | i <= k < |ps| :: ps[k] != 48 && AsInt32(ps[k]) !in {0, 49} && !(40 <= AsInt32(ps[k]) <= 47))
            ==> SgrFrom(a, ps, i).bg == a.bg
    decreases |ps| - i
  {
    if i >= |ps| {
    } else if i + 2 < |ps| && ps[i] == 38 && ps[i + 1] == 5 {
      SgrFromKeeps(a.(fg := ps[i + 2] % 256), ps, i + 3);
    } else if i + 2 < |ps| && ps[i] == 48 && ps[i + 1] == 5 {
      SgrFromKeeps(a.(bg := ps[i + 2] % 256), ps, i + 3);
    } else {
      SgrParamTouches(a, ps[i]);
      SgrFromKeeps(SgrParam(a, ps[i]), ps, i + 1);
    }
  }

  /** SGR (`m`): no parameters reset the attributes, otherwise the parameters are walked left to right. */
  function Sgr(a: Attrs, ps: seq<u32>): (r: Attrs)
    ensures ps == [] ==> r == ResetAttrs
  {
    if |ps| == 0 then ResetAttrs else SgrFrom(a, ps, 0)
  }

  /** The ordinary parameters applied one after another, as a plain left fold. */
  function SgrFold(a: Attrs, ps: seq<u32>): Attrs
    decreases |ps|
  {
    if ps == [] then a else SgrFold(SgrParam(a, ps[0]), ps[1..])
  }

  /** Without 38 or 48 among them, the SGR walk is the plain fold of the parameters. */
  lemma {:induction false} SgrWithoutExtendedColours(a: Attrs, ps: seq<u32>, i: nat)
    requires i <= |ps|
    requires forall k | i <= k < |ps| :: ps[k] != 38 && ps[k] != 48
    ensures SgrFrom(a, ps, i) == SgrFold(a, ps[i..])
    decreases |ps| - i
  {
    if i < |ps| {
      SgrWithoutExtendedColours(SgrParam(a, ps[i]), ps, i + 1);
      assert ps[i..][0] == ps[i];
      assert ps[i..][1..] == ps[i + 1..];
    } else {
      assert ps[i..] == [];
    }
  }

  /** `38;5;N` and `48;5;N` select palette entry `N` (cut to a byte) for foreground or background. */
  lemma ExtendedColours(a: Attrs, n: u32)
    ensures Sgr(a, [38, 5, n]) == a.(fg := n % 256)
    ensures Sgr(a, [48, 5, n]) == a.(bg := n % 256)
  {
    assert SgrFrom(a.(fg := n % 256), [38, 5, n], 3) == a.(fg := n % 256);
    assert SgrFrom(a.(bg := n % 256), [48, 5, n], 3) == a.(bg := n % 256);
  }

  /** `38;5` without the colour slot is two ordinary parameters, neither of which changes anything. */
  lemma TruncatedExtendedColour(a: Attrs)
    ensures Sgr(a, [38, 5]) == a && Sgr(a, [48, 5]) == a
  {
  }

  /**
   * The colour parameters in arithmetic terms: bold sets the bright bit
   * (value 8) of the foreground, 2 keeps only the three colour bits, and
   * 30..37 choose the colour bits while keeping the bright bit.
   */
  lemma SgrColourBits(a: Attrs, p: u32)
    ensures SgrParam(a, 1).fg == (if a.fg % 16 >= 8 then a.fg else a.fg + 8)
    ensures SgrParam(a, 2).fg == a.fg % 8
    ensures 30 <= p <= 37 ==> SgrParam(a, p).fg == a.fg % 16 / 8 * 8 + (p - 30)
    ensures 40 <= p <= 47 ==> SgrParam(a, p).bg == p - 40
  {
    BitsOfByte(a.fg);
    if 30 <= p <= 37 {
      var d := p - 30;
      OrLowBits(And8(a.fg, 8), d);
    }
  }

  /** `gfx_swap_fg_bg`: reverse video toggles, exchanging the effective colours. */
  function SwapFgBg(a: Attrs): (r: Attrs)
    ensures r.fg == a.fg && r.bg == a.bg && r.inverse != a.inverse
    ensures EffectiveFg(r) == EffectiveBg(a) && EffectiveBg(r) == EffectiveFg(a)
  {
    a.(inverse := !a.inverse)
  }

  // ---------------------------------------------------------------------
  // Scrolling region

  /** The test DECSTBM applies to its two parameters, read as `int`s, in the source. */
  predicate MarginsAccepted(start: int, end: int)
  {
    start > 0 && end > 0 && end - start >= 2
  }

  /**
   * DECSTBM (`r`) as the source writes it: with exactly two parameters that
   * pass the test the region becomes rows `start-1..end-1`; two parameters
   * that fail it change nothing; any other count resets the region to the
   * whole grid. The bottom margin is never compared with the number of rows.
   */
  function SetMarginsAsWritten(t: Term, ps: seq<u32>): (r: Term)
    requires Valid(t)
    ensures r == t.(regionStart := r.regionStart, regionEnd := r.regionEnd)
  {
    if |ps| == 2 then
      var start := AsInt32(ps[0]);
      var end := AsInt32(ps[1]);
      if MarginsAccepted(start, end) then t.(regionStart := start - 1, regionEnd := end - 1) else t
    else t.(regionStart := 0, regionEnd := t.rows - 1)
  }

  /** DECSTBM with the bottom margin also required to lie on the grid. */
  function SetMargins(t: Term, ps: seq<u32>): (r: Term)
    requires Valid(t)
    ensures Valid(r)
    ensures r == t.(regionStart := r.regionStart, regionEnd := r.regionEnd)
    ensures SameGeometry(t, r)
  {
    if |ps| == 2 then
      var start := AsInt32(ps[0]);
      var end := AsInt32(ps[1]);
      if MarginsAccepted(start, end) && end <= t.rows then t.(regionStart := start - 1, regionEnd := end - 1) else t
    else t.(regionStart := 0, regionEnd := t.rows - 1)
  }

  /**
   * The three outcomes of DECSTBM: margins accepted (1-based, at least three
   * rows apart, on the grid) become the region; two rejected margins leave
   * it; any other parameter count selects the whole grid.
   */
  lemma MarginsOutcomes(t: Term, ps: seq<u32>)
    requires Valid(t)
    ensures var r := SetMargins(t, ps);
      && (|ps| != 2 ==> r.regionStart == 0 && r.regionEnd == t.rows - 1)
      && (|ps| == 2 && MarginsAccepted(AsInt32(ps[0]), AsInt32(ps[1])) && AsInt32(ps[1]) <= t.rows ==>
            r.regionStart == ps[0] - 1 && r.regionEnd == ps[1] - 1)
      && (|ps| == 2 && !(MarginsAccepted(AsInt32(ps[0]), AsInt32(ps[1])) && AsInt32(ps[1]) <= t.rows) ==>
            r == t)
  {
  }

  /** The correction only matters for a bottom margin below the grid. */
  lemma MarginsAgreeOnGrid(t: Term, ps: seq<u32>)
    requires Valid(t)
    requires |ps| == 2 ==> AsInt32(ps[1]) <= t.rows
    ensures SetMargins(t, ps) == SetMarginsAsWritten(t, ps)
  {
  }

  /**
   * As written, `ESC [ 1 ; rows+1 r` is accepted and puts the bottom of the
   * region one row below the grid, so a later insert, delete or scroll
   * moves pixel rows past the active area.
   */
  lemma MarginsAsWrittenLeaveGrid(t: Term)
    requires Valid(t)
    ensures t.rows + 1 < U32_MODULUS
    ensures SetMarginsAsWritten(t, [1, t.rows + 1]).regionEnd == t.rows
    ensures !Valid(SetMarginsAsWritten(t, [1, t.rows + 1]))
  {
    RowInside(t, t.rows - 1);
  }

  /** IL (`L`): inside the region, push the rows from the cursor down by `n` (default 1, at most to the region's end). */
  function InsertLines(t: Term, ps: seq<u32>): (e: Effect)
    requires Valid(t)
    ensures Inside(t, e)
    ensures !(t.regionStart <= t.row <= t.regionEnd) ==> e == NoEffect
  {
    if t.regionStart <= t.row <= t.regionEnd then
      var n := Min(if |ps| > 0 then ps[0] else 1, t.regionEnd - t.row);
      GridLinesOnArea(t, t.row, t.regionEnd);
      ScrollDownLines(t, t.row, t.regionEnd, n)
    else NoEffect
  }

  /** DL (`M`): inside the region, pull the rows below the cursor up by `n` (default 1, at most to the region's end). */
  function DeleteLines(t: Term, ps: seq<u32>): (e: Effect)
    requires Valid(t)
    ensures Inside(t, e)
    ensures !(t.regionStart <= t.row <= t.regionEnd) ==> e == NoEffect
  {
    if t.regionStart <= t.row <= t.regionEnd then
      var n := Min(if |ps| > 0 then ps[0] else 1, t.regionEnd - t.row);
      GridLinesOnArea(t, t.row, t.regionEnd);
      ScrollUpLines(t, t.row, t.regionEnd, n)
    else NoEffect
  }

  /**
   * Insert and delete act on text rows `row..regionEnd` only, by the same
   * count, which never exceeds the rows left in the region.
   */
  lemma InsertDeleteRange(t: Term, ps: seq<u32>)
    requires Valid(t) && t.regionStart <= t.row <= t.regionEnd
    ensures var n := Min(if |ps| > 0 then ps[0] else 1, t.regionEnd - t.row);
      var lo := t.border + t.row * t.fontHeight;
      var hi := t.border + (t.regionEnd + 1) * t.fontHeight;
      && n <= t.regionEnd - t.row
      && InsertLines(t, ps) == ScrollDown(lo, hi, n * t.fontHeight, EffectiveBg(t.attrs))
      && DeleteLines(t, ps) == ScrollUp(lo, hi, n * t.fontHeight, EffectiveBg(t.attrs))
  {
  }

  // ---------------------------------------------------------------------
  // Erasing

  /** ED (`J`): 0 from the cursor row down, 1 from the top to the cursor row, 2 the whole screen and home. */
  function EraseInDisplay(t: Term, ps: seq<u32>): (r: Outcome)
    requires Valid(t)
    ensures Valid(r.term) && Inside(t, r.effect) && r.reply == []
    ensures SameGeometry(t, r.term)
  {
    var mode := if |ps| >= 1 then ps[0] else 0;
    if mode == 0 then Outcome(t, ClearLines(t, t.row, t.rows - 1), [])
    else if mode == 1 then Outcome(t, ClearLines(t, 0, t.row), [])
    else if mode == 2 then
      var home := MoveCursor(t, 0, 0);
      Outcome(home, ClearScreen(home), [])
    else Outcome(t, NoEffect, [])
  }

  /** EL (`K`): with no or one parameter, 0 to the end of the line, 1 to the cursor, 2 the whole line. */
  function EraseInLine(t: Term, ps: seq<u32>): (e: Effect)
    requires Valid(t)
    ensures Inside(t, e)
  {
    if |ps| == 0 then ClearTillEnd(t)
    else if |ps| == 1 then
      if ps[0] == 0 then ClearTillEnd(t)
      else if ps[0] == 1 then ClearTillCursor(t)
      else if ps[0] == 2 then ClearLine(t)
      else NoEffect
    else NoEffect
  }

  /**
   * ED 0 and ED 1 together cover every text row of the grid, overlapping
   * only on the cursor row: ED 0 is the rows from the cursor's down ...
   */
  lemma EraseInDisplayBelow(t: Term)
    requires Valid(t)
    ensures EraseInDisplay(t, [0]).effect ==
      FillBox(t.border + t.row * t.fontHeight, 0, (t.rows - t.row) * t.fontHeight, t.width, t.attrs.bg)
  {
    assert EraseInDisplay(t, [0]).effect == ClearLines(t, t.row, t.rows - 1);
  }

  /** ... and ED 1 the rows from the top through the cursor's. */
  lemma EraseInDisplayAbove(t: Term)
    requires Valid(t)
    ensures EraseInDisplay(t, [1]).effect ==
      FillBox(t.border, 0, (t.row + 1) * t.fontHeight, t.width, t.attrs.bg)
  {
    assert EraseInDisplay(t, [1]).effect == ClearLines(t, 0, t.row);
  }

  /** ED 2 homes the cursor and fills every text row with the effective background. */
  lemma EraseInDisplayWhole(t: Term)
    requires Valid(t)
    ensures EraseInDisplay(t, [2]).term == t.(row := 0, col := 0)
    ensures EraseInDisplay(t, [2]).effect == FillLines(t.border, t.border + t.height, EffectiveBg(t.attrs))
  {
  }

  /**
   * EL with no parameter is EL 0; EL 0 and EL 1 together cover the cursor's
   * whole text row, overlapping only in the cursor cell; EL 2 is the row.
   */
  lemma EraseInLineParts(t: Term)
    requires Valid(t)
    ensures var top := t.border + t.row * t.fontHeight;
      && EraseInLine(t, []) == EraseInLine(t, [0])
      && EraseInLine(t, [0]) == FillBox(top, t.col * t.fontWidth, t.fontHeight, t.width - t.col * t.fontWidth, t.attrs.bg)
      && EraseInLine(t, [1]) == FillBox(top, 0, t.fontHeight, (t.col + 1) * t.fontWidth, t.attrs.bg)
      && EraseInLine(t, [2]) == FillBox(top, 0, t.fontHeight, t.width, t.attrs.bg)
  {
  }

  // ---------------------------------------------------------------------
  // Replies to the host

  /** The answer to DSR 5: the terminal is OK. */
  const StatusOk: seq<byte> := [ESC, '[' as int, '0' as int, 'n' as int]

  /** The answer to DA: a base VT100 without options. */
  const DeviceAttributes: seq<byte> := [ESC, '[' as int, '?' as int, '1' as int, ';' as int, '0' as int, 'c' as int]

  /**
   * A field of the cursor-position report: the coordinate is cast to
   * `unsigned char` before one is added, and `b2s` takes the sum as an
   * `unsigned char` again.
   */
  function ReportField(v: nat): (f: byte)
    ensures (f + 255) % 256 == v % 256
  {
    (v % 256 + 1) % 256
  }

  /** The answer to DSR 6: `ESC [` row `;` column `R`, each as three decimal digits, 1-based. */
  function CursorReport(t: Term): (r: seq<byte>)
    ensures |r| == 10
  {
    [ESC, '[' as int] + ThreeDigits(ReportField(t.row)) + [';' as int] + ThreeDigits(ReportField(t.col)) + ['R' as int]
  }

  /** The decimal value of three ASCII digits. */
  function DecimalValue(d: seq<byte>): nat
    requires |d| == 3 && forall k | 0 <= k < 3 :: IsDigit(d[k])
  {
    DigitValue(d[0]) * 100 + DigitValue(d[1]) * 10 + DigitValue(d[2])
  }

  /**
   * The report is ten bytes with the separators in place, and on a grid of
   * fewer than 256 rows and columns its two fields read back as the 1-based
   * cursor position (from 256 on they wrap modulo 256).
   */
  lemma CursorReportReadsBack(t: Term)
    ensures var r := CursorReport(t);
      && r[0] == ESC && r[1] == '[' as int && r[5] == ';' as int && r[9] == 'R' as int
      && r[2..5] == ThreeDigits(ReportField(t.row)) && r[6..9] == ThreeDigits(ReportField(t.col))
      && (t.row < 255 ==> DecimalValue(r[2..5]) == t.row + 1)
      && (t.col < 255 ==> DecimalValue(r[6..9]) == t.col + 1)
  {
    var r := CursorReport(t);
    var a, b := ThreeDigits(ReportField(t.row)), ThreeDigits(ReportField(t.col));
    assert r == [ESC, '[' as int] + a + [';' as int] + b + ['R' as int];
    assert r[2..5] == a && r[6..9] == b;
    assert DecimalValue(a) == ReportField(t.row) && DecimalValue(b) == ReportField(t.col);
    ReportFieldBelow(t.row);
    ReportFieldBelow(t.col);
  }

  /** Below 255 the field is the 1-based position itself. */
  lemma ReportFieldBelow(v: nat)
    ensures v < 255 ==> ReportField(v) == v + 1
  {
    if v < 255 {
      assert v % 256 == v;
      assert (v + 1) % 256 == v + 1;
    }
  }

  /** At the home position the report is `ESC [ 0 0 1 ; 0 0 1 R`. */
  lemma CursorReportAtHome(t: Term)
    requires t.row == 0 && t.col == 0
    ensures CursorReport(t) == [ESC, '[' as int, '0' as int, '0' as int, '1' as int, ';' as int,
                                '0' as int, '0' as int, '1' as int, 'R' as int]
  {
  }

  /** DSR (`n`) with exactly one parameter: 5 asks for the status, 6 for the cursor position. */
  function StatusReport(t: Term, ps: seq<u32>): (r: seq<byte>)
    ensures r != [] <==> |ps| == 1 && (ps[0] == 5 || ps[0] == 6)
    ensures r != [] ==> (|r| == 4 || |r| == 10) && r[..2] == [ESC, '[' as int]
  {
    if |ps| == 1 then
      if ps[0] == 5 then StatusOk
      else if ps[0] == 6 then CursorReport(t)
      else []
    else []
  }

  /** DA (`c`) without a parameter or with 0. */
  function AttributesReport(ps: seq<u32>): (r: seq<byte>)
    ensures r != [] <==> |ps| == 0 || ps[0] == 0
    ensures r == [] || r == DeviceAttributes
  {
    if |ps| == 0 || ps[0] == 0 then DeviceAttributes else []
  }

  // ---------------------------------------------------------------------
  // The final letter of a control sequence

  /** DECSET / DECRST (`h` / `l`) with the `?` marker and one parameter: 7 is wraparound, 25 cursor visibility. */
  function SetMode(t: Term, on: bool, ps: seq<u32>, privateMode: byte): (r: Term)
    requires Valid(t)
    ensures Valid(r)
    ensures r == t.(wraparound := r.wraparound, cursorVisible := r.cursorVisible)
    ensures SameGeometry(t, r)
  {
    if privateMode == '?' as int && |ps| == 1 then
      if ps[0] == 7 then t.(wraparound := on)
      else if ps[0] == 25 then t.(cursorVisible := on)
      else t
    else t
  }

  /**
   * `ESC [ ? 7 h` / `l` turns wraparound on / off, `ESC [ ? 25 h` / `l`
   * shows / hides the cursor, and anything else (no `?`, another count,
   * another value) leaves the terminal as it was.
   */
  lemma SetModeOutcomes(t: Term, on: bool, ps: seq<u32>, privateMode: byte)
    requires Valid(t)
    ensures privateMode == '?' as int && ps == [7] ==> SetMode(t, on, ps, privateMode) == t.(wraparound := on)
    ensures privateMode == '?' as int && ps == [25] ==> SetMode(t, on, ps, privateMode) == t.(cursorVisible := on)
    ensures !(privateMode == '?' as int && (ps == [7] || ps == [25])) ==> SetMode(t, on, ps, privateMode) == t
  {
  }

  /**
   * `state_fun_final_letter`: what a completed control sequence does to the
   * terminal, what it draws, and what it sends back.
   */
  function Final(t: Term, ch: byte, ps: seq<u32>, privateMode: byte): (r: Outcome)
    requires Valid(t)
    ensures Valid(r.term) && Inside(t, r.effect)
    ensures r.reply != [] ==> ch == 'c' as int || ch == 'n' as int
    ensures SameGeometry(t, r.term)
  {
    if ch == 'h' as int || ch == 'l' as int then Outcome(SetMode(t, ch == 'h' as int, ps, privateMode), NoEffect, [])
    else if ch == 'A' as int then Outcome(CursorUp(t, ps), NoEffect, [])
    else if ch == 'B' as int then Outcome(CursorDown(t, ps), NoEffect, [])
    else if ch == 'C' as int then Outcome(CursorForward(t, ps), NoEffect, [])
    else if ch == 'D' as int then Outcome(CursorBack(t, ps), NoEffect, [])
    else if ch == 'J' as int then EraseInDisplay(t, ps)
    else if ch == 'K' as int then Outcome(t, EraseInLine(t, ps), [])
    else if ch == 'L' as int then Outcome(t, InsertLines(t, ps), [])
    else if ch == 'M' as int then Outcome(t, DeleteLines(t, ps), [])
    else if ch == 'm' as int then Outcome(t.(attrs := Sgr(t.attrs, ps)), NoEffect, [])
    else if ch == 'f' as int || ch == 'H' as int then Outcome(CursorPosition(t, ps), NoEffect, [])
    else if ch == 's' as int then Outcome(SaveCursor(t), NoEffect, [])
    else if ch == 'u' as int then Outcome(RestoreCursor(t), NoEffect, [])
    else if ch == 'c' as int then Outcome(t, NoEffect, AttributesReport(ps))
    else if ch == 'n' as int then Outcome(t, NoEffect, StatusReport(t, ps))
    else if ch == 'r' as int then Outcome(SetMargins(t, ps), NoEffect, [])
    else Outcome(t, NoEffect, [])
  }

  /** The final letters that only move the cursor. */
  const CURSOR_LETTERS: set<byte> := {'A' as int, 'B' as int, 'C' as int, 'D' as int, 'f' as int, 'H' as int, 's' as int, 'u' as int}
  /** The final letters that draw. */
  const EDIT_LETTERS: set<byte> := {'J' as int, 'K' as int, 'L' as int, 'M' as int}
  /** The final letters that answer the host. */
  const REPORT_LETTERS: set<byte> := {'c' as int, 'n' as int}

  /** Only the editing letters draw, only the report letters answer, and these leave the terminal state alone. */
  lemma FinalGroups(t: Term, ch: byte, ps: seq<u32>, privateMode: byte)
    requires Valid(t)
    ensures ch !in EDIT_LETTERS ==> Final(t, ch, ps, privateMode).effect == NoEffect
    ensures ch !in REPORT_LETTERS ==> Final(t, ch, ps, privateMode).reply == []
    ensures ch in REPORT_LETTERS ==> Final(t, ch, ps, privateMode).term == t
  {
  }

  /** `ESC c`: default attributes, cursor home, screen cleared in the new background. */
  function ResetTerminal(t: Term): (r: Outcome)
    requires Valid(t)
    ensures Valid(r.term) && Inside(t, r.effect) && r.reply == []
    ensures r.term.row == 0 && r.term.col == 0 && r.term.attrs == ResetAttrs
    ensures r.effect == FillLines(t.border, t.border + t.height, 0)
    ensures SameGeometry(t, r.term)
  {
    var home := MoveCursor(t.(attrs := ResetAttrs), 0, 0);
    Outcome(home, ClearScreen(home), [])
  }

  // ---------------------------------------------------------------------
  // Geometry

  /**
   * `gfx_set_screen_geometry`: the old active area is cleared, then lines,
   * border, active height and rows are recomputed for the current font and
   * line limit, and the cursor goes home.
   */
  function SetScreenGeometry(t: Term): (r: Outcome)
    requires SupportedFontHeight(t.fontHeight) && t.fontHeight <= t.fullHeight
    requires 2 * t.border + t.height == t.fullHeight
    ensures var g := ScreenLayout(t.fullHeight, t.fontHeight, t.lineLimit);
      r.term == t.(border := g.border, height := g.height, rows := g.rows, row := 0, col := 0)
    ensures r.effect == FillLines(t.border, t.border + t.height, EffectiveBg(t.attrs)) && r.reply == []
  {
    var g := ScreenLayout(t.fullHeight, t.fontHeight, t.lineLimit);
    Outcome(t.(border := g.border, height := g.height, rows := g.rows, row := 0, col := 0),
            FillLines(t.border, t.border + t.height, EffectiveBg(t.attrs)), [])
  }

  /**
   * `gfx_set_font_height` as the source writes it: font, glyph width and
   * line limit change and the geometry is recomputed, but the column count,
   * the scrolling region and the saved cursor keep their old values.
   */
  function SetFontHeightAsWritten(t: Term, h: nat): (r: Outcome)
    requires Valid(t) && SupportedFontHeight(h)
    ensures r.term.columns == t.columns && r.term.regionEnd == t.regionEnd && r.term.savedRow == t.savedRow
    ensures r.term.fontHeight == h && r.term.fontWidth == FontWidth(h)
  {
    SetScreenGeometry(t.(fontHeight := h, fontWidth := FontWidth(h), lineLimit := ClampLineLimit(t.lineLimit, t.fullHeight, h)))
  }

  /**
   * On a 640 by 480 panel with no line limit, going from the 16-pixel to the
   * 20-pixel font as written leaves 80 columns of 10-pixel glyphs (800
   * pixels) on a 640-pixel line, and a region and saved row below the 23
   * rows that remain.
   */
  lemma FontChangeAsWrittenLeavesGrid(t: Term)
    requires Valid(t) && t.fullHeight == 480 && t.width == 640 && t.fontHeight == 16 && t.lineLimit == 0
    requires t.columns == 80 && t.regionEnd == 28 && t.savedRow == 28
    ensures var r := SetFontHeightAsWritten(t, 20).term;
      && r.rows == 23
      && r.columns * r.fontWidth == 800 > r.width
      && r.regionEnd >= r.rows && r.savedRow >= r.rows
      && !Valid(r)
  {
    var g := ScreenLayout(480, 20, 0);
    assert g.lines == 24 && g.border == 10 && g.height == 460 && g.rows == 23;
  }

  /**
   * `gfx_set_font_height` with the grid brought in line with the new font:
   * the column count recomputed from the width, the scrolling region reset
   * to the whole grid and the saved cursor reset to home, like the cursor.
   */
  function SetFontHeight(t: Term, h: nat): (r: Outcome)
    requires Valid(t) && SupportedFontHeight(h)
    ensures Valid(r.term) && r.reply == []
    ensures r.effect == FillLines(t.border, t.border + t.height, EffectiveBg(t.attrs))
    ensures var g := ScreenLayout(t.fullHeight, h, ClampLineLimit(t.lineLimit, t.fullHeight, h));
      && r.term.fontHeight == h && r.term.fontWidth == FontWidth(h)
      && r.term.rows == g.rows && r.term.border == g.border && r.term.height == g.height
      && r.term.columns == t.width / FontWidth(h)
      && r.term.row == 0 && r.term.col == 0 && r.term.savedRow == 0 && r.term.savedCol == 0
      && r.term.regionStart == 0 && r.term.regionEnd == r.term.rows - 1
      && r.term.attrs == t.attrs
  {
    var o := SetFontHeightAsWritten(t, h);
    var lineLimit := ClampLineLimit(t.lineLimit, t.fullHeight, h);
    DivMonotone(3 * h, t.fullHeight, h);
    DivExact(3, h, 0);
    AtLeastTwoRows(t.fullHeight, h, lineLimit);
    var columns := t.width / FontWidth(h);
    assert columns * FontWidth(h) <= t.width;
    Outcome(o.term.(columns := columns, regionStart := 0, regionEnd := o.term.rows - 1, savedRow := 0, savedCol := 0),
            o.effect, [])
  }

  /** `gfx_toggle_font_height`: the next height of the cycle 8, 14, 16, 20. */
  function ToggleFontHeight(t: Term): (r: Outcome)
    requires Valid(t)
    ensures Valid(r.term) && r.term.fontHeight == NextFontHeight(t.fontHeight)
  {
    SetFontHeight(t, NextFontHeight(t.fontHeight))
  }

  /**
   * The state `gfx_set_env` leaves: geometry for the configured font with
   * no line limit (the configured limit is stored afterwards and only takes
   * effect at the next font change), columns from the width, cursor home,
   * wraparound and cursor on, the whole grid as region, white on black.
   */
  function Initial(fullHeight: nat, pitch: nat, width: nat, fontHeight: nat, screenLines: nat): (t: Term)
    requires SupportedFontHeight(fontHeight)
    requires MIN_FULL_HEIGHT <= fullHeight < 0x8000_0000 && MIN_WIDTH <= width <= pitch < 0x8000_0000
    requires screenLines != 1
    ensures Valid(t)
    ensures t.rows == ScreenLayout(fullHeight, fontHeight, 0).rows && t.lineLimit == screenLines
  {
    var g := ScreenLayout(fullHeight, fontHeight, 0);
    DivMonotone(3 * fontHeight, fullHeight, fontHeight);
    DivExact(3, fontHeight, 0);
    AtLeastTwoRows(fullHeight, fontHeight, 0);
    var fw := FontWidth(fontHeight);
    Term(fullHeight, pitch, width, fontHeight, fw, screenLines, g.border, g.height, g.rows, width / fw,
         0, 0, 0, 0, true, true, true, 0, g.rows - 1, InitialAttrs)
  }
}
